/**
 * The photo records the gallery shows, as declared in
 * features/PhotoGallery/types/Photos.ts. They are immutable once fetched.
 */
module Photos {
  import opened Wrappers

  /** The photographer credited for a photo. */
  datatype User = User(id: string, username: string, name: string, imageUrl: string)

  /** One displayable photo; `description` is optional in the type. */
  datatype Photo = Photo(
    id: string,
    color: string,
    description: Option<string>,
    imageUrl: string,
    thumbUrl: string,
    user: User)

  /** No two photos of a page share an `id`. */
  ghost predicate DistinctIds(photos: seq<Photo>)
  {
    forall i, j | 0 <= i < j < |photos| :: photos[i].id != photos[j].id
  }
}
