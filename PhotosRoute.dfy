/**
 * The backend route `GET /api/photos?page=N` (pages/api/photos.ts): it picks
 * one of the fixture pages of photo-provider records and reshapes every record
 * into the gallery's `Photo`. The fixture database is a parameter `db`; the
 * deployed route holds `FIXTURE_PAGES` pages.
 */
module PhotosRoute {
  import opened Wrappers
  import opened Photos

  /** The number of fixture pages the deployed route holds. */
  const FIXTURE_PAGES: int := 4

  datatype ProfileImage = ProfileImage(medium: string)
  datatype ProviderUser = ProviderUser(id: string, username: string, name: string, profileImage: ProfileImage)
  datatype Urls = Urls(regular: string, thumb: string)

  /** A photo record as the provider delivers it. */
  datatype ProviderPhoto = ProviderPhoto(
    id: string,
    color: string,
    description: Option<string>,
    altDescription: Option<string>,
    urls: Urls,
    user: ProviderUser)

  /** The route's answer: an HTTP status and a JSON list of photos. */
  datatype RouteResponse = RouteResponse(status: int, body: seq<Photo>)

  /** JavaScript truthiness of an optional string: absent and "" are false. */
  predicate Truthy(s: Option<string>)
  {
    s.Some? && s.value != ""
  }

  /** `description || alt_description || "Photo by <username>"`. */
  function Describe(item: ProviderPhoto): (d: string)
    ensures d != ""
    ensures Truthy(item.description) ==> d == item.description.value
    ensures !Truthy(item.description) && Truthy(item.altDescription) ==> d == item.altDescription.value
    ensures !Truthy(item.description) && !Truthy(item.altDescription) ==>
              d == "Photo by " + item.user.username
  {
    if Truthy(item.description) then item.description.value
    else if Truthy(item.altDescription) then item.altDescription.value
    else "Photo by " + item.user.username
  }

  /** The reshaping of one provider record. */
  function Remap(item: ProviderPhoto): Photo
  {
    Photo(
      item.id,
      item.color,
      Some(Describe(item)),
      item.urls.regular,
      item.urls.thumb,
      User(item.user.id, item.user.username, item.user.name, item.user.profileImage.medium))
  }

  /** `remapUnsplashPhotos`: the reshaping applied to every record, in order. */
  function RemapUnsplashPhotos(data: seq<ProviderPhoto>): (r: seq<Photo>)
    ensures |r| == |data|
    ensures forall i | 0 <= i < |data| ::
              && r[i].id == data[i].id
              && r[i].color == data[i].color
              && r[i].description == Some(Describe(data[i]))
              && r[i].imageUrl == data[i].urls.regular
              && r[i].thumbUrl == data[i].urls.thumb
              && r[i].user == User(data[i].user.id, data[i].user.username,
                                   data[i].user.name, data[i].user.profileImage.medium)
  {
    if data == [] then [] else [Remap(data[0])] + RemapUnsplashPhotos(data[1..])
  }

  /** `page ? Number(page) - 1 : 0`: the 0-based fixture index of a page parameter. */
  function PageIndex(page: Option<int>): int
  {
    if page.Some? then page.value - 1 else 0
  }

  /**
   * `handler`: status 200 with the remapped fixture page when the index hits a
   * fixture page; otherwise the lookup is undefined, remapping it throws, and
   * the route answers 400 with an empty list.
   */
  function Handler(page: Option<int>, db: seq<seq<ProviderPhoto>>): (r: RouteResponse)
    ensures r.status == 200 || r.status == 400
    ensures r.status == 200 <==> 0 <= PageIndex(page) < |db|
    ensures r.status == 200 ==> r.body == RemapUnsplashPhotos(db[PageIndex(page)])
    ensures r.status == 400 ==> r.body == []
  {
    var index := PageIndex(page);
    if 0 <= index < |db| then RouteResponse(200, RemapUnsplashPhotos(db[index]))
    else RouteResponse(400, [])
  }

  /** No two provider records of a page share an `id`. */
  ghost predicate DistinctProviderIds(data: seq<ProviderPhoto>)
  {
    forall i, j | 0 <= i < j < |data| :: data[i].id != data[j].id
  }

  /** Pages 1 to 4 of the deployed route are served as the remapped fixture pages 0 to 3. */
  lemma ServesEveryFixturePage(db: seq<seq<ProviderPhoto>>, p: int)
    requires |db| == FIXTURE_PAGES
    ensures 1 <= p <= FIXTURE_PAGES ==> Handler(Some(p), db) == RouteResponse(200, RemapUnsplashPhotos(db[p - 1]))
    ensures !(1 <= p <= FIXTURE_PAGES) ==> Handler(Some(p), db) == RouteResponse(400, [])
  {
  }

  /** A request without a page parameter is answered exactly like one for page 1. */
  lemma AbsentPageIsFirstPage(db: seq<seq<ProviderPhoto>>)
    ensures Handler(None, db) == Handler(Some(1), db)
  {
  }

  /** Remapping keeps ids, so a page whose records have distinct ids becomes one. */
  lemma RemapKeepsIdsDistinct(data: seq<ProviderPhoto>)
    requires DistinctProviderIds(data)
    ensures DistinctIds(RemapUnsplashPhotos(data))
  {
    var r := RemapUnsplashPhotos(data);
    forall i, j | 0 <= i < j < |r|
      ensures r[i].id != r[j].id
    {
      assert r[i].id == data[i].id && r[j].id == data[j].id;
    }
  }
}
