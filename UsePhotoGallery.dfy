/**
 * The `usePhotoGallery` hook (features/PhotoGallery/PhotoGallery.tsx) as an
 * object whose fields are the hook's state cells. Each method updates the
 * fields in the order the hook calls its setters, and each is proved to end in
 * the state the matching transition of module PhotoGallery gives; the
 * properties of those transitions are proved there.
 */
module UsePhotoGallery {
  import opened Wrappers
  import opened Photos
  import opened PhotoGallery

  class Gallery {
    var photos: seq<Photo>
    var currentPhoto: Option<Photo>
    var currentIndex: int
    var currentPage: int
    /** The page number in the browser URL's `page` parameter. */
    ghost var urlPage: int
    /** The backend this session talks to. */
    const source: PageSource

    /** The fields as one value of the specification. */
    ghost function Model(): GalleryState
      reads this
    {
      GalleryState(photos, currentPhoto, currentIndex, currentPage, urlPage)
    }

    /**
     * Mounting the hook: the initial cells, then the mount effect, which sets
     * the page read from the URL and loads it.
     */
    constructor (pageInUrl: int, source: PageSource)
      ensures this.source == source
      ensures Model() == Mount(pageInUrl, source)
    {
      this.source := source;
      photos := [];
      currentPhoto := None;
      currentIndex := 0;
      currentPage := 1;
      urlPage := pageInUrl;
      new;
      currentPage := pageInUrl;
      var _ := GetPhotos(pageInUrl);
    }

    /** `getPhotos`: fetch a page; a returned list replaces `photos` and is handed back. */
    method GetPhotos(page: int) returns (fetched: Option<seq<Photo>>)
      modifies this
      ensures fetched == ApiGet(source(page))
      ensures Model() == Load(old(Model()), fetched)
    {
      fetched := ApiGet(source(page));
      if fetched.Some? {
        photos := fetched.value;
      }
    }

    /** `getNextPage`. */
    method GetNextPage()
      modifies this
      ensures Model() == NextPage(old(Model()), source)
    {
      var nextPage := currentPage + 1;
      currentPage := nextPage;
      var fetched := GetPhotos(nextPage);
      if fetched.Some? {
        urlPage := nextPage;
        currentIndex := 0;
        currentPhoto := At(fetched.value, 0);
      }
    }

    /** `getPrevPage`. */
    method GetPrevPage()
      modifies this
      ensures Model() == PrevPage(old(Model()), source)
    {
      var prevPage := currentPage - 1;
      currentPage := prevPage;
      var fetched := GetPhotos(prevPage);
      if fetched.Some? {
        urlPage := prevPage;
        currentIndex := |fetched.value| - 1;
        currentPhoto := At(fetched.value, |fetched.value| - 1);
      }
    }

    /**
     * `maybeUpdatePagination`: two independent tests against the list the
     * caller saw; no index passes both, since a length is never negative.
     */
    method MaybeUpdatePagination(nextIndex: int)
      modifies this
      ensures Model() == UpdatePagination(old(Model()), nextIndex, source)
    {
      var length := |photos|;
      if nextIndex == -1 {
        GetPrevPage();
      }
      if nextIndex >= length {
        GetNextPage();
      }
    }

    /** `selectPhoto`. */
    method SelectPhoto(nextPhoto: Photo)
      modifies this
      ensures Model() == Select(old(Model()), nextPhoto)
    {
      currentPhoto := Some(nextPhoto);
      var photoFromData := FindById(photos, nextPhoto.id);
      var index := IndexOfPhoto(photos, photoFromData);
      if index >= 0 {
        currentIndex := index;
      }
    }

    /** `selectPrevPhoto`. */
    method SelectPrevPhoto()
      modifies this
      ensures Model() == SelectPrev(old(Model()), source)
    {
      var index := IndexOfPhoto(photos, currentPhoto);
      if index >= 0 {
        var nextIndex := index - 1;
        currentPhoto := At(photos, nextIndex);
        currentIndex := nextIndex;
        MaybeUpdatePagination(nextIndex);
      }
    }

    /** `selectNextPhoto`. */
    method SelectNextPhoto()
      modifies this
      ensures Model() == SelectNext(old(Model()), source)
    {
      var index := IndexOfPhoto(photos, currentPhoto);
      if index < |photos| {
        var nextIndex := index + 1;
        currentPhoto := At(photos, nextIndex);
        currentIndex := nextIndex;
        MaybeUpdatePagination(nextIndex);
      }
    }
  }
}
