/**
 * The gallery talking to its own route: the page source the engine sees when
 * every request goes to `GET /api/photos?page=N` of PhotosRoute. The HTTP
 * client rejects a 400 answer, which reaches the engine as a thrown request.
 */
module Backend {
  import opened Wrappers
  import opened Photos
  import PhotosRoute
  import opened PhotoGallery

  /** What the engine receives for a request of page `page`. */
  function RouteAnswer(db: seq<seq<PhotosRoute.ProviderPhoto>>, page: int): Response
  {
    var r := PhotosRoute.Handler(Some(page), db);
    if r.status == 200 then Answered(200, r.body) else Threw
  }

  /** The route as a page source. */
  function RouteSource(db: seq<seq<PhotosRoute.ProviderPhoto>>): PageSource
  {
    page => RouteAnswer(db, page)
  }

  /**
   * Against the route, the engine receives the remapped fixture page for pages
   * 1..4 and an empty list for any other page.
   */
  lemma RouteFetch(db: seq<seq<PhotosRoute.ProviderPhoto>>, page: int)
    requires |db| == PhotosRoute.FIXTURE_PAGES
    ensures 1 <= page <= MAX_PAGES ==>
              ApiGet(RouteSource(db)(page)) == Some(PhotosRoute.RemapUnsplashPhotos(db[page - 1]))
    ensures !(1 <= page <= MAX_PAGES) ==> ApiGet(RouteSource(db)(page)) == Some([])
  {
    PhotosRoute.ServesEveryFixturePage(db, page);
  }

  /** Fixture pages that list each id once make the route a well-formed page source. */
  lemma RouteIsWellFormed(db: seq<seq<PhotosRoute.ProviderPhoto>>)
    requires forall k | 0 <= k < |db| :: PhotosRoute.DistinctProviderIds(db[k])
    ensures WellFormedSource(RouteSource(db))
  {
    forall p | RouteSource(db)(p).Answered? && RouteSource(db)(p).status == 200
      ensures DistinctIds(RouteSource(db)(p).body)
    {
      PhotosRoute.RemapKeepsIdsDistinct(db[p - 1]);
    }
  }

  /**
   * The whole system: a session mounted on a URL page 1..4 against the route,
   * driven only through the controls the view enables, keeps its page counter
   * within 1..4 and its index on the current photo.
   */
  lemma GalleryOverRouteStaysConsistent(db: seq<seq<PhotosRoute.ProviderPhoto>>, pageInUrl: int, actions: seq<Action>)
    requires forall k | 0 <= k < |db| :: PhotosRoute.DistinctProviderIds(db[k])
    requires 1 <= pageInUrl <= MAX_PAGES
    requires Admissible(Mount(pageInUrl, RouteSource(db)), actions, RouteSource(db))
    ensures Invariant(Run(Mount(pageInUrl, RouteSource(db)), actions, RouteSource(db)))
  {
    RouteIsWellFormed(db);
    MountEstablishesInvariant(pageInUrl, RouteSource(db));
    RunKeepsInvariant(Mount(pageInUrl, RouteSource(db)), actions, RouteSource(db));
  }

  /**
   * The route answers every page: the body of its answer (the remapped fixture
   * page, or `[]` with status 400) is what the engine receives.
   */
  lemma RouteAlwaysAnswers(db: seq<seq<PhotosRoute.ProviderPhoto>>, page: int)
    ensures ApiGet(RouteSource(db)(page)) == Some(PhotosRoute.Handler(Some(page), db).body)
  {
  }

  /** The URL names the page counter, and the list is what the route serves for it. */
  predicate ShowsRoutePage(db: seq<seq<PhotosRoute.ProviderPhoto>>, g: GalleryState)
  {
    g.urlPage == g.currentPage && g.photos == PhotosRoute.Handler(Some(g.currentPage), db).body
  }

  /** Mounting against the route shows the route's page for the URL's page. */
  lemma MountShowsRoutePage(db: seq<seq<PhotosRoute.ProviderPhoto>>, pageInUrl: int)
    ensures ShowsRoutePage(db, Mount(pageInUrl, RouteSource(db)))
    ensures Mount(pageInUrl, RouteSource(db)).currentPage == pageInUrl
  {
    RouteAlwaysAnswers(db, pageInUrl);
  }

  /** A page turn against the route always shows the route's page for the new counter. */
  lemma PageTurnsShowRoutePage(db: seq<seq<PhotosRoute.ProviderPhoto>>, g: GalleryState)
    ensures ShowsRoutePage(db, NextPage(g, RouteSource(db)))
    ensures ShowsRoutePage(db, PrevPage(g, RouteSource(db)))
  {
    RouteAlwaysAnswers(db, g.currentPage + 1);
    RouteAlwaysAnswers(db, g.currentPage - 1);
  }

  /** The carousel's "previous" arrow against the route keeps the page shown. */
  lemma SelectPrevShowsRoutePage(db: seq<seq<PhotosRoute.ProviderPhoto>>, g: GalleryState)
    requires ShowsRoutePage(db, g)
    ensures ShowsRoutePage(db, SelectPrev(g, RouteSource(db)))
  {
    SelectPrevEffect(g, RouteSource(db));
    PageTurnsShowRoutePage(db, g.(currentPhoto := None, currentIndex := -1));
  }

  /** The carousel's "next" arrow against the route keeps the page shown. */
  lemma SelectNextShowsRoutePage(db: seq<seq<PhotosRoute.ProviderPhoto>>, g: GalleryState)
    requires ShowsRoutePage(db, g)
    ensures ShowsRoutePage(db, SelectNext(g, RouteSource(db)))
  {
    SelectNextEffect(g, RouteSource(db));
    PageTurnsShowRoutePage(db, g.(currentPhoto := None, currentIndex := |g.photos|));
  }

  /**
   * Against the route every fetch brings a list, so every action, offered or
   * not, keeps the URL on the page counter and the list on that page.
   */
  lemma StepShowsRoutePage(db: seq<seq<PhotosRoute.ProviderPhoto>>, g: GalleryState, a: Action)
    requires ShowsRoutePage(db, g)
    ensures ShowsRoutePage(db, Step(g, a, RouteSource(db)))
  {
    match a
    case ClickCard(p) =>
    case CarouselPrev => SelectPrevShowsRoutePage(db, g);
    case CarouselNext => SelectNextShowsRoutePage(db, g);
    case PagePrev => PageTurnsShowRoutePage(db, g);
    case PageNext => PageTurnsShowRoutePage(db, g);
  }

  /** Any sequence of actions against the route keeps URL, counter and list in step. */
  lemma {:induction false} RunShowsRoutePage(db: seq<seq<PhotosRoute.ProviderPhoto>>, g: GalleryState, actions: seq<Action>)
    requires ShowsRoutePage(db, g)
    ensures ShowsRoutePage(db, Run(g, actions, RouteSource(db)))
    decreases |actions|
  {
    if actions != [] {
      StepShowsRoutePage(db, g, actions[0]);
      RunShowsRoutePage(db, Step(g, actions[0], RouteSource(db)), actions[1..]);
    }
  }
}
