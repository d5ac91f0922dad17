/**
 * The navigation engine of the gallery (`usePhotoGallery`,
 * features/PhotoGallery/PhotoGallery.tsx) as a specification on values: the
 * engine's state, each of its operations as a transition, the derived button
 * flags, and what the operations guarantee. Every operation is taken as atomic
 * over the state it is called in. The class in UsePhotoGallery.dfy updates its
 * fields step by step and is proved to end in the state these functions give.
 */
module PhotoGallery {
  import opened Wrappers
  import opened Photos

  /** The last page the carousel and the page buttons may reach. */
  const MAX_PAGES: int := 4

  // ---------------------------------------------------------------------------
  // The page source
  // ---------------------------------------------------------------------------

  /** What one request for a page brings back: an HTTP answer, or a thrown error. */
  datatype Response = Answered(status: int, body: seq<Photo>) | Threw

  /** The backend as the engine sees it: a fixed answer for every page number. */
  type PageSource = int -> Response

  /**
   * `photosApi.get`: the body of a 200 answer, nothing (`undefined`) for any
   * other status, and an empty list when the request throws.
   */
  function ApiGet(resp: Response): (r: Option<seq<Photo>>)
    ensures r.None? <==> resp.Answered? && resp.status != 200
    ensures resp.Answered? && resp.status == 200 ==> r == Some(resp.body)
    ensures resp.Threw? ==> r == Some([])
  {
    match resp
    case Answered(status, body) => if status == 200 then Some(body) else None
    case Threw => Some([])
  }

  /** A source whose successful pages never repeat an id within a page. */
  ghost predicate WellFormedSource(source: PageSource)
  {
    forall p :: source(p).Answered? && source(p).status == 200 ==> DistinctIds(source(p).body)
  }

  // ---------------------------------------------------------------------------
  // State and lookup
  // ---------------------------------------------------------------------------

  /**
   * The state cells of the hook, plus the page number the browser URL's `page`
   * parameter holds (`urlPage`), which only page loads write.
   */
  datatype GalleryState = GalleryState(
    photos: seq<Photo>,
    currentPhoto: Option<Photo>,
    currentIndex: int,
    currentPage: int,
    urlPage: int)

  /** JavaScript's `photos[i]`: `undefined` outside the list. */
  function At(photos: seq<Photo>, i: int): (r: Option<Photo>)
    ensures r.Some? <==> 0 <= i < |photos|
    ensures r.Some? ==> r.value == photos[i]
  {
    if 0 <= i < |photos| then Some(photos[i]) else None
  }

  /** The first position of a photo with this id, or -1 when there is none. */
  function IndexOfId(photos: seq<Photo>, id: string): (r: int)
    ensures -1 <= r < |photos|
    ensures r == -1 <==> forall i | 0 <= i < |photos| :: photos[i].id != id
    ensures r >= 0 ==> photos[r].id == id && forall i | 0 <= i < r :: photos[i].id != id
  {
    if photos == [] then -1
    else if photos[0].id == id then 0
    else
      var k := IndexOfId(photos[1..], id);
      if k == -1 then -1 else k + 1
  }

  /** `photos.find(p => p.id === id)`. */
  function FindById(photos: seq<Photo>, id: string): Option<Photo>
  {
    var i := IndexOfId(photos, id);
    if i >= 0 then Some(photos[i]) else None
  }

  /**
   * `getIndexOfPhoto`: -1 for an absent photo or an id not in the list,
   * otherwise the first position holding that id.
   */
  function IndexOfPhoto(photos: seq<Photo>, photo: Option<Photo>): (r: int)
    ensures -1 <= r < |photos|
    ensures r == -1 <==> photo.None? || forall i | 0 <= i < |photos| :: photos[i].id != photo.value.id
    ensures r >= 0 ==> photos[r].id == photo.value.id && forall i | 0 <= i < r :: photos[i].id != photo.value.id
  {
    match photo
    case None => -1
    case Some(p) =>
      var found := FindById(photos, p.id);
      if found.Some? then IndexOfId(photos, found.value.id) else -1
  }

  // ---------------------------------------------------------------------------
  // Transitions
  // ---------------------------------------------------------------------------

  /** The state on mount, before the page in the URL is loaded. */
  function Initial(pageInUrl: int): GalleryState
  {
    GalleryState([], None, 0, pageInUrl, pageInUrl)
  }

  /** The part of `getPhotos` that touches state: a returned list replaces `photos`. */
  function Load(g: GalleryState, fetched: Option<seq<Photo>>): GalleryState
  {
    if fetched.Some? then g.(photos := fetched.value) else g
  }

  /** The mount effect: set the page read from the URL and load it. */
  function Mount(pageInUrl: int, source: PageSource): GalleryState
  {
    Load(Initial(pageInUrl), ApiGet(source(pageInUrl)))
  }

  /** `getNextPage`: one page on, whatever the fetch brings; a list re-anchors at its first photo. */
  function NextPage(g: GalleryState, source: PageSource): GalleryState
  {
    var next := g.currentPage + 1;
    var fetched := ApiGet(source(next));
    var h := Load(g.(currentPage := next), fetched);
    if fetched.Some? then h.(urlPage := next, currentIndex := 0, currentPhoto := At(fetched.value, 0))
    else h
  }

  /** `getPrevPage`: one page back, whatever the fetch brings; a list re-anchors at its last photo. */
  function PrevPage(g: GalleryState, source: PageSource): GalleryState
  {
    var prev := g.currentPage - 1;
    var fetched := ApiGet(source(prev));
    var h := Load(g.(currentPage := prev), fetched);
    if fetched.Some? then
      var last := |fetched.value| - 1;
      h.(urlPage := prev, currentIndex := last, currentPhoto := At(fetched.value, last))
    else h
  }

  /** `selectPhoto`: always shows the photo; moves the index only when its id is on the page. */
  function Select(g: GalleryState, p: Photo): GalleryState
  {
    var index := IndexOfPhoto(g.photos, FindById(g.photos, p.id));
    g.(currentPhoto := Some(p), currentIndex := if index >= 0 then index else g.currentIndex)
  }

  /**
   * `maybeUpdatePagination`: running off the start loads the previous page,
   * running off the end loads the next one.
   */
  function UpdatePagination(g: GalleryState, nextIndex: int, source: PageSource): GalleryState
  {
    if nextIndex == -1 then PrevPage(g, source)
    else if nextIndex >= |g.photos| then NextPage(g, source)
    else g
  }

  /** `selectPrevPhoto`. */
  function SelectPrev(g: GalleryState, source: PageSource): GalleryState
  {
    var index := IndexOfPhoto(g.photos, g.currentPhoto);
    if index >= 0 then
      var nextIndex := index - 1;
      UpdatePagination(g.(currentPhoto := At(g.photos, nextIndex), currentIndex := nextIndex), nextIndex, source)
    else g
  }

  /** `selectNextPhoto`. */
  function SelectNext(g: GalleryState, source: PageSource): GalleryState
  {
    var index := IndexOfPhoto(g.photos, g.currentPhoto);
    if index < |g.photos| then
      var nextIndex := index + 1;
      UpdatePagination(g.(currentPhoto := At(g.photos, nextIndex), currentIndex := nextIndex), nextIndex, source)
    else g
  }

  // ---------------------------------------------------------------------------
  // Derived flags
  // ---------------------------------------------------------------------------

  /** The carousel's "previous" arrow is disabled. */
  predicate DisableNavigatePrev(g: GalleryState)
  {
    g.currentPage == 1 && g.currentIndex == 0
  }

  /** The carousel's "next" arrow is disabled. */
  predicate DisableNavigateNext(g: GalleryState)
  {
    g.currentPage == MAX_PAGES && g.currentIndex == |g.photos| - 1
  }

  /** The "previous page" button is disabled. */
  predicate DisablePrevPage(g: GalleryState)
  {
    g.currentPage == 1
  }

  /** The "next page" button is disabled. */
  predicate DisableNextPage(g: GalleryState)
  {
    g.currentPage == MAX_PAGES
  }

  // ---------------------------------------------------------------------------
  // What the view lets a user do
  // ---------------------------------------------------------------------------

  /**
   * The user's actions: a click on a card of the grid, the carousel arrows of
   * the preview, and the page buttons below the grid.
   */
  datatype Action = ClickCard(photo: Photo) | CarouselPrev | CarouselNext | PagePrev | PageNext

  /**
   * Whether the view offers the action: a card is one of the listed photos, the
   * carousel is shown only with a current photo, and every arrow or button
   * obeys its flag.
   */
  predicate Enabled(g: GalleryState, a: Action)
  {
    match a
    case ClickCard(p) => p in g.photos
    case CarouselPrev => g.currentPhoto.Some? && !DisableNavigatePrev(g)
    case CarouselNext => g.currentPhoto.Some? && !DisableNavigateNext(g)
    case PagePrev => !DisablePrevPage(g)
    case PageNext => !DisableNextPage(g)
  }

  function Step(g: GalleryState, a: Action, source: PageSource): GalleryState
  {
    match a
    case ClickCard(p) => Select(g, p)
    case CarouselPrev => SelectPrev(g, source)
    case CarouselNext => SelectNext(g, source)
    case PagePrev => PrevPage(g, source)
    case PageNext => NextPage(g, source)
  }

  /** The state after `n` presses of the carousel's "next" arrow. */
  function PressNext(g: GalleryState, n: nat, source: PageSource): GalleryState
  {
    if n == 0 then g else SelectNext(PressNext(g, n - 1, source), source)
  }

  /** The state after a sequence of actions. */
  function Run(g: GalleryState, actions: seq<Action>, source: PageSource): GalleryState
    decreases |actions|
  {
    if actions == [] then g else Run(Step(g, actions[0], source), actions[1..], source)
  }

  /** Every action of the sequence is offered by the view in the state it meets. */
  predicate Admissible(g: GalleryState, actions: seq<Action>, source: PageSource)
    decreases |actions|
  {
    actions == [] || (Enabled(g, actions[0]) && Admissible(Step(g, actions[0], source), actions[1..], source))
  }

  /**
   * The engine's consistency: the page counter is a page the backend has,
   * the page lists each id once, and the index is the position of the current
   * photo whenever there is one.
   */
  ghost predicate Invariant(g: GalleryState)
  {
    && 1 <= g.currentPage <= MAX_PAGES
    && DistinctIds(g.photos)
    && (g.currentPhoto.Some? ==> g.currentIndex == IndexOfPhoto(g.photos, g.currentPhoto))
  }

  // ---------------------------------------------------------------------------
  // Properties
  // ---------------------------------------------------------------------------

  /** With distinct ids, looking a listed photo up gives back its own position. */
  lemma IndexOfListed(photos: seq<Photo>, i: int)
    requires DistinctIds(photos)
    requires 0 <= i < |photos|
    ensures IndexOfPhoto(photos, Some(photos[i])) == i
  {
    var r := IndexOfPhoto(photos, Some(photos[i]));
    assert r >= 0;
  }

  /**
   * `selectPhoto` always shows the photo, moves the index to the photo's first
   * position when its id is listed and keeps it otherwise, changes nothing else,
   * and a second identical call changes nothing.
   */
  lemma SelectPhotoEffect(g: GalleryState, p: Photo)
    ensures var h := Select(g, p);
      && h.currentPhoto == Some(p)
      && h.photos == g.photos && h.currentPage == g.currentPage && h.urlPage == g.urlPage
      && (IndexOfId(g.photos, p.id) >= 0 ==> h.currentIndex == IndexOfId(g.photos, p.id))
      && (IndexOfId(g.photos, p.id) == -1 ==> h.currentIndex == g.currentIndex)
      && Select(h, p) == h
  {
  }

  /**
   * `getNextPage` and `getPrevPage` move the page counter by exactly one
   * whatever the fetch brings. A fetched list replaces the photos wholesale,
   * re-anchors the selection at its first (next) or last (previous) photo and
   * moves the URL; without a list, photos, selection and URL stay.
   */
  lemma PageTurnEffect(g: GalleryState, source: PageSource)
    ensures var h := NextPage(g, source);
      && h.currentPage == g.currentPage + 1
      && match ApiGet(source(g.currentPage + 1))
         case Some(list) =>
           h.photos == list && h.currentIndex == 0 && h.urlPage == g.currentPage + 1
           && h.currentPhoto == (if list == [] then None else Some(list[0]))
         case None => h == g.(currentPage := g.currentPage + 1)
    ensures var h := PrevPage(g, source);
      && h.currentPage == g.currentPage - 1
      && match ApiGet(source(g.currentPage - 1))
         case Some(list) =>
           h.photos == list && h.currentIndex == |list| - 1 && h.urlPage == g.currentPage - 1
           && h.currentPhoto == (if list == [] then None else Some(list[|list| - 1]))
         case None => h == g.(currentPage := g.currentPage - 1)
  {
  }

  /**
   * `selectPrevPhoto` does nothing when the current photo is not listed; from
   * position i >= 1 it selects the photo before without touching the page;
   * from position 0 it loads the previous page.
   */
  lemma SelectPrevEffect(g: GalleryState, source: PageSource)
    ensures var i := IndexOfPhoto(g.photos, g.currentPhoto);
      && (i == -1 ==> SelectPrev(g, source) == g)
      && (i >= 1 ==> SelectPrev(g, source) == g.(currentPhoto := Some(g.photos[i - 1]), currentIndex := i - 1))
      && (i == 0 ==> SelectPrev(g, source) == PrevPage(g.(currentPhoto := None, currentIndex := -1), source))
  {
  }

  /**
   * `selectNextPhoto` selects the following photo without touching the page
   * while there is one, and loads the next page from the last position. The
   * third clause only spells out a case of the first: a current photo that is
   * not listed counts as position -1, so the step lands on position 0.
   */
  lemma SelectNextEffect(g: GalleryState, source: PageSource)
    ensures var i := IndexOfPhoto(g.photos, g.currentPhoto);
      && (i + 1 < |g.photos| ==>
            SelectNext(g, source) == g.(currentPhoto := Some(g.photos[i + 1]), currentIndex := i + 1))
      && (i + 1 == |g.photos| ==>
            SelectNext(g, source) == NextPage(g.(currentPhoto := None, currentIndex := |g.photos|), source))
      && (g.currentPhoto.Some? && g.photos != [] && i == -1 ==>
            SelectNext(g, source).currentIndex == 0 && SelectNext(g, source).currentPhoto == Some(g.photos[0]))
  {
  }

  /**
   * What the flags mean, in a consistent state with a current photo: the
   * carousel arrows are disabled exactly when a step would have to load a page
   * before the first or after the last, and the page buttons exactly when the
   * page turn would leave the pages the backend has.
   */
  lemma FlagsMeaning(g: GalleryState, source: PageSource)
    requires Invariant(g)
    ensures g.currentPhoto.Some? ==> (DisableNavigatePrev(g) <==> SelectPrev(g, source).currentPage < 1)
    ensures g.currentPhoto.Some? ==> (DisableNavigateNext(g) <==> SelectNext(g, source).currentPage > MAX_PAGES)
    ensures g.currentPhoto.Some? ==>
              (DisableNavigatePrev(g) <==>
                 g.currentPage == 1 && IndexOfPhoto(g.photos, g.currentPhoto) == 0)
    ensures g.currentPhoto.Some? ==>
              (DisableNavigateNext(g) <==>
                 g.currentPage == MAX_PAGES && IndexOfPhoto(g.photos, g.currentPhoto) + 1 >= |g.photos|)
    ensures DisablePrevPage(g) <==> PrevPage(g, source).currentPage < 1
    ensures DisableNextPage(g) <==> NextPage(g, source).currentPage > MAX_PAGES
  {
    SelectPrevEffect(g, source);
    SelectNextEffect(g, source);
  }

  /** A page the source hands over keeps the invariant's id condition. */
  lemma FetchedDistinct(source: PageSource, p: int)
    requires WellFormedSource(source)
    ensures ApiGet(source(p)).Some? ==> DistinctIds(ApiGet(source(p)).value)
  {
    if source(p).Answered? && source(p).status == 200 {
      assert DistinctIds(source(p).body);
    }
  }

  /** Loading the next page from a consistent state is consistent again when the page stays in range. */
  lemma NextPageKeepsInvariant(g: GalleryState, source: PageSource)
    requires WellFormedSource(source)
    requires DistinctIds(g.photos)
    requires g.currentPhoto.Some? ==> g.currentIndex == IndexOfPhoto(g.photos, g.currentPhoto)
    requires 0 <= g.currentPage < MAX_PAGES
    ensures Invariant(NextPage(g, source))
  {
    FetchedDistinct(source, g.currentPage + 1);
    var fetched := ApiGet(source(g.currentPage + 1));
    if fetched.Some? && fetched.value != [] {
      IndexOfListed(fetched.value, 0);
    }
  }

  /** Loading the previous page from a consistent state is consistent again when the page stays in range. */
  lemma PrevPageKeepsInvariant(g: GalleryState, source: PageSource)
    requires WellFormedSource(source)
    requires DistinctIds(g.photos)
    requires g.currentPhoto.Some? ==> g.currentIndex == IndexOfPhoto(g.photos, g.currentPhoto)
    requires 1 < g.currentPage <= MAX_PAGES + 1
    ensures Invariant(PrevPage(g, source))
  {
    FetchedDistinct(source, g.currentPage - 1);
    var fetched := ApiGet(source(g.currentPage - 1));
    if fetched.Some? && fetched.value != [] {
      IndexOfListed(fetched.value, |fetched.value| - 1);
    }
  }

  /** Clicking a listed card keeps the engine consistent. */
  lemma SelectKeepsInvariant(g: GalleryState, p: Photo)
    requires Invariant(g)
    requires p in g.photos
    ensures Invariant(Select(g, p))
  {
    var k :| 0 <= k < |g.photos| && g.photos[k] == p;
    IndexOfListed(g.photos, k);
  }

  /** The carousel's previous arrow, when offered, keeps the engine consistent. */
  lemma SelectPrevKeepsInvariant(g: GalleryState, source: PageSource)
    requires WellFormedSource(source)
    requires Invariant(g)
    requires Enabled(g, CarouselPrev)
    ensures Invariant(SelectPrev(g, source))
  {
    var i := IndexOfPhoto(g.photos, g.currentPhoto);
    if i >= 1 {
      IndexOfListed(g.photos, i - 1);
    } else if i == 0 {
      PrevPageKeepsInvariant(g.(currentPhoto := None, currentIndex := -1), source);
    }
  }

  /** The carousel's next arrow, when offered, keeps the engine consistent. */
  lemma SelectNextKeepsInvariant(g: GalleryState, source: PageSource)
    requires WellFormedSource(source)
    requires Invariant(g)
    requires Enabled(g, CarouselNext)
    ensures Invariant(SelectNext(g, source))
  {
    var i := IndexOfPhoto(g.photos, g.currentPhoto);
    if i + 1 < |g.photos| {
      IndexOfListed(g.photos, i + 1);
    } else {
      NextPageKeepsInvariant(g.(currentPhoto := None, currentIndex := i + 1), source);
    }
  }

  /**
   * Safety of the view: every action the view offers keeps the engine
   * consistent, so the page counter never leaves 1..MAX_PAGES and the index
   * always locates the current photo, provided the backend lists each id once.
   */
  lemma StepKeepsInvariant(g: GalleryState, a: Action, source: PageSource)
    requires WellFormedSource(source)
    requires Invariant(g)
    requires Enabled(g, a)
    ensures Invariant(Step(g, a, source))
  {
    match a
    case ClickCard(p) => SelectKeepsInvariant(g, p);
    case CarouselPrev => SelectPrevKeepsInvariant(g, source);
    case CarouselNext => SelectNextKeepsInvariant(g, source);
    case PagePrev => PrevPageKeepsInvariant(g, source);
    case PageNext => NextPageKeepsInvariant(g, source);
  }

  /** Any sequence of offered actions keeps the engine consistent. */
  lemma {:induction false} RunKeepsInvariant(g: GalleryState, actions: seq<Action>, source: PageSource)
    requires WellFormedSource(source)
    requires Invariant(g)
    requires Admissible(g, actions, source)
    ensures Invariant(Run(g, actions, source))
    decreases |actions|
  {
    if actions != [] {
      StepKeepsInvariant(g, actions[0], source);
      RunKeepsInvariant(Step(g, actions[0], source), actions[1..], source);
    }
  }

  /** Mounting on a URL page the backend has starts in a consistent state. */
  lemma MountEstablishesInvariant(pageInUrl: int, source: PageSource)
    requires WellFormedSource(source)
    requires 1 <= pageInUrl <= MAX_PAGES
    ensures Invariant(Mount(pageInUrl, source))
    ensures Mount(pageInUrl, source).currentPhoto == None
  {
    FetchedDistinct(source, pageInUrl);
  }

  /**
   * The flags only compare with the first and the last page, so a session
   * mounted outside 1..MAX_PAGES is never brought back: the page buttons stay
   * enabled and move the counter further away.
   */
  lemma OutOfRangeMountDrifts(source: PageSource)
    ensures Enabled(Mount(MAX_PAGES + 1, source), PageNext)
    ensures Step(Mount(MAX_PAGES + 1, source), PageNext, source).currentPage == MAX_PAGES + 2
    ensures Enabled(Mount(0, source), PagePrev)
    ensures Step(Mount(0, source), PagePrev, source).currentPage == -1
  {
  }

  /**
   * Why the backend must list each id once: if page 1 repeats an id, turning
   * back from page 2 selects its last photo while the lookup finds the first,
   * the "previous" arrow stays enabled, and pressing it loads page 0, even
   * from a consistent state.
   */
  lemma DuplicateIdsEscapeFirstPage(g: GalleryState, x: Photo, y: Photo, source: PageSource)
    requires Invariant(g) && g.currentPage == 2
    requires x.id == y.id
    requires source(1) == Answered(200, [x, y])
    ensures Enabled(g, PagePrev)
    ensures var h := Step(g, PagePrev, source);
      && h.currentPage == 1 && h.currentPhoto == Some(y) && h.currentIndex == 1
      && Enabled(h, CarouselPrev)
      && Step(h, CarouselPrev, source).currentPage == 0
  {
    var h := GalleryState([x, y], Some(y), 1, 1, 1);
    assert Step(g, PagePrev, source) == h;
    assert IndexOfPhoto(h.photos, h.currentPhoto) == 0;
  }

  /**
   * The whole session: mounted on a page the backend has, whatever the user
   * does through the view, the page counter stays within 1..MAX_PAGES.
   */
  lemma SessionStaysInRange(pageInUrl: int, actions: seq<Action>, source: PageSource)
    requires WellFormedSource(source)
    requires 1 <= pageInUrl <= MAX_PAGES
    requires Admissible(Mount(pageInUrl, source), actions, source)
    ensures 1 <= Run(Mount(pageInUrl, source), actions, source).currentPage <= MAX_PAGES
  {
    MountEstablishesInvariant(pageInUrl, source);
    RunKeepsInvariant(Mount(pageInUrl, source), actions, source);
  }

  /** One press of "next" inside a page selects the following photo. */
  lemma CarouselStepsWithinPage(g: GalleryState, i: int, source: PageSource)
    requires DistinctIds(g.photos)
    requires 0 <= i && i + 1 < |g.photos|
    requires g.currentPhoto == Some(g.photos[i])
    ensures SelectNext(g, source) == g.(currentPhoto := Some(g.photos[i + 1]), currentIndex := i + 1)
  {
    IndexOfListed(g.photos, i);
  }

  /** A press of "next" on the last photo of a page loads the next page. */
  lemma CarouselStepsOffPage(g: GalleryState, source: PageSource)
    requires DistinctIds(g.photos)
    requires g.photos != [] && g.currentPhoto == Some(g.photos[|g.photos| - 1])
    ensures SelectNext(g, source) == NextPage(g.(currentPhoto := None, currentIndex := |g.photos|), source)
  {
    IndexOfListed(g.photos, |g.photos| - 1);
  }

  /**
   * The carousel walks a page in order: from the first photo, k presses of
   * "next" (k below the page length) select the k-th photo and load nothing.
   */
  lemma {:induction false} CarouselWalksPage(g: GalleryState, k: nat, source: PageSource)
    requires DistinctIds(g.photos)
    requires g.photos != [] && g.currentPhoto == Some(g.photos[0]) && g.currentIndex == 0
    requires k < |g.photos|
    ensures PressNext(g, k, source) == g.(currentPhoto := Some(g.photos[k]), currentIndex := k)
  {
    if k > 0 {
      var before := g.(currentPhoto := Some(g.photos[k - 1]), currentIndex := k - 1);
      CarouselStepsWithinPage(before, k - 1, source);
      CarouselWalksPage(g, k - 1, source);
    }
  }

  /**
   * On a page of length L, the L-th press of "next" from the first photo
   * moves to the following page; a fetched list there is shown from its first
   * photo and the URL names the new page.
   */
  lemma CarouselCrossesPage(g: GalleryState, source: PageSource)
    requires DistinctIds(g.photos)
    requires g.photos != [] && g.currentPhoto == Some(g.photos[0]) && g.currentIndex == 0
    ensures var h := PressNext(g, |g.photos|, source);
      && h.currentPage == g.currentPage + 1
      && match ApiGet(source(g.currentPage + 1))
         case Some(list) =>
           h.photos == list && h.currentIndex == 0 && h.urlPage == g.currentPage + 1
           && h.currentPhoto == (if list == [] then None else Some(list[0]))
         case None =>
           h.photos == g.photos && h.currentPhoto == None && h.currentIndex == |g.photos|
  {
    var off := g.(currentPhoto := None, currentIndex := |g.photos|);
    CarouselRunsOffPage(g, source);
    PageTurnEffect(off, source);
  }

  /** The L-th press of "next" from the first photo of a page of length L is a next-page load. */
  lemma CarouselRunsOffPage(g: GalleryState, source: PageSource)
    requires DistinctIds(g.photos)
    requires g.photos != [] && g.currentPhoto == Some(g.photos[0]) && g.currentIndex == 0
    ensures PressNext(g, |g.photos|, source)
         == NextPage(g.(currentPhoto := None, currentIndex := |g.photos|), source)
  {
    var n := |g.photos|;
    var last := g.(currentPhoto := Some(g.photos[n - 1]), currentIndex := n - 1);
    assert last.(currentPhoto := None, currentIndex := n) == g.(currentPhoto := None, currentIndex := n);
    CarouselStepsOffPage(last, source);
    CarouselWalksPage(g, n - 1, source);
    assert PressNext(g, n, source) == SelectNext(PressNext(g, n - 1, source), source);
    assert PressNext(g, n - 1, source) == last;
  }

  /** Mounting on page 1 of [a, b, c] and clicking a selects a at position 0. */
  lemma OpenFirstCard(a: Photo, b: Photo, c: Photo, source: PageSource)
    requires a.id != b.id && a.id != c.id
    requires source(1) == Answered(200, [a, b, c])
    ensures Step(Mount(1, source), ClickCard(a), source) == GalleryState([a, b, c], Some(a), 0, 1, 1)
  {
    assert Mount(1, source) == GalleryState([a, b, c], None, 0, 1, 1);
    assert IndexOfId([a, b, c], a.id) == 0;
  }

  /** Three presses of the carousel's next arrow. */
  lemma ThreeNexts(g: GalleryState, source: PageSource)
    ensures Run(g, [CarouselNext, CarouselNext, CarouselNext], source)
         == SelectNext(SelectNext(SelectNext(g, source), source), source)
  {
    var acts := [CarouselNext, CarouselNext, CarouselNext];
    assert acts[1..] == [CarouselNext, CarouselNext];
    assert acts[1..][1..] == [CarouselNext];
  }

  /** From a shown at position 0 of page 1 = [a, b, c], three presses of "next" open page 2. */
  lemma ThreeNextsCross(a: Photo, b: Photo, c: Photo, page2: seq<Photo>, source: PageSource)
    requires a.id != b.id && a.id != c.id && b.id != c.id
    requires source(2) == Answered(200, page2) && page2 != []
    ensures var shown := GalleryState([a, b, c], Some(a), 0, 1, 1);
      SelectNext(SelectNext(SelectNext(shown, source), source), source)
      == GalleryState(page2, Some(page2[0]), 0, 2, 2)
  {
    var shown := GalleryState([a, b, c], Some(a), 0, 1, 1);
    var s1 := shown.(currentPhoto := Some(b), currentIndex := 1);
    var s2 := shown.(currentPhoto := Some(c), currentIndex := 2);
    CarouselStepsWithinPage(shown, 0, source);
    CarouselStepsWithinPage(s1, 1, source);
    CarouselWalksPage(shown, 2, source);
    assert PressNext(shown, 3, source) == SelectNext(s2, source);
    CarouselCrossesPage(shown, source);
  }

  /**
   * A session on a first page [a, b, c]: opening a shows it at position 0 with
   * the carousel's "previous" arrow disabled; "next" shows b; two more presses
   * cross into page 2, show its first photo, and the URL names page 2.
   */
  lemma ThreePhotoSession(a: Photo, b: Photo, c: Photo, page2: seq<Photo>, source: PageSource)
    requires a.id != b.id && a.id != c.id && b.id != c.id
    requires source(1) == Answered(200, [a, b, c])
    requires source(2) == Answered(200, page2) && page2 != []
    ensures var shown := Step(Mount(1, source), ClickCard(a), source);
      && shown.currentIndex == 0 && DisableNavigatePrev(shown)
      && Step(shown, CarouselNext, source).currentPhoto == Some(b)
      && Step(shown, CarouselNext, source).currentIndex == 1
    ensures var crossed := Run(Mount(1, source), [ClickCard(a), CarouselNext, CarouselNext, CarouselNext], source);
      && crossed.currentPage == 2 && crossed.urlPage == 2
      && crossed.photos == page2 && crossed.currentPhoto == Some(page2[0]) && crossed.currentIndex == 0
  {
    OpenFirstCard(a, b, c, source);
    var shown := GalleryState([a, b, c], Some(a), 0, 1, 1);
    CarouselStepsWithinPage(shown, 0, source);
    var acts := [ClickCard(a), CarouselNext, CarouselNext, CarouselNext];
    assert acts[1..] == [CarouselNext, CarouselNext, CarouselNext];
    assert Run(Mount(1, source), acts, source) == Run(shown, acts[1..], source);
    ThreeNexts(shown, source);
    ThreeNextsCross(a, b, c, page2, source);
  }
}
