# Photo gallery navigation engine, in Dafny

This project models the logic of a browser photo gallery. The gallery shows one page of photos at a time in a grid. A preview shows the selected photo with "previous" and "next" arrows (the carousel), and these arrows step across page boundaries. Buttons below the grid turn pages. Two parts of the system are modelled:

- **The navigation engine**, the `usePhotoGallery` hook. Its state is the photo list of the current page, the current photo, its index and the page counter. Its operations are:
  - identity lookup (`getIndexOfPhoto`);
  - selection (`selectPhoto`);
  - carousel steps (`selectPrevPhoto`, `selectNextPhoto`), which hand off to page loading through `maybeUpdatePagination` when they run off the list;
  - page loads (`getPhotos`, `getNextPage`, `getPrevPage`);
  - four derived flags that disable the arrows and buttons, all compared against `MAX_PAGES = 4`.
- **The backend route** `GET /api/photos?page=N`. It picks a fixture page (1-based to 0-based) and reshapes the provider's records. Any page that is not a fixture page gets status 400 with an empty list.

Files:

- `Wrappers.dfy` holds `Option`, which stands for JavaScript's `undefined`.
- `Photos.dfy` holds the `Photo` and `User` records.
- `PhotosRoute.dfy` holds the route: `Describe`, `RemapUnsplashPhotos` and `Handler`. These are pure functions. The fixture database is a parameter `db`, and the deployed route has four pages.
- `PhotoGallery.dfy` is the engine as a specification on values:
  - a `GalleryState` datatype;
  - one function per operation, each treated as atomic over the state it is called in;
  - the flags;
  - the actions the view offers (`Enabled`);
  - the lemmas.
- `UsePhotoGallery.dfy` is the hook as a class `Gallery`. Its fields are the hook's state cells. Each method calls the setters in the hook's order and is proved to end in the state that the matching `PhotoGallery` function gives.
- `Backend.dfy` plugs the route in as the engine's page source. It proves the end-to-end consistency result for that source. It also proves that against the route the URL always names the page counter and the list is the route's page for it.

The HTTP request is an abstract, deterministic page source `int -> Response`. A response is either `Answered(status, body)` or `Threw`. `ApiGet` turns it into what `photosApi.get` returns:

- the body for status 200;
- nothing (`undefined`) for any other status;
- `[]` when the request throws.

An empty list counts as a result, so it replaces the photos, because `[]` is truthy in JavaScript. The page written to the browser URL is the field `urlPage`. It is a ghost field in the class.

The central result is `StepKeepsInvariant` / `RunKeepsInvariant`. It assumes the backend never repeats an id within a page. Under that assumption, every action the view offers keeps the engine consistent:

- the page counter stays within 1..4;
- the page's ids stay distinct;
- whenever a photo is selected, `currentIndex` is that photo's position.

The assumption matters because the derived flags are the only guard against loading page 0 or page 5. The engine itself does not clamp. `DuplicateIdsEscapeFirstPage` shows the failure: when page 1 repeats an id, turning back from page 2 and then pressing the enabled "previous" arrow loads page 0.

Facts about the code that the model keeps:

- `photosApi.get` gives the body for a 200 answer. For an answer that axios resolves with another status (any other 2xx status) it gives `undefined`, so `photos` stays unchanged. With axios's defaults any status outside 2xx rejects; the rejection is caught and yields `[]`. In the model, `Answered(s, body)` with `s != 200` stands for such a resolved non-200 answer, and `Threw` for a rejected request.
- `getNextPage` and `getPrevPage` do not clamp. Any page number goes to the backend. Once a session starts on a page in 1..4 (the premise of `MountEstablishesInvariant`), only the disabled arrows and buttons keep the counter within 1..4. The page read from the URL is not checked, and the flags compare only with pages 1 and 4. So a URL page outside 1..4 is never corrected, and the page buttons move it further away (`OutOfRangeMountDrifts`).
- `selectNextPhoto` on the last photo of a page always calls `getNextPage`, on page 4 too. Only the disabled arrow prevents that on page 4.
- `getNextPage` and `getPrevPage` move the page counter before the fetch, whatever the fetch brings. The selection, the index and the URL move only when a list arrives.

## Model

| member | source | states |
|---|---|---|
| `PhotoGallery.ApiGet` | features/PhotoGallery/PhotoGallery.tsx:28-45 | A missing result occurs exactly for a non-200 answer. A 200 answer yields its body, and a thrown request yields the empty list. |
| `PhotoGallery.At` | features/PhotoGallery/PhotoGallery.tsx:161 | `photos[i]` is a photo exactly for an index inside the list, and then it is the photo at that index. Outside the list it is `undefined`. |
| `PhotoGallery.IndexOfId` | features/PhotoGallery/PhotoGallery.tsx:142-143 | The result is -1 exactly when no photo has the id. Otherwise it is an in-range position holding the id, and no earlier position holds it. |
| `PhotoGallery.FindById` | features/PhotoGallery/PhotoGallery.tsx:142 | `photos.find` on the id: the photo at the first position `IndexOfId` gives, or `undefined`. No contract of its own; `IndexOfPhoto` and `SelectPhotoEffect` state what its callers obtain. |
| `PhotoGallery.IndexOfPhoto` | features/PhotoGallery/PhotoGallery.tsx:140-145 | The result is -1 exactly for an absent photo or an id that is not listed. Otherwise it is the first position holding the photo's id, within `0..|photos|-1`. |
| `PhotoGallery.Initial` | features/PhotoGallery/PhotoGallery.tsx:51-55 | The cells as first declared, with the page and the URL already at the mounted page. Definition only; `MountEstablishesInvariant` states the mounted state. |
| `PhotoGallery.Load` | features/PhotoGallery/PhotoGallery.tsx:78 | A returned list, empty or not, replaces `photos`; `undefined` changes nothing. Definition only; `Gallery.GetPhotos` and `PageTurnEffect` state it. |
| `PhotoGallery.Mount` | features/PhotoGallery/PhotoGallery.tsx:60-67 | The mount effect: the page read from the URL, then a load of that page. Definition only; `MountEstablishesInvariant` states the result. |
| `PhotoGallery.NextPage` | features/PhotoGallery/PhotoGallery.tsx:88-103 | `getNextPage` as one transition. Definition only; `PageTurnEffect` and `NextPageKeepsInvariant` state its effect. |
| `PhotoGallery.PrevPage` | features/PhotoGallery/PhotoGallery.tsx:105-120 | `getPrevPage` as one transition. Definition only; `PageTurnEffect` and `PrevPageKeepsInvariant` state its effect. |
| `PhotoGallery.Select` | features/PhotoGallery/PhotoGallery.tsx:147-155 | `selectPhoto` as one transition, with the double lookup of the source. Definition only; `SelectPhotoEffect` states its effect. |
| `PhotoGallery.UpdatePagination` | features/PhotoGallery/PhotoGallery.tsx:129-138 | `maybeUpdatePagination`: index -1 loads the previous page, an index at or past the end loads the next one. The source's two tests never both hold, so the `else if` takes the same branches. Definition only; `SelectPrevEffect` and `SelectNextEffect` state its effect. |
| `PhotoGallery.SelectPrev` | features/PhotoGallery/PhotoGallery.tsx:157-168 | `selectPrevPhoto` as one transition. Definition only; `SelectPrevEffect` states its effect. |
| `PhotoGallery.SelectNext` | features/PhotoGallery/PhotoGallery.tsx:170-181 | `selectNextPhoto` as one transition. Definition only; `SelectNextEffect` states its effect. |
| `PhotoGallery.DisableNavigatePrev` | features/PhotoGallery/PhotoGallery.tsx:183-191 | `isFirstPage && isFirstPhoto`, the source's expression unchanged. Its meaning is proved in `FlagsMeaning`, and `StepKeepsInvariant` relies on it. |
| `PhotoGallery.DisableNavigateNext` | features/PhotoGallery/PhotoGallery.tsx:185-194 | `isLastPage && isLastPhoto`, the source's expression unchanged. Its meaning is proved in `FlagsMeaning`, and `StepKeepsInvariant` relies on it. |
| `PhotoGallery.DisablePrevPage` | features/PhotoGallery/PhotoGallery.tsx:183-192 | `isFirstPage`, the source's expression unchanged. Its meaning is proved in `FlagsMeaning`, and `StepKeepsInvariant` relies on it. |
| `PhotoGallery.DisableNextPage` | features/PhotoGallery/PhotoGallery.tsx:185-195 | `isLastPage`, the source's expression unchanged. Its meaning is proved in `FlagsMeaning`, and `StepKeepsInvariant` relies on it. |
| `PhotoGallery.Enabled` | features/PhotoGallery/PhotoGallery.tsx:273-302 | What the view offers: a card for every listed photo, the carousel arrows only while a photo is current and its arrow flag is off, and each page button while its flag is off. Definition only; `StepKeepsInvariant` and `RunKeepsInvariant` take it as their premise. |
| `PhotoGallery.Step` | features/PhotoGallery/PhotoGallery.tsx:276-297 | The click wiring: a card calls `selectPhoto` with its photo, the page buttons call `getPrevPage`/`getNextPage`, the arrows call `selectPrevPhoto`/`selectNextPhoto`. Definition only; the effect lemmas state each case. |
| `PhotoGallery.SelectPhotoEffect` | features/PhotoGallery/PhotoGallery.tsx:147-155 | `selectPhoto(p)` always makes `p` current. It sets the index to the id's first position when the id is listed and leaves it unchanged otherwise. Nothing else changes. A second identical call changes nothing. |
| `PhotoGallery.PageTurnEffect` | features/PhotoGallery/PhotoGallery.tsx:88-120 | The page counter moves by exactly +1 or -1 whatever the fetch brings. A fetched list replaces the photos, puts the selection on its first or last photo (none if empty) and moves the URL. Without a list, the photos, selection and URL stay. |
| `PhotoGallery.SelectPrevEffect` | features/PhotoGallery/PhotoGallery.tsx:157-168 | The step is a no-op when the current photo is not listed. From position i >= 1 it selects photo i-1 and does not touch the page. From position 0 it clears the selection to index -1 and loads the previous page. |
| `PhotoGallery.SelectNextEffect` | features/PhotoGallery/PhotoGallery.tsx:170-181 | Inside the page the step selects photo i+1 and does not touch the page. From the last position it loads the next page. A current photo that is not listed counts as position -1, so the step lands on position 0. |
| `PhotoGallery.FlagsMeaning` | features/PhotoGallery/PhotoGallery.tsx:183-195 | In a consistent state with a current photo, each carousel arrow is disabled exactly when its step would end on a page before page 1 or after page 4, and exactly when the current photo is the first photo of page 1 or the last of page 4. Each page button is disabled exactly when its page turn would leave 1..4. |
| `PhotoGallery.NextPageKeepsInvariant` | features/PhotoGallery/PhotoGallery.tsx:88-103 | Loading the next page from a page below 4 leaves a consistent state. |
| `PhotoGallery.PrevPageKeepsInvariant` | features/PhotoGallery/PhotoGallery.tsx:105-120 | Loading the previous page from a page above 1 leaves a consistent state. |
| `PhotoGallery.SelectKeepsInvariant` | features/PhotoGallery/PhotoGallery.tsx:147-155 | Clicking a listed card leaves a consistent state. |
| `PhotoGallery.SelectPrevKeepsInvariant` | features/PhotoGallery/PhotoGallery.tsx:157-168 | The carousel's "previous" arrow, when not disabled, leaves a consistent state, including when it loads the previous page. |
| `PhotoGallery.SelectNextKeepsInvariant` | features/PhotoGallery/PhotoGallery.tsx:170-181 | The carousel's "next" arrow, when not disabled, leaves a consistent state, including when it loads the next page. |
| `PhotoGallery.StepKeepsInvariant` | features/PhotoGallery/PhotoGallery.tsx:273-302 | Every action the view offers (a grid card, an enabled arrow, an enabled page button) keeps the page in 1..4, the ids distinct and the index on the current photo. |
| `PhotoGallery.RunKeepsInvariant` | features/PhotoGallery/PhotoGallery.tsx:284-299 | Any sequence of offered actions keeps that consistency. |
| `PhotoGallery.MountEstablishesInvariant` | features/PhotoGallery/PhotoGallery.tsx:60-67 | Mounting on a URL page in 1..4 starts consistent, with no current photo. |
| `PhotoGallery.SessionStaysInRange` | features/PhotoGallery/PhotoGallery.tsx:20 | From such a mount, the page counter never leaves 1..`MAX_PAGES`, whatever the user does through the view. |
| `PhotoGallery.OutOfRangeMountDrifts` | features/PhotoGallery/PhotoGallery.tsx:183-195 | Mounted on page 5, the "next page" button is still enabled and leads to page 6. Mounted on page 0, "previous page" is still enabled and leads to page -1. |
| `PhotoGallery.DuplicateIdsEscapeFirstPage` | features/PhotoGallery/PhotoGallery.tsx:140-145 | If page 1 lists two photos with one id, then from a consistent state on page 2, "previous page" selects the second photo at index 1. The lookup finds index 0, the "previous" arrow stays enabled, and pressing it loads page 0. |
| `PhotoGallery.CarouselStepsWithinPage` | features/PhotoGallery/PhotoGallery.tsx:172-177 | One "next" from position i inside a page selects photo i+1 at index i+1. |
| `PhotoGallery.CarouselStepsOffPage` | features/PhotoGallery/PhotoGallery.tsx:135-137 | "Next" on the last photo is a next-page load from a cleared selection at index `|photos|`. |
| `PhotoGallery.CarouselWalksPage` | features/PhotoGallery/PhotoGallery.tsx:170-181 | From the first photo, k presses of "next" (k < length) select photo k and load nothing. |
| `PhotoGallery.CarouselRunsOffPage` | features/PhotoGallery/PhotoGallery.tsx:129-138 | On a page of length L, the L-th press of "next" from the first photo is exactly a next-page load. |
| `PhotoGallery.CarouselCrossesPage` | features/PhotoGallery/PhotoGallery.tsx:88-103 | After that press the page is p+1. A fetched list is shown from its first photo and the URL names p+1. Without a list, the old photos stay and nothing is selected. |
| `PhotoGallery.OpenFirstCard` | features/PhotoGallery/PhotoGallery.tsx:60-67 | Mounting on page 1 of [a, b, c] and clicking a gives exactly the state with a selected at index 0 on page 1. |
| `PhotoGallery.ThreeNextsCross` | features/PhotoGallery/PhotoGallery.tsx:170-181 | From a at index 0 of page 1 = [a, b, c], three presses of "next" give exactly page 2's list with its first photo selected at index 0 and the URL on page 2. |
| `PhotoGallery.ThreePhotoSession` | features/PhotoGallery/PhotoGallery.tsx:147-181 | On a first page [a, b, c], opening a gives index 0 with "previous" disabled. "Next" shows b. Two more presses show page 2's first photo, and the URL names page 2. |
| `UsePhotoGallery.Gallery.constructor` | features/PhotoGallery/PhotoGallery.tsx:51-67 | The cells start empty on page 1. The mount effect then sets the URL's page and loads it: the state is `Mount`. |
| `UsePhotoGallery.Gallery.GetPhotos` | features/PhotoGallery/PhotoGallery.tsx:72-86 | The method returns what `photosApi.get` gives. A returned list, `[]` included, replaces `photos`, and nothing else changes. |
| `UsePhotoGallery.Gallery.GetNextPage` | features/PhotoGallery/PhotoGallery.tsx:88-103 | The new state is `NextPage` of the old one. |
| `UsePhotoGallery.Gallery.GetPrevPage` | features/PhotoGallery/PhotoGallery.tsx:105-120 | The new state is `PrevPage` of the old one. |
| `UsePhotoGallery.Gallery.MaybeUpdatePagination` | features/PhotoGallery/PhotoGallery.tsx:129-138 | Index -1 loads the previous page, an index at or past the end loads the next one, and any other index changes nothing. The two tests are made one after the other against the length the caller saw, as in the source. |
| `UsePhotoGallery.Gallery.SelectPhoto` | features/PhotoGallery/PhotoGallery.tsx:147-155 | The new state is `Select` of the old one. |
| `UsePhotoGallery.Gallery.SelectPrevPhoto` | features/PhotoGallery/PhotoGallery.tsx:157-168 | The new state is `SelectPrev` of the old one. |
| `UsePhotoGallery.Gallery.SelectNextPhoto` | features/PhotoGallery/PhotoGallery.tsx:170-181 | The new state is `SelectNext` of the old one. |
| `PhotosRoute.Describe` | pages/api/photos.ts:18-19 | The description is never empty. It is the record's description when that is non-empty, else its alt description when that is non-empty, else "Photo by " followed by the username. |
| `PhotosRoute.Remap` | pages/api/photos.ts:12-28 | The reshaping of one record. Definition only; `RemapUnsplashPhotos` states it field by field. |
| `PhotosRoute.RemapUnsplashPhotos` | pages/api/photos.ts:11-29 | Length and order are kept. Each output keeps the input's id and color, takes that description, the regular and thumb URLs, and the user's id, username, name and medium avatar. |
| `PhotosRoute.PageIndex` | pages/api/photos.ts:40 | An absent page gives index 0 and page p gives p-1. Definition only; `Handler` and `AbsentPageIsFirstPage` state what the route serves. |
| `PhotosRoute.Handler` | pages/api/photos.ts:32-53 | The status is 200 exactly when the page index (absent page gives 0, page p gives p-1) names a fixture page. The body is then that page remapped. Otherwise the status is 400 with an empty list. |
| `PhotosRoute.ServesEveryFixturePage` | pages/api/photos.ts:9 | With four fixture pages, pages 1..4 are served as the remapped fixture pages 0..3 with status 200. Every other page gets 400 and `[]`. |
| `PhotosRoute.AbsentPageIsFirstPage` | pages/api/photos.ts:40 | A request without `page` is answered exactly as one for page 1. |
| `PhotosRoute.RemapKeepsIdsDistinct` | pages/api/photos.ts:11-16 | Remapping a page whose records have distinct ids yields photos with distinct ids. |
| `Backend.RouteFetch` | pages/api/photos.ts:47-52 | Against the route, the engine receives the remapped fixture page for pages 1..4 and an empty list for any other page. |
| `Backend.RouteIsWellFormed` | pages/api/photos.ts:11-29 | Fixture pages with distinct ids make the route a page source with distinct ids, which is the premise of the consistency result. |
| `Backend.GalleryOverRouteStaysConsistent` | features/PhotoGallery/PhotoGallery.tsx:28-45 | A session against the route, mounted on a page in 1..4 and driven only through offered actions, stays consistent. |
| `Backend.RouteAnswer` | features/PhotoGallery/PhotoGallery.tsx:33-43 | The route's 200 answer reaches the engine as that answer. Its 400 answer is rejected by axios's default status check and reaches the engine as a thrown request. Definition only; `RouteFetch` states what the engine receives. |
| `Backend.RouteAlwaysAnswers` | pages/api/photos.ts:47-51 | Against the route every fetch brings a list: the body the route sends, which is `[]` for a 400. |
| `Backend.PageTurnsShowRoutePage` | features/PhotoGallery/PhotoGallery.tsx:88-120 | Against the route, after either page turn the URL names the new counter and the list is the route's page for it. |
| `Backend.MountShowsRoutePage` | features/PhotoGallery/PhotoGallery.tsx:60-67 | Against the route, the mounted state's URL, counter and list agree on the URL's page. |
| `Backend.SelectPrevShowsRoutePage` | features/PhotoGallery/PhotoGallery.tsx:157-168 | Against the route, the "previous" arrow keeps the URL on the counter and the list on the route's page for it. |
| `Backend.SelectNextShowsRoutePage` | features/PhotoGallery/PhotoGallery.tsx:170-181 | Against the route, the "next" arrow keeps the URL on the counter and the list on the route's page for it. |
| `Backend.StepShowsRoutePage` | features/PhotoGallery/PhotoGallery.tsx:276-297 | Against the route, every action, offered or not, keeps the URL and the list in step with the page counter. |
| `Backend.RunShowsRoutePage` | features/PhotoGallery/PhotoGallery.tsx:273-302 | Any sequence of actions against the route keeps the URL and the list in step with the page counter. |

## Left out

- `loading` is not modelled. It is only ever set to true, and nothing reads it.
- The raw setters `setCurrentPhoto` and `setCurrentPage` that the hook also returns are not modelled. The view does not call them.
- The HTTP call is not modelled. It is replaced by the abstract page source. The link from the route to the page source in `Backend` takes axios's default status check: the route's 400 answer rejects, and `photosApi.get` turns the rejection into `[]`.
- `getPhotos`'s own `catch` is not modelled. `photosApi.get` never throws, so that branch cannot run.
- The default page arguments (`page = 1`) are not modelled. Every call site passes a page.
- Reading the page from the URL (features/PhotoGallery/utils/pageUrl.ts) is not modelled. That file does string parsing with `Number()`, which can give `NaN` or a fraction. The mounted page is an `int` parameter, and the URL write is the ghost field `urlPage`.
- The route's query parameter is an `Option<int>`. A repeated or non-numeric `page` string is not modelled. An empty string counts as absent. The fixture contents are a parameter.
- Asynchrony is not modelled. React's batched setters, stale closures and overlapping fetches are left out. Each operation is atomic over the state at call time, so the transient state between a setter call and the fetch's completion is not observable.
- Response ordering is not modelled. The code has no request sequence number and applies a late answer like any other, but with atomic operations the model cannot show a late answer.
- Rendering, the dialog and focus return, the presentational components and `console.log` are not modelled.
