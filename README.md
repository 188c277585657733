# RComic catalog controller and comic decorator, in Dafny

This project models the sequential core of the RComic Android client. That core is two classes.

- `RComic` is the catalog controller. It holds the "all comics" list, the "newest comics" list, the host table and a single-slot search mailbox. It rebuilds those fields from three load callbacks and gates a completion listener on a count-down latch of three. It filters the catalog by keyword, looks comics up by id, and rewrites relative episode URLs against the host table.
- `ComicWrapper` is a read-time view of one raw `Comic`. Name, author and description are passed through a text repair function on every read. Every other getter passes the value through unchanged, and every setter writes to the wrapped comic.

Files:

- `wrappers.dfy` (module `Wrappers`): `Option` (a Java reference that may be null), `Result` (a call that returns or throws), and `Callback` (a Java `Runnable`/`Consumer` argument that is null or a particular callback).
- `strings.dfy` (module `JavaStrings`): `startsWith` and `contains` on strings, the two queries the source uses. It also defines `EndsWith`, which the source never calls; it only states that the url rewrite keeps the old url as a suffix.
- `comic_wrapper.dfy` (module `ComicWrapping`): the `Episode` and `Comic` records as classes with mutable fields, and the `ComicWrapper` class.
- `catalog.dfy` (module `Catalog`): the value-level logic. It covers the keyword filter, the first-match lookup by id, the URL rule, and what a sequence of load callbacks leaves in the catalog.
- `rcomic.dfy` (module `Controller`): the `RComic` object with its fields, the `SearchTask` object with its finished flag, and the `Countdown` latch.

Modelling choices:

- The text repair `UnicodeUtility.unicodeToChineseAll` is not part of this model. It is an uninterpreted `normalize: string -> string`, held by every wrapper and by the controller.
- A callback's calls are returned as out-parameters. `EpisodesName` returns the arrays handed to its consumer. `SearchStep` returns the `Delivery` a search consumer receives. `SearchAllByIdThen` returns the comics its consumer receives.
- The three asynchronous fetches of `preprogress` become a sequence of `LoadEvent`s, applied in order before the latch is awaited. Whether the waiting thread is interrupted is a parameter (`interrupted`).
- A search thread turn is one call of `SearchStep`.
- Whether a search runnable raises before reaching its consumer is a parameter (`filterRaises`).
- `Optional.get()` on a missing id throws `NoSuchElementException`. The model returns this as `Failure(NoSuchElement)` rather than forbidding the input.

Behaviour of the code that the model keeps as written:

- `preprogress` publishes a new empty list to the field first and then adds the wrappers to it in place (RComic.java:86-90, 100-104). `OnAllLoaded` and `OnNewestLoaded` also empty the field first and extend it one wrapper per step, and their loop invariant says that after `i` steps the field wraps the first `i` delivered comics. The field holds a sequence value, so the growing list object itself is not modelled (see below).
- No fetch has a failure callback. A fetch that never calls back leaves `await` blocked, which `Preprogress` reports as `Blocked`, unless the waiting thread is interrupted: the `InterruptedException` is caught and the listener runs anyway (RComic.java:120-128).
- A lookup miss throws `NoSuchElementException` from `Optional.get()` (RComic.java:239, 245, 249).
- The latch counts any three count-downs, whichever callback sends them (RComic.java:79, 91, 105, 116). If one callback fires twice, `await` returns before the third callback has come, so the listener can run with, for example, no host table loaded. `Preprogress` does the same: its outcome depends only on how many events arrived.

## Model

| member | source | states |
|---|---|---|
| `JavaStrings.ContainsIffOccurs` | app/src/main/java/app/ray/rcomic/control/RComic.java:227 | `contains`, as used by the keyword filter, holds exactly when the keyword occurs at some index of the name |
| `JavaStrings.ContainsSuffix` | app/src/main/java/app/ray/rcomic/control/RComic.java:139 | a host + url concatenation contains and ends with the url |
| `ComicWrapping.ComicWrapper.constructor` | app/src/main/java/app/ray/rcomic/control/ComicWrapper.java:17-21 | the wrapper keeps a reference to the given comic and nothing else from it |
| `ComicWrapping.ComicWrapper.Get` | app/src/main/java/app/ray/rcomic/control/ComicWrapper.java:122-124 | the wrapped comic object itself, the one reference the wrapper was built with; `DirectWriteIsVisible` and `DirectWritePassesThrough` prove that writes through it show in every getter |
| `ComicWrapping.ComicWrapper.Name` | app/src/main/java/app/ray/rcomic/control/ComicWrapper.java:92-95 | `normalize` of the wrapped comic's current name; `SetName` and `DirectWriteIsVisible` prove it reads the live field |
| `ComicWrapping.ComicWrapper.Author` | app/src/main/java/app/ray/rcomic/control/ComicWrapper.java:23-26 | `normalize` of the wrapped comic's current author; `SetAuthor` and `DirectWriteIsVisible` prove it reads the live field |
| `ComicWrapping.ComicWrapper.Id` | app/src/main/java/app/ray/rcomic/control/ComicWrapper.java:68-71 | the wrapped comic's current id, unchanged; `SetId` and `DirectWriteIsVisible` prove it reads the live field |
| `ComicWrapping.ComicWrapper.Episodes` | app/src/main/java/app/ray/rcomic/control/ComicWrapper.java:48-51 | the wrapped comic's current episode list, unchanged; `SetEpisodes` and `DirectWritePassesThrough` prove it reads the live field |
| `ComicWrapping.ComicWrapper.IconUrl` | app/src/main/java/app/ray/rcomic/control/ComicWrapper.java:58-61 | the wrapped comic's current icon url, unchanged; `SetIconUrl` and `DirectWritePassesThrough` prove it reads the live field |
| `ComicWrapping.ComicWrapper.SmallIconUrl` | app/src/main/java/app/ray/rcomic/control/ComicWrapper.java:112-115 | the wrapped comic's current small icon url, unchanged; `SetSmallIconUrl` and `DirectWritePassesThrough` prove it reads the live field |
| `ComicWrapping.ComicWrapper.LatestUpdateDateTime` | app/src/main/java/app/ray/rcomic/control/ComicWrapper.java:78-81 | the wrapped comic's current update time, unchanged; `SetLatestUpdateDateTime` and `DirectWritePassesThrough` prove it reads the live field |
| `ComicWrapping.ComicWrapper.NewestEpisode` | app/src/main/java/app/ray/rcomic/control/ComicWrapper.java:102-105 | the wrapped comic's current newest-episode label, unchanged; `SetNewestEpisode` and `DirectWritePassesThrough` prove it reads the live field |
| `ComicWrapping.ComicWrapper.Description` | app/src/main/java/app/ray/rcomic/control/ComicWrapper.java:33-41 | null exactly when the wrapped description is null; otherwise the normalised description |
| `ComicWrapping.ComicWrapper.NameWithNewestEpisode` | app/src/main/java/app/ray/rcomic/control/ComicWrapper.java:88-90 | the label is the normalised name, then `[`, the newest episode, and `]`, with the exact length; it starts with the name and ends with `]` |
| `ComicWrapping.ComicWrapper.EpisodesName` | app/src/main/java/app/ray/rcomic/control/ComicWrapper.java:126-132 | a non-null consumer gets one call per episode, in order, each with the one-element array of that episode's raw name; a null consumer gets none |
| `ComicWrapping.ComicWrapper.SetName` | app/src/main/java/app/ray/rcomic/control/ComicWrapper.java:97-100 | writes only the wrapped comic's name; `Name()` is then `normalize` of it |
| `ComicWrapping.ComicWrapper.SetAuthor` | app/src/main/java/app/ray/rcomic/control/ComicWrapper.java:28-31 | writes only the wrapped author; `Author()` is then `normalize` of it |
| `ComicWrapping.ComicWrapper.SetDescription` | app/src/main/java/app/ray/rcomic/control/ComicWrapper.java:43-46 | writes only the wrapped description; reading it back gives null or the normalised text |
| `ComicWrapping.ComicWrapper.SetId` | app/src/main/java/app/ray/rcomic/control/ComicWrapper.java:73-76 | writes only the wrapped id; `Id()` then returns it |
| `ComicWrapping.ComicWrapper.SetEpisodes` | app/src/main/java/app/ray/rcomic/control/ComicWrapper.java:53-56 | writes only the wrapped episode list; `Episodes()` then returns it |
| `ComicWrapping.ComicWrapper.SetIconUrl` | app/src/main/java/app/ray/rcomic/control/ComicWrapper.java:63-66 | writes only the wrapped icon url; `IconUrl()` then returns it |
| `ComicWrapping.ComicWrapper.SetSmallIconUrl` | app/src/main/java/app/ray/rcomic/control/ComicWrapper.java:117-120 | writes only the wrapped small icon url; `SmallIconUrl()` then returns it |
| `ComicWrapping.ComicWrapper.SetLatestUpdateDateTime` | app/src/main/java/app/ray/rcomic/control/ComicWrapper.java:83-86 | writes only the wrapped update time; `LatestUpdateDateTime()` then returns it |
| `ComicWrapping.ComicWrapper.SetNewestEpisode` | app/src/main/java/app/ray/rcomic/control/ComicWrapper.java:107-110 | writes only the wrapped newest-episode label; `NewestEpisode()` then returns it |
| `ComicWrapping.DirectWritePassesThrough` | app/src/main/java/app/ray/rcomic/control/ComicWrapper.java:48-124 | for any wrapper, writes made directly on the comic returned by `get()` to episodes, icon url, small icon url, update time and newest episode are what those getters report next; name and id are unchanged |
| `ComicWrapping.DirectWriteIsVisible` | app/src/main/java/app/ray/rcomic/control/ComicWrapper.java:17-124 | for any wrapper, writes made directly on the comic returned by `get()` are what `Name()`, `Author()`, `Description()`, `Id()` and the label report next |
| `Catalog.SearchResult` | app/src/main/java/app/ray/rcomic/control/RComic.java:225-227 | the filtered list is no longer than the catalog, and each of its comics is in the catalog and has a normalised name containing the keyword |
| `Catalog.SearchResultIsSubsequence` | app/src/main/java/app/ray/rcomic/control/RComic.java:227 | the result keeps catalog order: it is a subsequence of the catalog list |
| `Catalog.SearchResultMembership` | app/src/main/java/app/ray/rcomic/control/RComic.java:227 | a comic is in the result if and only if it is in the catalog and its normalised name contains the keyword |
| `Catalog.SearchResultCount` | app/src/main/java/app/ray/rcomic/control/RComic.java:227 | each comic occurs in the result exactly as often as in the list when its normalised name contains the keyword, and not at all otherwise |
| `Catalog.SearchEmptyKeyword` | app/src/main/java/app/ray/rcomic/control/RComic.java:227 | the empty keyword yields the whole catalog list |
| `Catalog.FirstIndexById` | app/src/main/java/app/ray/rcomic/control/RComic.java:245 | the index found holds the id and no earlier index does; it is the list length when no comic has the id |
| `Catalog.FindById` | app/src/main/java/app/ray/rcomic/control/RComic.java:238-250 | fails exactly when no comic has the id; otherwise returns the first comic with that id |
| `Catalog.FindByIdAt` | app/src/main/java/app/ray/rcomic/control/RComic.java:245 | given the first index holding the id, the lookup returns the comic at that index |
| `Catalog.ResolveUrl` | app/src/main/java/app/ray/rcomic/control/RComic.java:136-140 | an absolute url is kept; a relative one becomes its category's host followed by the url; the old url is always a suffix |
| `Catalog.ResolveUrlIdempotent` | app/src/main/java/app/ray/rcomic/control/RComic.java:138-139 | with an absolute host, the resolved url starts with "http", so resolving it again changes nothing |
| `Catalog.LastOf` | app/src/main/java/app/ray/rcomic/control/RComic.java:82-118 | the event chosen for a catalog piece comes from that piece's callback |
| `Catalog.LastOfSpec` | app/src/main/java/app/ray/rcomic/control/RComic.java:82-118 | there is no event for a piece exactly when no callback for it fired; otherwise it is one that fired with none after it |
| `Catalog.Remaining` | app/src/main/java/app/ray/rcomic/control/RComic.java:79 | a latch of n is at zero exactly after n or more count-downs, and never above n |
| `Catalog.EachCallbackOnce` | app/src/main/java/app/ray/rcomic/control/RComic.java:79-128 | when each of the three callbacks fires once, in any order, the catalog holds exactly what they delivered and the latch of three is at zero |
| `Catalog.LastOnlyOne` | app/src/main/java/app/ray/rcomic/control/RComic.java:82-118 | a callback that fired, and is the only event of its kind, is the one whose data remains |
| `Controller.Countdown.CountDown` | app/src/main/java/app/ray/rcomic/control/RComic.java:91 | decrements the count, and leaves a count of zero at zero |
| `Controller.SearchDelivery` | app/src/main/java/app/ray/rcomic/control/RComic.java:224-231 | a result is delivered exactly when the consumer is non-null and the filter did not raise; it goes to that consumer and is the keyword filter of the list |
| `Controller.SearchTask.constructor` | app/src/main/java/app/ray/rcomic/control/RComic.java:254-259 | a fresh task holds its keyword and consumer and is not finished |
| `Controller.SearchTask.Execute` | app/src/main/java/app/ray/rcomic/control/RComic.java:261-269 | the task ends finished whether or not its runnable raised, and delivers its search result over the list given |
| `Controller.RComic.constructor` | app/src/main/java/app/ray/rcomic/control/RComic.java:57-64 | both lists start empty, the host table null and the search slot empty |
| `Controller.RComic.OnAllLoaded` | app/src/main/java/app/ray/rcomic/control/RComic.java:85-92 | the all-comics list ends with the delivered length and its i-th element wrapping the i-th delivered comic |
| `Controller.RComic.OnNewestLoaded` | app/src/main/java/app/ray/rcomic/control/RComic.java:99-106 | the newest-comics list ends with the delivered length and its i-th element wrapping the i-th delivered comic |
| `Controller.RComic.OnHostListLoaded` | app/src/main/java/app/ray/rcomic/control/RComic.java:114-117 | the host table becomes exactly the delivered map |
| `Controller.RComic.Deliver` | app/src/main/java/app/ray/rcomic/control/RComic.java:82-118 | one callback rebuilds only its own piece of the catalog and counts the latch down once |
| `Controller.RComic.Preprogress` | app/src/main/java/app/ray/rcomic/control/RComic.java:78-129 | completes once three callbacks have counted the latch to zero, or when the wait is interrupted, running the listener only when it is non-null; otherwise stays blocked; each piece holds its last delivered value, or its old one |
| `Controller.RComic.Search` | app/src/main/java/app/ray/rcomic/control/RComic.java:222-236 | the slot holds a fresh unfinished task with the keyword and consumer; the previously stored task is no longer in the slot |
| `Controller.RComic.SearchStep` | app/src/main/java/app/ray/rcomic/control/RComic.java:196-208 | runs only when the slot holds an unfinished task; that task then ends finished and delivers its result over the current list; otherwise nothing is delivered |
| `Controller.RComic.SearchAllById` | app/src/main/java/app/ray/rcomic/control/RComic.java:244-246 | the first comic of the all-comics list with the id, or the lookup failure |
| `Controller.RComic.SearchAllByIdThen` | app/src/main/java/app/ray/rcomic/control/RComic.java:238-242 | the consumer gets exactly one call with the first matching comic; with no match the call raises and the consumer gets none |
| `Controller.RComic.SearchNewById` | app/src/main/java/app/ray/rcomic/control/RComic.java:248-250 | the first comic of the newest-comics list with the id, or the lookup failure |
| `Controller.RComic.LoadEpisodesImagesPagesUrl` | app/src/main/java/app/ray/rcomic/control/RComic.java:135-140 | the episode's url becomes its resolved url and ends with the old url; no other episode field changes |
| `Controller.LatestSearchWins` | app/src/main/java/app/ray/rcomic/control/RComic.java:196-236 | of two searches made before a loop turn, only the second runs; only its consumer gets a result, which is its keyword filter of the list; it runs only once |

## Left out

- Threads and blocking are not modelled. This covers the search thread, its 500 ms timed wait and `notifyAll`, the busy inner `for (;;)`, and the blocking `CountDownLatch.await`. It also covers the thread-safety of `CopyOnWriteArrayList`. The model works in sequential steps, so overwriting the slot while a task is executing cannot be expressed.
- The singleton `get()` with double-checked locking is not modelled, because it only concerns concurrency. The model constructs `RComic` directly.
- `ThreadPool`, `addTask`, `getR8Comic` and `getComicDetailUrl` are not modelled. They are worker plumbing or calls into the catalog library, which is not part of this model.
- `requestGetHttp` is not modelled, because it is HTTP I/O.
- The R8Comic library calls `getAll`, `getNewest`, `loadSiteUrlList`, `loadEpisodeDetail` and `setUpPages` are not part of this model. What they deliver is an input (`LoadEvent`), and the detail fetch after the url rewrite is dropped.
- `getComics`, `getAllComics`, `getNewComics` and `getHostList` only return a field. The model reads the field directly.
- `UnicodeUtility.unicodeToChineseAll` is not part of this model. It is the uninterpreted `normalize`.
- `Controller.RComic.LoadEpisodesImagesPagesUrl`: requires the host table to be loaded, and requires a relative url's `catid` to be in it. Otherwise Java throws a null dereference, or prepends the text "null" to the url.
- Null values for text fields other than `description` are not modelled, and neither is a null episode list (dereferenced by `getEpisodesName`), a null `keyword`, or a null delivered list (which throws at RComic.java:88 and 102). A runnable failure is only the `filterRaises` flag.
- A consumer or listener that raises is not modelled: the model always makes every call. In Java, the `forEach` of `getEpisodesName` stops at the call that raises (ComicWrapper.java:127-131), and the exceptions raised by the listener run at RComic.java:127 and by the id consumer at RComic.java:241 propagate to the caller.
- `Controller.RComic.OnHostListLoaded`: the host map is held as a `map` value. Java keeps the delivered map by reference (RComic.java:115) and hands it out through `getHostList` (RComic.java:74-76), so aliasing of that map is not captured.
- `ComicWrapping.ComicWrapper.Episodes`: the episode list is a value, so aliasing of the Java `List` object is not captured. Aliasing of the `Episode` objects in it is captured.
- `Controller.RComic.OnAllLoaded`, `Controller.RComic.OnNewestLoaded`: the published lists are sequence values, so the identity and aliasing of the Java list objects are not captured. In Java, a holder of the object published at RComic.java:86 or 100, such as the list adapter (ComicListActivity.java:48, 117), sees it grow while it is filled. In the model, a value read earlier never changes.
- Dafny's `string` is a sequence of Unicode scalar values, while a Java `String` is a sequence of UTF-16 code units. Lone surrogates and lengths counted in code units are therefore not captured. `contains` and `startsWith` agree on well-formed text.
- `ComicWrapper` extends `Comic` and inherits its unused fields. The model uses composition only.
