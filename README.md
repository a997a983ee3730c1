# SeatGeek repository model

A Dafny model of the `Repository` class of the SeatGeek event browser
(`SeatGeek/Controller/Repository.swift`). It is the single in-memory owner of the
session's state:

- the event list from the last successful fetch;
- an image cache keyed by event identifier;
- a search table that maps each event identifier to a lower-cased concatenation
  of the event's searchable fields;
- the persistent "like" store, one Core Data record per event identifier.

The model has six modules, one per file:

- `Events` (`events.dfy`): the decoded records `Event`, `Venue` and `Performer`,
  and the error kinds `NoDataAvailable` / `CantProcessData` (as in `Events.swift`
  and `RequestError.swift`).
- `Text` (`text.dfy`): the two library string operations the repository uses,
  `lowercased()` and `contains`.
- `Search` (`search.dfy`): the search string of an event, the table that
  `setupSearchStrings` builds, and the query that `getFilteredEvents` answers,
  written as functions with the lemmas that characterise them.
- `Likes` (`likes.dfy`): the like store as a list of its records, with lookup
  (`fetch(...).first`), toggling and reconciliation. The list order stands in
  for the unspecified order in which Core Data returns matching records; it
  decides nothing on a store without duplicate records, which `Valid()` keeps.
- `Images` (`images.dfy`): the image requests issued per event and the count
  test used for the completion notice.
- `Controller` (`controller.dfy`): the `Repository` class. Its fields are
  `events`, `imageCache`, `searchStrings`, `likes` and `signals`. `signals` counts
  how many times `loadAllEvents` was scheduled on the delegate. Each method is
  proved against the functions of the modules above.

The asynchronous callbacks are method calls made by the environment.
`LoadEventData(result)` is the completion of the events fetch, given its `Result`.
It returns the image requests it issues. `ImageLoaded(request, result)` is the
completion of one of those requests. The calls may come in any order, and a
request from an earlier load may still complete after a later load. A ghost log
`issued` records every request issued. `Valid()` states the class invariant:

- the search table covers the events;
- the like store has exactly one record per identifier, and one for every event;
- every cached image answers an issued request for an event's first performer.

Two client methods replay two image scenarios for a list of two events:

- `BothImagesArrive`: both fetches succeed, in either order, and the notice is
  sent exactly once;
- `OneImageFails`: one fetch fails, and the notice is never sent.

Two behaviours of the code are worth stating:

- The code never clears the image cache or the search table. A reload
  overwrites the entries of the new events and keeps all others
  (`IndexedKeepsOthers`; `LoadEventData` leaves `imageCache` alone).
- The query is passed to the library's `contains`, whose result on an empty
  argument depends on the library version. No property of the empty query is
  stated.

## Model

| member | source | states |
|---|---|---|
| `Text.Lower` | SeatGeek/Controller/Repository.swift:122 | `lowercased()` keeps the length, leaves no capital letter, and leaves lower-case text unchanged |
| `Text.LowerIdempotent` | SeatGeek/Controller/Repository.swift:131 | lower-casing twice is the same as lower-casing once |
| `Text.Contains` | SeatGeek/Controller/Repository.swift:131 | `s.contains(q)` holds exactly when `q` occurs at some position of `s` |
| `Search.SearchString` | SeatGeek/Controller/Repository.swift:113-122 | an event's search string is lower-case |
| `Search.SearchStringHasFields` | SeatGeek/Controller/Repository.swift:114-122 | each of type, title, city, state, venue name, date and time, lower-cased, occurs in the event's search string |
| `Search.Indexed` | SeatGeek/Controller/Repository.swift:111-125 | after the table is built, its keys are the old keys plus the identifiers of the events, so every event has an entry |
| `Search.IndexedAt` | SeatGeek/Controller/Repository.swift:112-124 | an event whose identifier does not recur later in the list maps to its own search string |
| `Search.IndexedDistinct` | SeatGeek/Controller/Repository.swift:112-124 | with distinct identifiers, every event maps to its own lower-cased field concatenation |
| `Search.IndexedKeepsOthers` | SeatGeek/Controller/Repository.swift:123 | entries for identifiers outside the event list keep their old value (`updateValue` only, never cleared) |
| `Search.Filtered` | SeatGeek/Controller/Repository.swift:128-136 | the filtered list is never longer than the event list |
| `Search.FilteredMembers` | SeatGeek/Controller/Repository.swift:130-133 | an event is returned exactly when it is in the list and its search string contains the query |
| `Search.FilteredCount` | SeatGeek/Controller/Repository.swift:130-133 | a matching event is returned as often as it occurs in the list; a non-matching one never |
| `Search.FilteredInOrder` | SeatGeek/Controller/Repository.swift:129-135 | the result is a subsequence of the event list, in list order |
| `Search.FilteredAll` | SeatGeek/Controller/Repository.swift:128-136 | when every event matches, the whole list is returned unchanged |
| `Search.FilterIgnoresQueryCase` | SeatGeek/Controller/Repository.swift:131 | queries that lower-case alike give the same result, and a query gives the same result as its lower-cased form |
| `Likes.Find` | SeatGeek/Controller/Repository.swift:140-144 | the fetch with predicate "id == …" and `.first` yields the first record with that identifier, or none exactly when no record has it |
| `Likes.LikedIn` | SeatGeek/Controller/Repository.swift:151-161 | `isLiked` is true only if a record exists; with unique records, true exactly when the record (id, liked) is in the store |
| `Likes.Toggled` | SeatGeek/Controller/Repository.swift:139-148 | toggling keeps every record's identifier and every record of other events, and without a record for the event is a no-op |
| `Likes.ToggleFlips` | SeatGeek/Controller/Repository.swift:139-161 | after a toggle, `isLiked` is flipped for that event if it has a record, is false if it has none, and is unchanged for every other event |
| `Likes.ToggleTwice` | SeatGeek/Controller/Repository.swift:139-148 | toggling twice restores the store, so `isLiked` is restored |
| `Likes.ToggleKeepsRecords` | SeatGeek/Controller/Repository.swift:139-148 | toggling keeps records unique and keeps the set of identifiers that have a record |
| `Likes.Reconciled` | SeatGeek/Controller/Repository.swift:89-104 | reconciliation keeps the old store as a prefix (flags untouched, nothing pruned), appends only unliked records for event identifiers, and leaves every event with a record |
| `Likes.ReconcileKeepsUnique` | SeatGeek/Controller/Repository.swift:98-103 | reconciliation never creates a duplicate record |
| `Likes.ReconcileKeepsLiked` | SeatGeek/Controller/Repository.swift:98-103 | reconciliation never changes the answer of `isLiked` for any identifier |
| `Likes.ReconcileCovered` | SeatGeek/Controller/Repository.swift:98-99 | a store that already has a record for every event is left unchanged |
| `Likes.ReconcileIdempotent` | SeatGeek/Controller/Repository.swift:88-104 | reconciling twice against the same events gives the same store as reconciling once |
| `Images.ImageRequests` | SeatGeek/Controller/Repository.swift:58-73 | every request is for an event of the list, from its first performer's image URL, and there are at most as many requests as events |
| `Images.ImageRequestFor` | SeatGeek/Controller/Repository.swift:59-61 | an event gets a request exactly when it is in the list and has a first performer |
| `Images.CountTest` | SeatGeek/Controller/Repository.swift:77-78 | when the cache holds only current identifiers, cache size equals event count exactly when every event is cached and identifiers are distinct |
| `Events.IdsCardinality` | SeatGeek/Controller/Repository.swift:78 | a list has at most as many distinct identifiers as events, with equality exactly when no identifier repeats |
| `Controller.LoadKeepsConsistent` | SeatGeek/Controller/Repository.swift:48-52 | a successful load keeps the repository invariant |
| `Controller.Repository.constructor` | SeatGeek/Controller/Repository.swift:18-37 | a new repository has no events, images, search entries or notices, over the like records already stored |
| `Controller.Repository.LoadEventData` | SeatGeek/Controller/Repository.swift:42-55 | a failed fetch changes nothing; a successful one sets the events to the fetched list, issues its image requests, reconciles likes and indexes the new events, leaving the image cache and notices alone |
| `Controller.Repository.LoadImages` | SeatGeek/Controller/Repository.swift:58-73 | the loop issues exactly the requests of `ImageRequests` |
| `Controller.Repository.ImageLoaded` | SeatGeek/Controller/Repository.swift:62-70 | a failed image fetch changes nothing; a successful one caches the image under the event's identifier and then runs the completion test; the cache only gains entries |
| `Controller.Repository.CheckComplete` | SeatGeek/Controller/Repository.swift:77-85 | one notice is scheduled exactly when the cache size equals the event count |
| `Controller.Repository.SetupLikes` | SeatGeek/Controller/Repository.swift:89-108 | the loop leaves the store equal to `Reconciled` of the old store and the events |
| `Controller.Repository.SetupSearchStrings` | SeatGeek/Controller/Repository.swift:111-125 | the loop leaves the table equal to `Indexed` of the old table and the events |
| `Controller.Repository.GetFilteredEvents` | SeatGeek/Controller/Repository.swift:128-136 | returns the events whose search string contains the lower-cased query, in list order, changing nothing; requires an entry for every event (the forced unwrap) |
| `Controller.Repository.ToggleLike` | SeatGeek/Controller/Repository.swift:139-148 | the store becomes `Toggled` of the old store, and the invariant is kept |
| `Controller.Repository.IsLiked` | SeatGeek/Controller/Repository.swift:151-161 | true exactly when the first record with the event's identifier exists and is liked |
| `Controller.Repository.GetEvents` | SeatGeek/Controller/Repository.swift:164-166 | returns the held event list, which `LoadEventData` sets to the latest successful fetch in fetch order |
| `Controller.Repository.GetImage` | SeatGeek/Controller/Repository.swift:170-172 | requires a cached image (the forced unwrap); it was fetched for an issued request of an event with that identifier |
| `Controller.BothImagesArrive` | SeatGeek/Controller/Repository.swift:58-85 | two events with distinct identifiers and images: after both fetches succeed, in either order, exactly one notice, and each event shows its own image |
| `Controller.OneImageFails` | SeatGeek/Controller/Repository.swift:58-85 | the same two events with one failed fetch: no notice is ever scheduled |

## Left out

- Network and decoding (`EventsRequest.swift`, `ImageRequest.swift`): the fetch outcomes are inputs, a `Result` of events or a `RequestError`, and one `Result` of an image per request.
- `ImageRequest(resourceUrl:)` at Repository.swift:61 does not match the initializer `init(url:)` that `ImageRequest.swift` declares; the model treats it as a request to the first performer's image URL.
- Date handling (`DateExtension.swift`): `dateString()` and `timeString()` of the parsed date are the functions of a `DateFormat` given to the repository. The crash of `Date.fromIso` on malformed text is not modelled.
- `lowercased()`: only ASCII capitals are mapped; Unicode case mapping is not modelled.
- `contains`: modelled as mathematical substring search, where the empty string occurs everywhere. Foundation's behaviour on an empty query is not modelled.
- Likes.Find: Core Data returns matching records in no defined order, since the fetch requests set no sort descriptors. The model takes store order. That only matters for a store with duplicate records, and `Valid()` excludes those.
- Core Data (`AppDelegate.swift`): the store is a list of records that never fails. `saveContext`, the `try!` crash in `setupLikes` and the failures that `try?` swallows are not modelled. A new record's `liked` flag is taken to be false, because the Core Data model file is not part of this model.
- `DispatchQueue.main.async` and the delegate: scheduling `loadAllEvents` is counted in `signals`; the table reload itself is view code.
- Threads and races: each completion is one atomic method call. Interleavings inside a method are not modelled.
- `weak self`, the singleton `instance`, `repoDelegate` and `appDelegate` wiring: no state of the core.
- View code (`DetailViewController.swift`, `TableCell.swift`, `TableViewController.swift`) and layout constants (`Constants.swift`).
- `Controller.Repository.constructor`: the init issues the events fetch. Here the constructor only creates the empty state, and the fetch's completion is a later `LoadEventData` call.
