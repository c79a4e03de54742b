# Offline layer of the Rajasthan Virtual Shiksha portal, in Dafny

This project models the offline layer of the Rajasthan Virtual Shiksha
education portal, a progressive web app, and proves properties of that
model. The layer has four parts.

- **The IndexedDB store and the sync queue** (`js/db.js`).
  - The database holds six named object stores. Each one maps a record's `id` to the record.
  - The operations are put, get, getAll, delete and clear. Every operation opens the database first.
  - The schema upgrade creates any of the six stores that is missing.
  - The sync queue holds deferred quiz, assignment and forum submissions.
  - `processSyncQueue` makes one oldest-first pass over the queue. It saves each item with one attempt more, calls that item's sender, and deletes the item once it succeeds or once its fifth attempt fails.
- **The service worker** (`service-worker.js`).
  - The fetch router picks one of three caching strategies: network-first, cache-on-demand or cache-first.
  - `trimCache` evicts entries to keep a cache under its size limit.
  - Network-first uses a 24-hour staleness test.
  - Install precaches the app shell. Activate deletes old caches.
- **The downloads page** (`js/downloads.js`).
  - It classifies files by extension and groups the stored downloads.
  - The type filter and the search box decide which listed items are shown.
  - `deleteFromIndexedDB` deletes a download by its title.
- **The live-class page** (`js/live-class.js`).
  - `escapeHTML` escapes chat text.
  - It loads the current class's chat messages, sorted by time.
  - Each class has one notes record.
  - It stores a record for each downloaded class resource.

Each part follows the form of its source.

- **Stateful code is modelled as classes.**
  - `IndexedDb.Database` holds the stores and the sync queue's key generator.
  - `ServiceWorker.Worker` holds the Cache API storage and the staleness metadata. The storage is a list of cache names in creation order, plus each cache's entries in insertion order.
  - Each method states its whole new state.
- **Loops are modelled as methods with loop invariants.** These are the `processSyncQueue` pass, the two loops of `trimCache`, the activate cleanup, `groupDownloadsByType` and the key-ordered listing behind `getAll()`.
- **Pure code is modelled as functions with lemmas.** This covers routing, the strategies' fallback decisions, `getFileType`, `escapeHTML`, title derivation and the filter and search tests.

Each operation is proved against a partner. The partner is a reference definition, an invariant the operation preserves, or the operation that reads back what it wrote. Examples:

- `escapeHTML` equals a per-character map.
- `getAll()` has exactly one key-ordered answer.
- A pass over the sync queue leaves the queue `AfterPass`, and an always-failing item leaves on exactly its fifth pass.
- Eviction removes the shortest prefix that brings the cache under its limit.
- On a database with a `notes` store, the corrected `loadNotes` gives back what `saveNotes` stored. The upgrade never creates that store.

Modules (one per file):

| file | module | models |
|---|---|---|
| common.dfy | Common | `Option`, `Result`, `Outcome` and the DOM exception names used as errors |
| strings.dfy | Strings | `toLowerCase`/`toUpperCase` on ASCII, `startsWith`/`endsWith`/`includes`, `split(c).pop()`, a global one-character `replace` |
| keys.dfy | Keys | IndexedDB keys (numbers before strings) and their total order |
| indexed_db.dfy | IndexedDb | the record shapes, the schema upgrade, the `Database` class and `getAll()` key order |
| timestamp_sort.dfy | TimestampSort | `sort((a, b) => a.timestamp - b.timestamp)`, a stable sort |
| sync_queue.dfy | SyncQueue | `addToSyncQueue`, `processSyncQueue` |
| service_worker.dfy | ServiceWorker | routing, the strategies, `trimCache`, metadata, install, activate |
| downloads.dfy | Downloads | `getFileType`, `groupDownloadsByType`, filter, search, `deleteFromIndexedDB` |
| live_class.dfy | LiveClass | class id, `escapeHTML`, chat loading, notes, resource records |

Inputs that the source takes from its environment become parameters:

- whether the browser is online (`navigator.onLine`);
- whether IndexedDB exists at all (`Database.supported`);
- the clock (`now`);
- the outcome of the one `fetch` each strategy makes (`NetOutcome`), and one outcome per URL for `addAll`;
- whether each sync sender resolves or rejects for each queued item (`Handlers`);
- the `id` query parameter of the page URL;
- the worker's own origin;
- the random file size of a saved resource.

## Model

| member | source | states |
|---|---|---|
| IndexedDb.CreateMissing | js/db.js:40-73 | After the upgrade, a store exists iff it existed before or is one of the names. A store that existed keeps its contents. A store that was created is empty. |
| IndexedDb.UpgradeComplete | js/db.js:40-73 | On a database that already has all six stores, the upgrade changes nothing. |
| IndexedDb.UpgradeIdempotent | js/db.js:36-76 | Running the upgrade twice has the same effect as running it once. |
| IndexedDb.ListInKeyOrder | js/db.js:175 | `store.getAll()` lists every record of the store exactly once, under its own key, in strictly ascending key order. |
| IndexedDb.ListingUnique | js/db.js:175 | Any two strictly key-ordered listings of one store are equal, so `getAll()` has exactly one answer. |
| IndexedDb.Database.Open | js/db.js:24-90 | Without IndexedDB it rejects and changes nothing. Otherwise it resolves at version 1, runs the upgrade if the database was older, and starts the key generator at 1 when it creates the sync queue. |
| IndexedDb.Database.Put | js/db.js:98-125 | A missing store rejects with NotFoundError and is left as it was. Otherwise the record is inserted or fully replaced under its `id`. Every other key and every other store is unchanged. A numeric sync-queue key at or past the generator moves the generator past it. |
| IndexedDb.Database.PutNew | js/db.js:65-68 | A record with no `id` gets a key from the generator only in the auto-incrementing sync queue. That key is held by no record, and the generator advances by 1. Any other store rejects with DataError. |
| IndexedDb.Database.Get | js/db.js:133-160 | It returns the record under the key. A missing key resolves to an absent result and does not reject. A missing store rejects with NotFoundError. The database is left as it was. |
| IndexedDb.Database.GetAll | js/db.js:167-194 | It resolves to a key-ordered listing of exactly the store's records, or rejects with NotFoundError when the store is missing. |
| IndexedDb.Database.Delete | js/db.js:202-229 | It removes exactly that key from that store. An absent key is not an error. No other store changes. |
| IndexedDb.Database.Clear | js/db.js:236-263 | That store becomes empty. Every other store and the key generator are kept. |
| TimestampSort.SortByTimestamp | js/db.js:308 | The sorted list is a permutation of its input: same length, same multiset. |
| TimestampSort.SortAscending | js/db.js:308 | The sorted list is in ascending `timestamp` order. |
| TimestampSort.SortStable | js/db.js:308 | Records with equal timestamps keep their relative order. |
| TimestampSort.SortOfKeySorted | js/db.js:298-308 | Sorting a `getAll()` listing gives oldest first, with ties in ascending key order. |
| TimestampSort.SortEnumerates | js/db.js:298-308 | The sorted listing still lists exactly the store's records. |
| SyncQueue.Bumped | js/db.js:313 | `attempts` goes up by exactly one. Key, type, payload and timestamp are kept. |
| SyncQueue.AddToSyncQueue | js/db.js:271-285 | It stores `{syncType, data, timestamp: now, attempts: 0}` under a new auto-incremented key that no queued item has, and returns that key. Without IndexedDB it rejects and changes nothing. |
| SyncQueue.SamePayloadDifferentFates | js/db.js:310-343 | Senders answer per queued item: two quiz items with the same payload can meet different outcomes in one pass. The first is removed and the second is kept with one more attempt. |
| SyncQueue.ProcessItem | js/db.js:311-343 | One iteration on one item: save it with one attempt more, call its sender (if its type has one), then delete it unless the sender rejected with fewer than 5 attempts. The steps and the new queue are stated exactly. |
| SyncQueue.ProcessInOrder | js/db.js:310-344 | Every item of the sorted listing is processed once, in order, whatever earlier items did. The queue ends as `AfterPass`, and the trace is the items' steps concatenated. |
| SyncQueue.ProcessSyncQueue | js/db.js:291-349 | Offline it changes nothing. Online, the order used is a listing of the queue, oldest first with ties by key. The trace follows that order. Delivered items, items of unknown type and items that have failed a fifth time are gone. Every other item stays with one attempt more. |
| SyncQueue.FailingItemKept | js/db.js:335-342 | An item that fails on each of n passes, with attempts + n below 5, is still queued with n more attempts. |
| SyncQueue.FifthPassRemoves | js/db.js:335-342 | A newly queued item that always fails is present after passes 0 to 4 and gone after the fifth. |
| SyncQueue.SourceHandlersEmptyQueue | js/db.js:356-403 | With the three senders as written (they always resolve), one pass empties the queue. |
| SyncQueue.SaveBeforeSend | js/db.js:313-329 | In the trace, every sender call is directly preceded by the save of the same bumped item. |
| SyncQueue.SavesInOrder | js/db.js:310-314 | The pass saves each listed item exactly once, with one attempt more, in processing order. |
| ServiceWorker.Route | service-worker.js:80-102 | A request from another origin is not intercepted. Otherwise `/api/` goes to network-first, and that test comes before the media test. Then media URLs go to cache-on-demand, and everything else goes to cache-first. |
| ServiceWorker.IsMediaRequestCaseInsensitive | service-worker.js:237-239 | The media test gives the same answer for a URL and for its upper- or lower-cased form. |
| ServiceWorker.MediaPlaceholder | service-worker.js:224-231 | The image placeholder is used iff the URL ends, case-sensitively, in an image extension. Otherwise the video placeholder is used iff it ends in `.mp4` or `.webm`. Any URL with a placeholder is a media request. |
| ServiceWorker.UpperCaseMediaHasNoPlaceholder | service-worker.js:224-239 | `a.MP4` is routed as media but gets no placeholder. |
| ServiceWorker.NetworkFirstFallback | service-worker.js:175-195 | A cached response is served unless its recorded time is strictly more than 24 hours old, in which case the offline page is given. With no cached response, an HTML request gets the offline page and any other request rejects. |
| ServiceWorker.AsWrittenNeverStale | service-worker.js:276-298 | As written, the network-first reply never depends on the time, and a cached response is always served when the network fails. |
| ServiceWorker.StaleServedAsWritten | service-worker.js:178-187 | One day and 1 ms after storing, with the network down, the code as written serves the stale copy, where the intended fallback gives the offline page. |
| ServiceWorker.NonGetSuccessLostAsWritten | service-worker.js:166-169 | As written, a 200 response to a non-GET request is not served. The reply is the offline page or a rejection. |
| ServiceWorker.Lookup | service-worker.js:255 | `cache.match(url)` finds a response iff some entry has the URL, and what it finds is that entry's response. |
| ServiceWorker.Without | service-worker.js:269 | `cache.delete(url)` keeps exactly the entries for other URLs, keeps URLs unique, and never grows the cache. |
| ServiceWorker.PutIntoLookup | service-worker.js:126 | After `cache.put(url, r)`, the URL finds `r`, and every other URL finds what it found before. |
| ServiceWorker.FirstMatch | service-worker.js:107 | `caches.match` finds nothing iff no existing cache holds the URL. |
| ServiceWorker.MatchFound | service-worker.js:107 | A URL held by any cache is found by `caches.match`. |
| ServiceWorker.CacheSize | service-worker.js:254-261 | The size loop adds up exactly the body sizes of the entries. |
| ServiceWorker.EvictSpec | service-worker.js:267-272 | Eviction removes a prefix and keeps the rest unchanged. Afterwards the total is at most `maxSize`, or no entries are left. Every longer suffix was still over the limit, so it stops as soon as it can. |
| ServiceWorker.DropOldest | service-worker.js:268-270 | Removing the oldest entry lowers the total by its size and leaves exactly the remaining entries. |
| ServiceWorker.SmallCacheUntouched | service-worker.js:246-248 | A cache of 20 or fewer entries is never trimmed, whatever its size. |
| ServiceWorker.TrimmedUnique | service-worker.js:242-273 | Trimming keeps each URL unique. |
| ServiceWorker.KeepCurrent | service-worker.js:63-70 | The names activate keeps are exactly the old names that are one of the three current cache names. |
| ServiceWorker.Erase | service-worker.js:68 | `caches.delete(name)` keeps exactly the other names. |
| ServiceWorker.EraseUnique | service-worker.js:68 | Deleting a cache keeps the names distinct. |
| ServiceWorker.ShellUrls | service-worker.js:15-36 | The install list is the 20 app-shell paths on the worker's origin, in order. |
| ServiceWorker.OfflinePageInShell | service-worker.js:15-36 | The offline page is part of the app shell. |
| ServiceWorker.PutAllFinds | service-worker.js:49 | After `addAll`, every listed URL can be matched. |
| ServiceWorker.PutAllKeeps | service-worker.js:49 | After `addAll`, every URL that could be matched before can still be matched. |
| ServiceWorker.InstalledOfflinePage | service-worker.js:42-56 | Once the shell is in the static cache, `caches.match` finds the offline page. |
| ServiceWorker.Worker.OpenCache | service-worker.js:125 | `caches.open` creates a missing cache, empty and last in creation order. It leaves an existing one alone. |
| ServiceWorker.Worker.DeleteEntry | service-worker.js:269 | It removes that URL from that cache and nothing else. |
| ServiceWorker.Worker.EvictOldest | service-worker.js:267-272 | The `while` loop leaves the cache as `Evict` of its old entries and touches no other cache. |
| ServiceWorker.Worker.TrimCache | service-worker.js:242-273 | It opens the cache. A cache of 20 or fewer entries is kept, and a larger one is evicted as `EvictSpec` states. |
| ServiceWorker.Worker.CacheFirstStrategy | service-worker.js:105-141 | A hit is served with no change. On a miss: a network failure gives the offline page to an HTML request and rejects anything else, changing nothing. A response that is not 200 `basic` is served uncached. A 200 `basic` response is served, written to the dynamic cache (for a GET) and the cache is trimmed to 100 MiB. |
| ServiceWorker.Worker.CacheAndTrim | service-worker.js:124-129 | It opens the dynamic cache, puts the response (for a GET), then trims the cache. |
| ServiceWorker.Worker.PutDynamic | service-worker.js:125-126 | The dynamic cache is opened, and a GET response is put in it. |
| ServiceWorker.Worker.StoreMetadata | service-worker.js:276-286 | The URL's recorded time becomes `now`, which overwrites any earlier entry, and the caches are unchanged. |
| ServiceWorker.Worker.GetMetadata | service-worker.js:289-298 | It returns the URL's recorded time, or nothing when none is recorded. |
| ServiceWorker.Worker.NetworkFirstStrategy | service-worker.js:144-197 | A 200 response is served, and the dynamic cache is opened (created if missing) whatever the verb. For a GET the response is put there and its time is recorded; for any other verb no entry and no time changes. Any other outcome changes nothing and gives `NetworkFirstFallback` of the cache hit and the recorded time. |
| ServiceWorker.Worker.CacheOnDemandStrategy | service-worker.js:200-234 | It never writes. A hit is served, and otherwise any network response is served. On a network failure it gives the matching placeholder from the cache, or rejects. |
| ServiceWorker.Worker.HandleFetch | service-worker.js:80-102 | The strategy run is `Route`'s choice. A cross-origin request is `NotHandled`: the worker never calls `respondWith`, so the browser fetches it itself. It changes nothing. Cache-on-demand changes nothing. |
| ServiceWorker.Worker.AddAll | service-worker.js:46-49 | All or nothing: when every fetch gives a 2xx response other than 206 (Partial Content), each URL is put in list order. Otherwise it rejects with TypeError and the cache keeps its entries. |
| ServiceWorker.Worker.Install | service-worker.js:42-56 | After a successful install, the static cache holds the app shell, and the offline page can be matched. A fetch that fails, gives a non-2xx response or gives a 206 response rejects the install. |
| ServiceWorker.Worker.DeleteCache | service-worker.js:68 | It removes that cache and its name, and nothing else. |
| ServiceWorker.Worker.Activate | service-worker.js:59-77 | Exactly the caches whose name is not one of the three current names are deleted. The rest keep their contents and order. |
| Downloads.Extension | js/downloads.js:521 | The extension is the lower-cased text after the last `.`, or the whole lower-cased name when there is no dot. It holds no dot and no upper-case letter. |
| Downloads.FileType | js/downloads.js:520-534 | `getFileType` answers one of `pdf`, `video`, `image`, `audio`, `other`. |
| Downloads.ExtensionListsDisjoint | js/downloads.js:523-529 | No extension is in two of the four lists. |
| Downloads.FileTypeExact | js/downloads.js:520-534 | Each type is given exactly for the extensions of its own list, and `other` exactly for every extension on none of the lists. |
| Downloads.FileTypeCaseInsensitive | js/downloads.js:521 | The classification gives the same answer for a name and for its upper- or lower-cased form. |
| Downloads.DocCaseDead | js/downloads.js:455-458 | `getFileType` never answers `doc`, so that `case` is never taken. |
| Downloads.GroupOf | js/downloads.js:455-471 | `video`, `image` and `audio` go to their own groups, and everything else goes to documents. |
| Downloads.DocumentsGroup | js/downloads.js:455-471 | A file goes to documents iff its type is `pdf` or `other`. |
| Downloads.GroupDownloadsByType | js/downloads.js:444-475 | Each group is exactly the downloads of that group, in their input order. |
| Downloads.SelectOnlyGroup | js/downloads.js:444-475 | A group holds downloads of that group only. |
| Downloads.SelectCount | js/downloads.js:444-475 | Each download appears in its own group as often as in the input, and in no other group. |
| Downloads.GroupsPartition | js/downloads.js:444-475 | The four group sizes add up to the number of downloads. |
| Downloads.SelectKeepsOrder | js/downloads.js:444-475 | Two downloads of one group keep their relative order. |
| Downloads.FilterSelectsOneType | js/downloads.js:173-179 | The `all` filter shows every item. Two different type filters never both show one item. |
| Downloads.FilterShowsExactly | js/downloads.js:173-179 | The `all` button leaves the whole list visible, in order. Any other button leaves visible exactly the items whose type it names, each as often as listed. |
| Downloads.EmptySearchShowsAll | js/downloads.js:194-206 | An empty search term shows every item. |
| Downloads.SearchCaseInsensitive | js/downloads.js:195-201 | The search ignores the case of the term and of the item's title and info. |
| Downloads.SearchNarrows | js/downloads.js:201 | Typing more characters can only hide items. |
| Downloads.FirstWithTitle | js/downloads.js:393 | `find` finds nothing iff no record has the title. What it finds is a listed record with that title. |
| Downloads.FirstWithTitleIsFirst | js/downloads.js:393 | Every record before the found one lacks the title. |
| Downloads.FirstTitledIsLeast | js/downloads.js:390-393 | In the key-ordered listing, the first record with the title is the titled record with the least key. There is none iff no stored record has the title. |
| Downloads.DeleteFromIndexedDB | js/downloads.js:377-405 | With no record of that title, nothing changes. Otherwise exactly one record is deleted: the titled record with the least key. |
| Downloads.DeleteFromIndexedDBAsWritten | js/downloads.js:390-393 | As written, the call rejects with TypeError once the database is open, and nothing is deleted. |
| Downloads.TitledRecordRemoved | js/downloads.js:390-397 | Where a record has the title, the intended deletion shrinks the store by one, which the code as written does not. |
| LiveClass.ClassId | js/live-class.js:163 | The class id is the `id` parameter when it is present and non-empty, and `demo-class` otherwise. It is never empty. |
| LiveClass.EscapeIsPerCharacter | js/live-class.js:648-655 | The chain of five replaces equals the per-character map `&`→`&amp;`, `<`→`&lt;`, `>`→`&gt;`, `"`→`&quot;`, `'`→`&#039;`, with every other character unchanged. |
| LiveClass.EscapeAppend | js/live-class.js:648-655 | Escaping distributes over concatenation. |
| LiveClass.EscapeHtmlSafe | js/live-class.js:648-655 | The escaped text contains no `<`, `>`, `"` or `'`. |
| LiveClass.EscapeIdentity | js/live-class.js:648-655 | Text with none of the five special characters is left unchanged. |
| LiveClass.ClassMessages | js/live-class.js:168 | The filter keeps only messages of the class, and never more copies of a record than were listed. |
| LiveClass.ClassMessagesExact | js/live-class.js:168 | A listed record is kept, as often as listed, iff it is a message of the class. |
| LiveClass.ShownMessagesSpec | js/live-class.js:167-171 | The shown messages are exactly the stored messages of the class, each as often as stored. They are in ascending timestamp order, with ties in ascending key order. |
| LiveClass.LoadChatMessages | js/live-class.js:150-195 | It resolves to `ShownMessagesSpec`'s list for a listing of the `chatMessages` store. It rejects when IndexedDB is missing, and then changes nothing, or when the store does not exist. A supported database ends opened and upgraded, with no store changed. |
| LiveClass.LoadChatMessagesAsWritten | js/live-class.js:167-168 | As written, the load fails even when the store exists (TypeError), so no message is shown. |
| LiveClass.StoredMessageShown | js/live-class.js:167-171 | A stored message of the class is shown by the intended load, so the shown list is not empty. |
| LiveClass.NotesRecord | js/live-class.js:308-312 | The notes record is keyed by the class id and holds the content. |
| LiveClass.NotesSaved | js/live-class.js:308-312 | Saving notes changes only the `notes` store. No store is added or removed. |
| LiveClass.NotesRoundTrip | js/live-class.js:305-344 | On stores that include `notes`, loading a class's notes after a save gives back the saved content. Every other class loads exactly what it loaded before. |
| LiveClass.LastSaveWins | js/live-class.js:308-312 | Two saves of one class leave the stores exactly as the second save alone would. Loading then gives the second content. |
| LiveClass.SaveNotes | js/live-class.js:292-319 | When the `notes` store exists, the new stores are `NotesSaved` of the opened ones. Otherwise it fails with NotFoundError and the stores are unchanged. |
| LiveClass.LoadNotes | js/live-class.js:324-348 | It resolves to `LoadNotesResult` of the stores: the content of the class's notes record, or nothing when there is none. It fails with NotFoundError when the store is missing. It changes no store. |
| LiveClass.LoadNotesAsWritten | js/live-class.js:340-343 | It resolves to `LoadNotesAsWrittenResult` of the stores. As written, the notes area is set to the text `undefined` whenever the store exists. |
| LiveClass.SavedNotesLostAsWritten | js/live-class.js:340-343 | On stores that include `notes`, a save of any content other than `undefined` is given back by the corrected load. The load as written gives `undefined` instead. |
| LiveClass.PageStoresNotCreated | js/db.js:40-73 | The upgrade adds neither `notes` nor `chatMessages`. A database it creates has neither store, so loading notes there fails with NotFoundError. |
| LiveClass.StripExtension | js/live-class.js:411 | A final `.` followed by at least one character, none of them `/` or `.`, is removed. Otherwise the name is kept. |
| LiveClass.ResourceTitle | js/live-class.js:411 | The title holds no `-`. |
| LiveClass.ResourceFileType | js/live-class.js:412 | The stored `fileType` holds no `.`. |
| LiveClass.ResourceFileTypeIsExtension | js/live-class.js:412 | Lower-casing the stored `fileType` gives the extension that `getFileType` classifies by. |
| LiveClass.UndottedResource | js/live-class.js:411-412 | A name without a dot is its own title (dashes turned into spaces) and, upper-cased, its own file type. |
| LiveClass.ResourceRecord | js/live-class.js:408-416 | The stored download is keyed by `Date.now()` and holds the name, the derived title and file type, and the path `/downloads/<name>`. |
| LiveClass.SaveResource | js/live-class.js:394-422 | The record is put in the `downloads` store under its key. Nothing else changes. |
| Strings.AfterLastSpec | js/downloads.js:521 | `split(c).pop()` holds no `c`, ends the string, is the whole string when it has no `c`, and otherwise follows a `c`. |
| Strings.ReplaceAllAppend | js/live-class.js:650 | A global one-character replace distributes over concatenation. |

## Left out

- Asynchrony: promises, IndexedDB request and transaction callbacks, `db.close()` and event listeners are modelled as sequential calls that complete in program order.
  - The un-awaited `cache.put` in `cacheFirstStrategy` is a write that completes before `trimCache` runs.
  - The deletes of the activate handler, which `Promise.all` runs together, are modelled one after another. They touch distinct names.
- Overlapping runs of `processSyncQueue` are not modelled. It has no re-entrancy guard.
- Errors: any other IndexedDB error of a store call (quota, version or transaction aborts) is not modelled. The same goes for the `response.blob()` of `trimCache` failing and for `skipWaiting`/`clients.claim`.
- Console logging, notifications, rendering and every other DOM effect are not modelled. A result that the page only renders is returned instead.
- Timers, background-sync registration, push and `notificationclick` are not modelled. Nor are the placeholder senders of the service worker, the `online` listener and the real network. The network is the `NetOutcome` parameter, and each sync sender's result is a `Handlers` parameter that answers per queued item (by its key), so outcomes may differ between items with the same payload.
- The cross-origin test parses the URL. The model takes the request's origin and pathname as already parsed fields of `Request`.
- The `typeof openDatabase !== 'function'` guard of the page scripts is not modelled: the database module is always loaded.
- `trimCache` stamps every entry with `Date.now()` inside its loop. The stamps do not decrease, so its stable sort keeps the enumeration order, and the model uses that order (insertion order) directly.
- `getRandomFileSize` is a parameter of `SaveResource`, and `Date.now()` is the `now` parameter.
- The metadata of the service worker is a map from URL to time. The JSON serialization through `localStorage` is left out.
- Keys: IndexedDB number keys are JavaScript doubles. The model uses integers, which is all the modelled code stores (auto-increment ids and `Date.now()`).
- Records that hold no `timestamp` compare as equal in the sort. In the source, the comparator then returns `NaN`, which `sort` treats as equal, but with an inconsistent comparator the resulting order is not defined. Only sync items and chat messages carry a timestamp in the stores listed.
- `saveChatMessage` (js/live-class.js:119-145) is not modelled. Its `db.transaction('chatMessages')` at js/live-class.js:128 throws NotFoundError on every database the upgrade creates, and the `catch` only logs it, so it never writes. `PageStoresNotCreated` states the missing store.
- `loadDownloads` (js/downloads.js:410-438) is not modelled: it only renders. As written, `await store.getAll()` at js/downloads.js:423 yields the IDBRequest, whose `length` is undefined, so the test at :425 fails and `showEmptyState()` runs. `groupDownloadsByType` is therefore never reached from this page load as written; `GroupDownloadsByType` models the grouping itself, as it would run on the records.
- The upgrade never creates the `notes` and `chatMessages` stores. The model keeps this: `SaveNotes`, `LoadNotes` and `LoadChatMessages` reject with NotFoundError on a database created by this upgrade.
- js/teacher-dashboard.js:52 and :99 open a `teacherData` store that the upgrade at js/db.js:40-73 never creates. The model follows js/db.js: six stores, without `teacherData`.
- Strings are sequences of UTF-16 code units. `toLowerCase`/`toUpperCase` are modelled on ASCII letters only.
- ServiceWorker.Worker.HandleFetch: states the chosen strategy and the unchanged state for the two routes that never write. The reply of each strategy is stated by that strategy's own method, not repeated here.
- ServiceWorker.PutAll: its own contract states only that URLs stay unique. What `addAll` leaves matchable is stated by `PutAllFinds` and `PutAllKeeps`.
- LiveClass.ResourceTitle: its own contract states only that no `-` is left. The exact value is given by `StripExtension` and `UndottedResource`.
- IndexedDb.Database.Open: the database `onerror` path (a version downgrade, a blocked open) is not modelled. Opening fails only when IndexedDB is missing.

## Findings

| source | as written | input that shows it | evidently intended | confidence | as-written member | corrected member |
|---|---|---|---|---|---|---|
| service-worker.js:276-298 | A service worker has no `localStorage`. `storeMetadata` and `getMetadata` both throw and swallow the error. No time is ever recorded, so the 24-hour test at service-worker.js:182 never fires. | A GET to `/api/x` is stored at time 0. The network is down at time 86400001. The stale cached copy is served. | The stale copy gives the offline page. | not executed | ServiceWorker.StaleServedAsWritten | ServiceWorker.Worker.NetworkFirstStrategy |
| service-worker.js:166-169 | `cache.put` rejects for a request that is not a GET. The rejection sends a successful non-GET API response into the `catch` block. | A POST to `/api/submit` answered with status 200 and an Accept header without `text/html` gets a rejection instead of the response. | A successful response is served. Only GET responses are cached. | not executed | ServiceWorker.NonGetSuccessLostAsWritten | ServiceWorker.Worker.NetworkFirstStrategy |
| js/downloads.js:390-393 | `await store.getAll()` yields the IDBRequest, not the records. `downloads.find` then throws TypeError. | `deleteFromIndexedDB("Notes")` with a stored download titled `Notes`: the record stays. | The first record with the title is deleted. | not executed | Downloads.DeleteFromIndexedDBAsWritten | Downloads.DeleteFromIndexedDB |
| js/live-class.js:167-168 | `await store.getAll()` yields the IDBRequest, and `messages.filter` throws TypeError, which is caught and logged. On every database the upgrade in js/db.js:40-73 creates, `db.transaction` at js/live-class.js:159 already throws NotFoundError, because no `chatMessages` store exists. The IDBRequest misuse shows only on a database that has a store of that name, such as one made by another version of the app. | A database with a `chatMessages` store holding a message of class `demo-class`, loaded on a page with no `id` parameter: nothing is shown. | The class's messages are shown, oldest first. The corrected `LoadChatMessages` still rejects on every database this upgrade creates; a full fix also needs the upgrade to create the store. | not executed | LiveClass.LoadChatMessagesAsWritten | LiveClass.LoadChatMessages |
| js/live-class.js:340-343 | `await store.get(classId)` yields the IDBRequest, which is truthy and has no `content`, so the notes area is set to `undefined`. On every database the upgrade in js/db.js:40-73 creates, `db.transaction` at js/live-class.js:301 and :333 already throws NotFoundError, because no `notes` store exists, so `saveNotes` fails too. The IDBRequest misuse shows only on a database that has a store of that name, such as one made by another version of the app. | A database with a `notes` store: after `saveNotes("hello")` succeeds there, `loadNotes()` shows `undefined`. | The saved content `hello` is shown. The corrected `LoadNotes` still rejects on every database this upgrade creates; a full fix also needs the upgrade to create the store. | not executed | LiveClass.SavedNotesLostAsWritten | LiveClass.LoadNotes |
