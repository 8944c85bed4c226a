# Browser storage layer and window state, in Dafny

A model of the local data layer of an Electron browser and of the pure state
steps of its window. The project covers:

- **History** (`history.dfy`): the visit log. One row per URL is kept by an
  upsert. The module also has the read queries (paged listing, substring
  search, date range, top-visited ranking), the per-page duration counter
  and the append-only log of search queries.
- **Bookmarks** (`bookmarks.dfy`, with `folder_tree.dfy` for the parent
  graph): the folder and bookmark tables with their two default folders and
  their queries. It has column-wise updates and moves, the
  `ON DELETE CASCADE` folder delete, and the transactional import with its
  export.
- **Preferences** (`preferences.dfy`): the fixed-key preference object and
  its defaults, with per-key writes, batch writes, full and single-key
  reset, and export/import.
- **Dispatcher** (`dispatcher.dfy`): the storage command handler. It holds
  the fixed table of 31 named channels, each routed to exactly one store
  method, the return kind of each channel, and the shutdown step.
- **Browser** (`browser.dfy`): the window component. It covers tabs with
  their own back/forward lists, navigation, back, forward, home, new tab,
  close tab, the session history list and the downloads list.
- **NavigationBar** (`navbar.dfy`): address-bar normalisation, and the
  guard and payload of the star (add bookmark) button.
- **Panels** (`panels.dfy`): the case-insensitive filters of the history
  panel and of the tab switcher, and what picking a tab does.
- **LegacyApp** (`legacy_app.dfy`): the earlier single-file app. It covers
  tab-id allocation, close, the de-duplicated bookmark list, the search
  fallback of the address bar, and bookmark and history clicks. Its search
  fallback uses **UriComponent** (`uri.dfy`), JavaScript's
  `encodeURIComponent`/`decodeURIComponent` as given in section 19.2.6 of
  ECMA-262, with the round trip proved.

Shared helpers sit in `wrappers.dfy` (Option/Result), `seqs.dfy` (filter,
subsequence, paging windows), `text.dfy` (prefix/substring, ASCII
lower-casing, JavaScript `trim`) and `ranking.dfy` (SQL `ORDER BY` as a
sort by a key, ties unspecified).

Modelling conventions:

- **Tables** are sequences of rows. An AUTOINCREMENT column is a counter
  at or above every id issued before; a new row takes the next value. SQLite
  may leave gaps (an upsert that updates still consumes an id), so no
  contract relies on ids being consecutive, only on a new id exceeding the
  earlier ones.
- **Database errors.** A statement the database rejects, here always a
  foreign-key violation, is a `Result` error that leaves the state as it
  was.
- **The clock.** `Date.now()` and `new Date()` are parameters. An
  operation that reads the clock once takes `now`. One that reads it once
  per inserted row takes one reading per row: `barTime` and `otherTime` for
  the two default folders, and `clock(k)` for the k-th row of an import
  (`clock` maps 0, 1, 2, ... to the successive readings). The storage bridge
  passes each call's readings as `clock`. Ids derived from the clock in the
  window are parameters (`freshId`, `itemId`).
- **`ORDER BY … LIMIT … OFFSET`** is "the window of some permutation of
  the rows sorted by the key"; rows with equal keys may come in any order.
- **`LIKE '%q%'` and `toLowerCase().includes`** are both ASCII
  case-insensitive substring matching.

## Model

| member | source | states |
|---|---|---|
| History.AddVisit | src/electron/storage/HistoryManager.ts:65-77 | a first visit inserts one row with visit count 1, duration 0, time `now` and a fresh id above every earlier id; a repeat visit keeps the row and its id, adds one to the count, overwrites time and title, and keeps the old favicon unless a non-empty one is given; no other URL's row changes; unique URLs are preserved |
| History.Lookup | src/electron/storage/HistoryManager.ts:46 | the row found has the URL, and no row is found exactly when no row has it |
| History.LookupUnique | src/electron/storage/HistoryManager.ts:46 | with the UNIQUE(url) constraint, every row is the row found for its URL |
| History.ReplayKeepsOneRowPerUrl | src/electron/storage/HistoryManager.ts:46-77 | after any sequence of visits there is at most one row per URL and the table grew by at most one row per visit |
| History.TwoVisitsOneRow | src/electron/storage/HistoryManager.ts:65-77 | visiting one URL twice leaves one row, with the second title and a count of 2 |
| History.FilterKeepsValid | src/electron/storage/HistoryManager.ts:111-123 | deleting any set of rows keeps URLs unique, ids unique and below the counter, and counts positive |
| History.GetHistory | src/electron/storage/HistoryManager.ts:79-87 | the page holds at most `limit` rows (default 100) after skipping `offset` (default 0), exactly as many as the table leaves for that window, drawn from the table without duplication and ordered newest `lastVisit` first |
| History.GetHistoryIsWindow | src/electron/storage/HistoryManager.ts:79-87 | the page is the `LIMIT`/`OFFSET` window of one newest-first ordering of the whole table: it skips the first `offset` rows of that ordering and takes the next `limit` |
| History.GetHistoryPagesConcat | src/electron/storage/HistoryManager.ts:79-87 | two consecutive pages of k rows are the page of 2k rows at the same offset |
| History.GetHistoryFirstPageIsNewest | src/electron/storage/HistoryManager.ts:79-87 | no row left out of the first page is newer than a row on it |
| History.SearchHistory | src/electron/storage/HistoryManager.ts:89-99 | only rows whose URL or title contains the query, newest first, as many as the limit (default 50) leaves of the matching rows; with no effective limit every matching row is returned |
| History.SearchHistoryIsWindow | src/electron/storage/HistoryManager.ts:89-99 | the result is the first `limit` rows of one newest-first ordering of all matching rows |
| History.SearchHistoryIsNewest | src/electron/storage/HistoryManager.ts:89-99 | under a limit no matching row left out was visited later than a row returned |
| History.GetHistoryByDate | src/electron/storage/HistoryManager.ts:101-109 | exactly the rows with start ≤ lastVisit ≤ end, both ends included, newest first |
| History.DeleteHistory | src/electron/storage/HistoryManager.ts:111-114 | exactly the row for the URL goes, the others stay in order, the search log is untouched |
| History.ClearHistory | src/electron/storage/HistoryManager.ts:116-123 | a truthy cutoff keeps exactly the rows with lastVisit ≥ cutoff; a missing or zero cutoff empties the table; the search log is untouched |
| History.AddSearchQuery | src/electron/storage/HistoryManager.ts:125-132 | appends exactly one entry with time `now`, a fresh id and an empty result URL stored as NULL; the visit table is untouched |
| History.GetSearchHistory | src/electron/storage/HistoryManager.ts:134-142 | log entries newest first, drawn from the log without duplication, as many as the limit (default 50) leaves of the log |
| History.GetSearchHistoryIsWindow | src/electron/storage/HistoryManager.ts:134-142 | the result is the first `limit` entries of one newest-first ordering of the whole log |
| History.GetSearchHistoryIsNewest | src/electron/storage/HistoryManager.ts:134-142 | no log entry left out is newer than an entry returned |
| History.GetTopVisited | src/electron/storage/HistoryManager.ts:144-152 | rows ordered by visit count and then lastVisit, both descending, drawn from the table without duplication, as many as the limit (default 10) leaves |
| History.GetTopVisitedIsWindow | src/electron/storage/HistoryManager.ts:144-152 | the list is the first `limit` rows of one ordering of the whole table by visit count and then lastVisit |
| History.TopVisitedIsTopK | src/electron/storage/HistoryManager.ts:144-152 | no row left out outranks a row returned |
| History.UpdateDuration | src/electron/storage/HistoryManager.ts:154-162 | adds the amount to the duration of the row for the URL and changes nothing else; without such a row the table is unchanged |
| History.DurationsAccumulate | src/electron/storage/HistoryManager.ts:154-162 | two updates by a and b equal one update by a + b |
| Ranking.Sort | src/electron/storage/HistoryManager.ts:82 | an `ORDER BY` result is a permutation of the rows, sorted by the key |
| Ranking.RankedWindow | src/electron/storage/HistoryManager.ts:82-83 | `ORDER BY … LIMIT … OFFSET` returns rows sorted by the key, a sub-multiset of the input whose size is the window's, and all rows when neither clause cuts |
| Ranking.RankedWindowIsWindowOfRanking | src/electron/storage/HistoryManager.ts:82-83 | the result is the window of one sorted permutation of all the rows, so the rows skipped by the offset rank ahead of it and the rows dropped by the limit rank behind it |
| Ranking.TopK | src/electron/storage/HistoryManager.ts:147-148 | the first page of a ranking leads every row left out |
| Seqs.WindowPagesConcat | src/electron/storage/HistoryManager.ts:83 | consecutive `LIMIT`/`OFFSET` windows join into the window of their total size |
| Bookmarks.InsertDefault | src/electron/storage/BookmarkManager.ts:65-67 | `INSERT OR IGNORE` with an explicit id: a taken id changes nothing, otherwise exactly that root folder is appended |
| Bookmarks.Init | src/electron/storage/BookmarkManager.ts:64-68 | opening appends exactly the missing default folders and nothing else: "Bookmarks Bar" (id 1, root, position 0, stamped `barTime`) unless id 1 exists, then "Other Bookmarks" (id 2, root, position 1, stamped `otherTime`) unless id 2 exists; existing rows are kept as they were, bookmarks are untouched, validity is kept |
| Bookmarks.InitEmpty | src/electron/storage/BookmarkManager.ts:64-68 | a fresh database holds exactly "Bookmarks Bar" (id 1, root, position 0) and "Other Bookmarks" (id 2, root, position 1), each with its own clock reading |
| Bookmarks.ReopenRestoresOther | src/electron/storage/BookmarkManager.ts:65-68 | after "Other Bookmarks" is deleted, the next opening re-creates it as the last row with id 2, root, position 1 and the new clock reading |
| Bookmarks.InitIdempotent | src/electron/storage/BookmarkManager.ts:65 | opening the database again changes nothing |
| Bookmarks.AddBookmark | src/electron/storage/BookmarkManager.ts:72-89 | fails with a foreign-key violation exactly when the folder is missing; otherwise appends one row with the next id, which no existing row uses, with `dateAdded = now` and empty favicon or tags stored as NULL, and returns that id; folders are untouched |
| Bookmarks.AddFolder | src/electron/storage/BookmarkManager.ts:138-152 | fails exactly when the parent is neither NULL, an existing folder, nor the new row's own id; otherwise appends one folder with the next id and `now`, and returns the id; bookmarks are untouched |
| Bookmarks.AddSelfParentedFolder | src/electron/storage/BookmarkManager.ts:39-46 | the self-referencing foreign key admits a new folder that names its own id as parent, and the table stays valid |
| Bookmarks.GetBookmarks | src/electron/storage/BookmarkManager.ts:91-99 | exactly the bookmarks whose folder equals the argument, NULL matching only NULL, by position ascending |
| Bookmarks.GetAllBookmarks | src/electron/storage/BookmarkManager.ts:101-104 | every bookmark, newest `dateAdded` first |
| Bookmarks.SearchBookmarks | src/electron/storage/BookmarkManager.ts:106-115 | exactly the bookmarks whose title, URL or non-NULL tags contain the query, newest first |
| Bookmarks.SearchEmptyListsAll | src/electron/storage/BookmarkManager.ts:106-115 | the empty query lists every bookmark |
| Bookmarks.UpdateBookmark | src/electron/storage/BookmarkManager.ts:117-131 | fails exactly when a column is set on an existing row and the new folder is missing; otherwise the rows with the id get the supplied columns, and every other row is unchanged |
| Bookmarks.Patch | src/electron/storage/BookmarkManager.ts:118-127 | each column given in the payload takes the given value and each column not given keeps its old one; `id` and `dateAdded` never change; a payload without other keys changes nothing |
| Bookmarks.UpdateIgnoresIdAndDate | src/electron/storage/BookmarkManager.ts:119 | the `id` and `dateAdded` entries of an update have no effect |
| Bookmarks.UpdateIdempotent | src/electron/storage/BookmarkManager.ts:117-131 | applying an update twice equals applying it once |
| Bookmarks.MoveBookmark | src/electron/storage/BookmarkManager.ts:191-199 | the moved row gets the folder and position and keeps every other column; every other row and the folder table are unchanged; a missing folder is rejected |
| Bookmarks.MoveIsUpdate | src/electron/storage/BookmarkManager.ts:191-199 | a move is the update of exactly `folderId` and `position` |
| Bookmarks.DeleteBookmark | src/electron/storage/BookmarkManager.ts:133-136 | exactly the row with the id goes, the rest keep their order |
| Bookmarks.AddThenDeleteBookmark | src/electron/storage/BookmarkManager.ts:72-89 | deleting a bookmark just added restores the bookmark table |
| Bookmarks.GetFolders | src/electron/storage/BookmarkManager.ts:154-162 | exactly the folders whose parent equals the argument, NULL matching only NULL, by position |
| Bookmarks.GetAllFolders | src/electron/storage/BookmarkManager.ts:164-167 | every folder, by position |
| Bookmarks.UpdateFolder | src/electron/storage/BookmarkManager.ts:169-183 | as for bookmarks, with `parentId` the checked key; the set of folder ids is unchanged |
| Bookmarks.PatchFolder | src/electron/storage/BookmarkManager.ts:170-179 | each named column takes its given value and the others keep theirs; id and dateAdded never change |
| Bookmarks.DeleteFolderValid | src/electron/storage/BookmarkManager.ts:45-57 | removing a set of folders closed under the parent relation, and the bookmarks filed in it, leaves no dangling parent or folder id |
| Bookmarks.DeleteFolder | src/electron/storage/BookmarkManager.ts:185-189 | removes the folder, every folder the cascade reaches from it and every bookmark filed in one of them; everything else stays in order; no dangling key remains |
| Bookmarks.AddThenDeleteFolder | src/electron/storage/BookmarkManager.ts:138-152 | deleting a folder just added restores both tables |
| FolderTree.Cascade | src/electron/storage/BookmarkManager.ts:45 | the cascade holds the id exactly when it is a folder, and stays within the table |
| FolderTree.CascadeClosed | src/electron/storage/BookmarkManager.ts:45 | no folder outside the cascade has its parent inside it |
| FolderTree.CascadeLeast | src/electron/storage/BookmarkManager.ts:45 | the cascade is contained in every closed set holding the id, so it deletes no more than the foreign keys force |
| FolderTree.ReachGrows | src/electron/storage/BookmarkManager.ts:45 | every round of reachability closes the set or adds a folder, so as many rounds as folders reach the fixpoint |
| Bookmarks.ExportBookmarks | src/electron/storage/BookmarkManager.ts:201-206 | every folder and every bookmark, each exactly once: the export is a permutation of both tables, folders by position ascending and bookmarks newest first |
| Bookmarks.AddFolders | src/electron/storage/BookmarkManager.ts:210-218 | the folder loop succeeds exactly when each parent is NULL, existing, imported earlier or the folder itself; then it appends one row per entry with consecutive fresh ids, the k-th stamped with its own clock reading `clock(tick + k)` |
| Bookmarks.AddBookmarks | src/electron/storage/BookmarkManager.ts:220-231 | the bookmark loop succeeds exactly when each folder exists; then it appends one row per entry with consecutive fresh ids, the k-th stamped with its own clock reading `clock(tick + k)` |
| Bookmarks.ImportBookmarks | src/electron/storage/BookmarkManager.ts:208-235 | the import succeeds exactly when every folder's parent and then every bookmark's folder resolves; then every folder and then every bookmark is appended with fresh ids, parent/folder ids copied as given, the folders stamped with the first clock readings and the bookmarks with the ones after; otherwise it fails with a foreign-key violation and nothing changes |
| Bookmarks.ImportedFolderAt | src/electron/storage/BookmarkManager.ts:210-218 | the k-th imported folder gets id next + k, the given name, parent and position, and its own clock reading `clock(tick + k)` |
| Bookmarks.ImportedBookmarkAt | src/electron/storage/BookmarkManager.ts:220-231 | the k-th imported bookmark gets id next + k, the given columns with empty favicon or tags stored as NULL, and its own clock reading `clock(tick + k)` |
| Bookmarks.ImportedFoldersKnown | src/electron/storage/BookmarkManager.ts:208-235 | the bookmarks of an import may be filed in folders of the same import: after the folder loop the known ids are the old ones and the fresh range |
| Bookmarks.ReimportDuplicates | src/electron/storage/BookmarkManager.ts:201-235 | importing the exported bookmarks duplicates every bookmark: an import never merges |
| Bookmarks.ExportedBookmarksResolve | src/electron/storage/BookmarkManager.ts:201-206 | every exported bookmark names NULL or an existing folder |
| Preferences.DefaultsAgree | src/electron/storage/PreferencesManager.ts:34-51 | the defaults object holds exactly the keys that have a default, with their documented values |
| Preferences.Get | src/electron/storage/PreferencesManager.ts:65-67 | a key reads as its stored value, or undefined |
| Preferences.Open | src/electron/storage/PreferencesManager.ts:56-63 | a key reads as the persisted value, or else its default |
| Preferences.FreshStoreHoldsDefaults | src/electron/storage/PreferencesManager.ts:34-51 | with nothing persisted every key reads as its default (theme `system`, font size 14, bookmarks bar and do-not-track on) and the API key as undefined |
| Preferences.Set | src/electron/storage/PreferencesManager.ts:69-71 | the key reads as the new value and every other key is unchanged; an undefined value is rejected |
| Preferences.SetOverwrites | src/electron/storage/PreferencesManager.ts:69-71 | the second of two writes to one key wins |
| Preferences.SetCommutes | src/electron/storage/PreferencesManager.ts:69-71 | writes to different keys commute |
| Preferences.GetAll | src/electron/storage/PreferencesManager.ts:73-75 | the object holds exactly what `get` reads for every key |
| Preferences.SetAll | src/electron/storage/PreferencesManager.ts:77-81 | keys not named in the batch keep their values; the batch is rejected exactly when some entry is undefined |
| Preferences.SetAllMerges | src/electron/storage/PreferencesManager.ts:77-81 | a fully defined batch sets exactly the keys it names, each to its last value |
| Preferences.SetAllStopsAtUndefined | src/electron/storage/PreferencesManager.ts:77-81 | a batch stopped by an undefined entry keeps the writes made before it |
| Preferences.Reset | src/electron/storage/PreferencesManager.ts:83-85 | every key reads as its default afterwards and the API key is absent |
| Preferences.ResetForgetsOverrides | src/electron/storage/PreferencesManager.ts:83-85 | after a reset the store equals a freshly opened one, whatever it held |
| Preferences.ResetToDefault | src/electron/storage/PreferencesManager.ts:87-89 | the key reads as its default and the rest are unchanged; for the API key, which has no default, the write is rejected |
| Preferences.ResetToDefaultAgreesWithReset | src/electron/storage/PreferencesManager.ts:83-89 | resetting one key agrees with a full reset on that key |
| Preferences.Export | src/electron/storage/PreferencesManager.ts:91-93 | the export holds exactly what `get` reads, as `getAll` does |
| Preferences.Import | src/electron/storage/PreferencesManager.ts:95-97 | an import has the outcome of the same batch given to `setAll` |
| Preferences.ImportExported | src/electron/storage/PreferencesManager.ts:91-97 | importing another store's export sets the exported keys to that store's values and keeps the rest |
| Dispatcher.Name | src/electron/storage/StorageIPCHandler.ts:21-146 | every channel name starts with its store's namespace |
| Dispatcher.NamesDistinct | src/electron/storage/StorageIPCHandler.ts:21-146 | no two channels share a name |
| Dispatcher.OperationsDistinct | src/electron/storage/StorageIPCHandler.ts:21-146 | within one store no two channels share an operation |
| Dispatcher.AllChannels | src/electron/storage/StorageIPCHandler.ts:19-147 | 31 channels are registered, each once |
| Dispatcher.Lookup | src/electron/storage/StorageIPCHandler.ts:21-146 | a name is answered by the channel registered under it, and by none when no channel has that name |
| Dispatcher.LookupName | src/electron/storage/StorageIPCHandler.ts:21-146 | an invocation reaches a channel exactly when it uses that channel's name |
| Dispatcher.NewHandler | src/electron/storage/StorageIPCHandler.ts:11-17 | both databases start open, the history table is taken as found, the bookmark store is the store opened with the call's first two clock readings (the missing default folders appended, every existing folder and bookmark kept), every preference reads as its persisted value or else its default, and valid stores give a valid handler |
| Dispatcher.ShapeRegistered | src/electron/storage/StorageIPCHandler.ts:21-146 | every command answers with its channel's return kind: query results, the new id for the two inserts, nothing otherwise |
| Dispatcher.Handle | src/electron/storage/StorageIPCHandler.ts:21-146 | a command touches only its own store; a query changes nothing; a rejection other than a batch write changes nothing; a closed database rejects; the store invariants are kept |
| Dispatcher.RunHistory | src/electron/storage/StorageIPCHandler.ts:21-59 | a history command touches only the history store, a query changes nothing, and the answer has the channel's kind |
| Dispatcher.RunBookmarks | src/electron/storage/StorageIPCHandler.ts:61-117 | a bookmark command touches only the bookmark store; its only rejection is a foreign-key violation, which changes nothing; a query changes nothing |
| Dispatcher.RunPreferences | src/electron/storage/StorageIPCHandler.ts:119-146 | the only rejection is an undefined value, and only the batch writes may leave partial changes behind |
| Dispatcher.Cleanup | src/electron/storage/StorageIPCHandler.ts:149-152 | closes the two databases and leaves all data and the preference store alone |
| Dispatcher.AfterCleanup | src/electron/storage/StorageIPCHandler.ts:149-152 | after shutdown every history and bookmark command is rejected while preference commands answer as before |
| Dispatcher.Run | src/electron/storage/StorageIPCHandler.ts:21-152 | any run of calls, each command with its own clock readings, keeps every store's invariants and never opens or closes a database |
| Dispatcher.RunIsolatesHistory | src/electron/storage/StorageIPCHandler.ts:61-146 | a run of bookmark and preference commands never changes the history store |
| Browser.Initial | src/ui/components/Browser.tsx:33-36 | the first window is valid, with one blank tab "1" active |
| Browser.ActiveTab | src/ui/components/Browser.tsx:48 | the active tab, when there is one, is a listed tab with the active id |
| Browser.IndexOf | src/ui/components/Browser.tsx:129 | the position of the first tab with the id, or -1 exactly when no tab has it |
| Browser.PageTitle | src/ui/components/Browser.tsx:146 | the title is never empty: `New Page` when the address without its http(s) scheme is empty or starts with `/`, and otherwise the prefix of that address up to its first `/` or its end |
| Browser.PageTitleUnique | src/ui/components/Browser.tsx:146 | any slash-free prefix that runs to a `/` or the end of the scheme-less address is the title, so the title is determined by the address |
| Browser.PageTitleExamples | src/ui/components/Browser.tsx:146 | `https://a.io/b` is titled `a.io`; a bare scheme gives `New Page` |
| Browser.Visit | src/ui/components/Browser.tsx:153-165 | the tab's list is cut after the shown entry and the new address appended and shown; the tab stays positioned |
| Browser.Navigate | src/ui/components/Browser.tsx:137-168 | with an active tab, one item is prepended to the session history and only the active tab visits the address; without one nothing changes; validity is kept |
| Browser.MoveTo | src/ui/components/Browser.tsx:170-196 | showing entry i of the active tab's list changes only that tab's address and position and keeps the window valid |
| Browser.GoBack | src/ui/components/Browser.tsx:170-182 | a no-op unless back is enabled; otherwise only the active tab moves one entry back, showing it, with its list unchanged |
| Browser.GoForward | src/ui/components/Browser.tsx:184-196 | a no-op unless forward is enabled; otherwise only the active tab moves one entry forward |
| Browser.BackThenForward | src/ui/components/Browser.tsx:170-196 | forward after back returns the tab to the entry it showed |
| Browser.NavigateThenBack | src/ui/components/Browser.tsx:137-182 | after a navigation back is enabled, forward is not, and back shows the page shown before |
| Browser.NewTab | src/ui/components/Browser.tsx:107-117 | appends one blank tab and makes it active; validity is kept for a fresh id |
| Browser.Home | src/ui/components/Browser.tsx:204-212 | only the active tab is blanked and titled `New Tab`; its back/forward list is untouched |
| Browser.SelectTab | src/ui/components/Browser.tsx:266 | clicking a listed tab makes it active and changes nothing else |
| Browser.CloseTabAsWritten | src/ui/components/Browser.tsx:119-135 | the close as written: the tab goes, a blank tab replaces the last one, and the active id moves to the previous or else the next neighbour, or stays when there is none |
| Browser.CloseSoleTabLosesActive | src/ui/components/Browser.tsx:119-135 | closing the only tab leaves the window with no active tab, after which navigation does nothing |
| Browser.CloseTab | src/ui/components/Browser.tsx:119-135 | the mended close: every other tab stays, the list is never empty, the closed id is gone unless it is replaced by the blank tab, and closing an inactive tab keeps the active one |
| Browser.CloseTabPicksNeighbour | src/ui/components/Browser.tsx:128-134 | closing the active tab activates the previous neighbour, or else the next |
| Browser.CloseTabKeepsValid | src/ui/components/Browser.tsx:119-135 | the mended close keeps the window valid: it always has an active tab |
| Browser.CloseTabAsWrittenKeepsValid | src/ui/components/Browser.tsx:119-135 | the close as written keeps a valid window valid whenever another tab survives: the closed active tab always has a neighbour then |
| Browser.ClearHistory | src/ui/components/Browser.tsx:218 | the session history is emptied, nothing else changes |
| Browser.Toggle | src/ui/components/Browser.tsx:226 | a paused download resumes; any other one is paused; nothing but the status changes |
| Browser.ToggleTwice | src/ui/components/Browser.tsx:220-231 | two presses restore a downloading or paused item |
| Browser.PauseResume | src/ui/components/Browser.tsx:220-231 | only the items with the id toggle |
| Browser.Cancel | src/ui/components/Browser.tsx:233-235 | exactly the items with the id leave, the rest keep their order |
| Browser.OpenDownload | src/ui/components/Browser.tsx:237-247 | the items with the id get the time of the click; an unknown id changes nothing |
| Browser.ClearCompleted | src/ui/components/Browser.tsx:249-251 | exactly the completed items leave, the rest keep their order |
| Browser.ClearCompletedIdempotent | src/ui/components/Browser.tsx:249-251 | clearing twice equals clearing once |
| NavigationBar.Submit | src/ui/components/NavigationBar.tsx:46-53 | blank input loads nothing; otherwise the trimmed input is loaded when it contains `://`, and is loaded with `https://` in front when it does not |
| NavigationBar.SubmitSettles | src/ui/components/NavigationBar.tsx:46-53 | submitting what a submission loaded loads the same address |
| NavigationBar.BookmarkTitle | src/ui/components/NavigationBar.tsx:68 | the page title, else the host, else the whole address, never empty for a non-empty address |
| NavigationBar.AddBookmarkRequest | src/ui/components/NavigationBar.tsx:55-77 | nothing unless the address starts with `http`; otherwise the page's address and derived title go to the Bookmarks Bar at position 0, with the favicon or `''` |
| NavigationBar.StarButtonLands | src/ui/components/NavigationBar.tsx:55-77 | the request always succeeds against an opened bookmark store |
| Panels.FilterHistory | src/ui/components/HistoryPanel.tsx:33-36 | an item is kept exactly when its lower-cased title or address contains the lower-cased term; order is kept; the empty term keeps all |
| Panels.NoHistoryFoundIff | src/ui/components/HistoryPanel.tsx:121-123 | "No history found" shows exactly when no item matches; with an empty term, exactly when there is no history |
| Panels.FilterTabs | src/ui/components/TabSearch.tsx:28-31 | a tab is listed exactly when its lower-cased title or address contains the lower-cased term; order is kept; the empty term lists all |
| Panels.Select | src/ui/components/TabSearch.tsx:33-37 | the picked id becomes active, the switcher closes and its term is cleared |
| Panels.SelectListed | src/ui/components/TabSearch.tsx:33-37 | picking a listed tab activates exactly that tab and keeps the window valid; the reopened switcher lists every tab |
| LegacyApp.Initial | app/src/App.js:67-73 | one home tab with id 1, active, its address in the bar, no bookmarks or history |
| LegacyApp.NextId | app/src/App.js:112 | the new id exceeds every existing id and is 1 for an empty strip |
| LegacyApp.MaxId | app/src/App.js:112 | the largest id of a non-empty strip: no tab exceeds it and some tab has it |
| LegacyApp.NewTab | app/src/App.js:111-116 | appends a home tab with an unused id, makes it active and puts its address in the bar |
| LegacyApp.NewTabValid | app/src/App.js:111-116 | a new tab keeps ids distinct and the active tab is the new home tab |
| LegacyApp.TabClick | app/src/App.js:117-121 | the clicked tab becomes active and its address fills the bar; an unknown id has no tab to read |
| LegacyApp.TabClickSettles | app/src/App.js:117-121 | clicking the same tab twice equals clicking it once |
| LegacyApp.CloseTab | app/src/App.js:122-128 | the list is never empty (a home tab with id 1 replaces it), the first tab becomes active and its address fills the bar |
| LegacyApp.CloseTabValid | app/src/App.js:122-128 | a close keeps ids distinct and the active tab is the first one |
| LegacyApp.AddBookmark | app/src/App.js:131-133 | the address joins the list unless already present, so the list stays duplicate-free |
| LegacyApp.RemoveBookmark | app/src/App.js:134-136 | every copy of the address goes, the rest keep their order |
| LegacyApp.RemoveKeepsDistinct | app/src/App.js:134-136 | removing an address keeps the bookmark list duplicate-free |
| LegacyApp.AddThenRemove | app/src/App.js:131-136 | removing what was just bookmarked restores the app |
| LegacyApp.OpenUrl | app/src/App.js:137-146 | a bookmark or history click changes only the active tab's address and the bar |
| LegacyApp.Target | app/src/App.js:100-106 | a valid URL is loaded as typed; anything else becomes the search prefix followed by an escaped query |
| LegacyApp.SearchCarriesAddress | app/src/App.js:104 | the escaped query decodes back to exactly what was typed and holds no `&`, `#` or space |
| LegacyApp.Go | app/src/App.js:101-108 | only the active tab loads the target, which is appended to the history; the bar keeps the text |
| LegacyApp.GoIsOpenAndRecord | app/src/App.js:101-108 | going to a valid URL loads what a bookmark click would, and also records it |
| UriComponent.EncodeChar | app/src/App.js:104 | an unreserved character stays as it is; any other becomes escapes from the safe alphabet |
| UriComponent.Encode | app/src/App.js:104 | the output uses only unreserved characters and `%`, and a string of unreserved characters is unchanged |
| UriComponent.EncodeEndsNoParameter | app/src/App.js:104 | no `&`, `#`, `=` or space survives encoding |
| UriComponent.Utf8Assembles | app/src/App.js:104 | a character's UTF-8 bytes are well formed and spell its code point in shortest form |
| UriComponent.Decode | app/src/App.js:104 | a string without `%` decodes to itself; decoding never lengthens |
| UriComponent.DecodeEncode | app/src/App.js:104 | decoding the encoding of any string gives the string back |

## Left out

- SQLite, better-sqlite3 and electron-store mechanics: connections, prepared statements, indexes, the preference file's encryption key and the change listeners. Tables are sequences and a transaction is "old state on failure".
- `LIKE` wildcards: a `%` or `_` inside a search term is matched as an ordinary character. Case folding is ASCII-only, both for `LIKE` and for JavaScript's `toLowerCase`.
- Preferences.PrefValue: numbers are Dafny reals and stored values are not type-checked per key. Unknown keys, JSON `null` and nested values are not modelled.
- FolderTree.Reach: reachability is computed with fuel. Cascade gives it as many rounds as there are folders, which ReachGrows shows is enough.
- Bookmarks.ImportBookmarks: the hierarchy is not guaranteed to survive an export/import round trip, because parent and folder ids are copied as given while new ids are issued. The model states this (ReimportDuplicates) instead of a round trip.
- Dispatcher.Handle: there is no error wrapping; a store's error rejects the invocation as it is. Argument decoding from untyped IPC messages is left out, since commands arrive already typed.
- NavigationBar.AddBookmarkRequest: the check that the bridge API is present, the loading flag, the console output and the failure alert are left out. A store error is the dispatcher's rejection.
- Browser.GoBack: requires a positioned active tab when there is one, which every reachable window satisfies (Browser.Valid); the source reads `history[newIndex]` without a check.
- Browser.Toggle: completed and failed downloads are paused too, since the code only tests for `paused`.
- Browser.Navigate: the one-second `setTimeout` and the loading flag are left out, so a navigation lands at once. The item's `new Date()` is the parameter `now`.
- Rendering, the keyboard-shortcut listener, refresh, panel open/close flags, the AI assistant (a network call), the date grouping of the history panel and the size formatting of the downloads panel (floating point).
- The IPC bridge and hooks (preload scripts and the storage hook), type declarations, app bootstrap, the build config and the backend server.
- LegacyApp.Target: whether an address is a valid URL is decided by the platform's URL parser and is a parameter `isValidUrl`.
- UriComponent.Encode: Dafny strings hold Unicode scalar values only, so the `URIError` that `encodeURIComponent` raises for a lone surrogate cannot arise. Characters are handled as whole code points, not UTF-16 units.
- LegacyApp: the embedded page's back, forward and reload (app/src/App.js:80-88), the settings toggle (149-150), the dummy download list (153-155) and the dark-mode effect (160-162) are not part of the state.
- History.UpdateDuration: durations are whole milliseconds (`int`); a fractional amount passed over the bridge is not modelled.
- LegacyApp.TabClick: an id with no tab, where the code would read a property of `undefined`, is `None`.

## Findings

| source | as written | input that shows it | evidently intended | confidence | as-written member | corrected member |
|---|---|---|---|---|---|---|
| src/ui/components/Browser.tsx:119-135 | closing the last tab replaces it by a fresh blank tab, but the active id is only moved when a neighbour exists, so it keeps naming the removed tab | a fresh window (tab "1" only), close tab "1": the tabs are the new blank tab, the active id is still "1", no tab is active and a navigation then does nothing | the fresh blank tab becomes the active tab | not executed | Browser.CloseSoleTabLosesActive | Browser.CloseTabKeepsValid |
