/** The storage command dispatcher: one handler object owns the three
    stores, constructed together, and answers a fixed set of named
    channels, each forwarding its arguments to exactly one store method.
    Handlers do not catch anything: a store's error rejects the invocation
    as it is. The shutdown step closes the two database-backed stores; the
    preference store stays usable. The clock is a parameter `clock`: the
    readings of `Date.now()` an invocation takes, `clock(0)` first, then
    `clock(1)` and so on. */
module Dispatcher {
  import opened Wrappers
  import opened Text
  import History
  import Bookmarks
  import FolderTree
  import Preferences

  /** The three stores a channel can belong to. */
  datatype Store = HistoryStore | BookmarkStore | PreferenceStore

  /** The channels `registerHandlers` installs. */
  datatype Channel =
    | HistoryAdd | HistoryGet | HistorySearch | HistoryGetByDate | HistoryDelete
    | HistoryClear | HistoryGetTopVisited | HistoryUpdateDuration | HistoryAddSearch
    | HistoryGetSearchHistory
    | BookmarksAdd | BookmarksGet | BookmarksGetAll | BookmarksSearch | BookmarksUpdate
    | BookmarksDelete | BookmarksMove | BookmarksAddFolder | BookmarksGetFolders
    | BookmarksGetAllFolders | BookmarksUpdateFolder | BookmarksDeleteFolder
    | BookmarksExport | BookmarksImport
    | PreferencesGet | PreferencesSet | PreferencesGetAll | PreferencesSetAll
    | PreferencesReset | PreferencesExport | PreferencesImport

  /** The store whose manager serves the channel. */
  function StoreOf(c: Channel): Store {
    match c
    case HistoryAdd | HistoryGet | HistorySearch | HistoryGetByDate | HistoryDelete
       | HistoryClear | HistoryGetTopVisited | HistoryUpdateDuration | HistoryAddSearch
       | HistoryGetSearchHistory => HistoryStore
    case PreferencesGet | PreferencesSet | PreferencesGetAll | PreferencesSetAll
       | PreferencesReset | PreferencesExport | PreferencesImport => PreferenceStore
    case _ => BookmarkStore
  }

  /** The namespace in front of a channel's operation name. */
  function Namespace(s: Store): string {
    match s
    case HistoryStore => "history:"
    case BookmarkStore => "bookmarks:"
    case PreferenceStore => "preferences:"
  }

  /** The operation part of a channel's name. */
  function Operation(c: Channel): string {
    match c
    case HistoryAdd => "add"
    case HistoryGet => "get"
    case HistorySearch => "search"
    case HistoryGetByDate => "getByDate"
    case HistoryDelete => "delete"
    case HistoryClear => "clear"
    case HistoryGetTopVisited => "getTopVisited"
    case HistoryUpdateDuration => "updateDuration"
    case HistoryAddSearch => "addSearch"
    case HistoryGetSearchHistory => "getSearchHistory"
    case BookmarksAdd => "add"
    case BookmarksGet => "get"
    case BookmarksGetAll => "getAll"
    case BookmarksSearch => "search"
    case BookmarksUpdate => "update"
    case BookmarksDelete => "delete"
    case BookmarksMove => "move"
    case BookmarksAddFolder => "addFolder"
    case BookmarksGetFolders => "getFolders"
    case BookmarksGetAllFolders => "getAllFolders"
    case BookmarksUpdateFolder => "updateFolder"
    case BookmarksDeleteFolder => "deleteFolder"
    case BookmarksExport => "export"
    case BookmarksImport => "import"
    case PreferencesGet => "get"
    case PreferencesSet => "set"
    case PreferencesGetAll => "getAll"
    case PreferencesSetAll => "setAll"
    case PreferencesReset => "reset"
    case PreferencesExport => "export"
    case PreferencesImport => "import"
  }

  /** The channel's registered name, such as `history:add`. */
  function Name(c: Channel): (r: string)
    ensures IsPrefix(Namespace(StoreOf(c)), r)
  {
    var r := Namespace(StoreOf(c)) + Operation(c);
    assert r[..|Namespace(StoreOf(c))|] == Namespace(StoreOf(c));
    r
  }

  /** Channels of one store have distinct operation names. */
  lemma OperationsDistinct(a: Channel, b: Channel)
    requires StoreOf(a) == StoreOf(b) && Operation(a) == Operation(b)
    ensures a == b
  {
  }

  /** The namespace is recovered from a name: the three namespaces start
      with different letters. */
  lemma NamespaceOfName(a: Channel, b: Channel)
    requires Name(a) == Name(b)
    ensures StoreOf(a) == StoreOf(b)
  {
    NameInitial(a);
    NameInitial(b);
    NamespaceInitials(StoreOf(a), StoreOf(b));
  }

  lemma NameInitial(c: Channel)
    ensures |Name(c)| > 0 && Name(c)[0] == Namespace(StoreOf(c))[0]
  {
    var n := Namespace(StoreOf(c));
    assert |n| > 0;
    assert Name(c)[..|n|] == n;
  }

  lemma NamespaceInitials(s: Store, t: Store)
    requires Namespace(s)[0] == Namespace(t)[0]
    ensures s == t
  {
  }

  /** No two channels share a name. */
  lemma NamesDistinct(a: Channel, b: Channel)
    requires Name(a) == Name(b)
    ensures a == b
  {
    NamespaceOfName(a, b);
    var n := |Namespace(StoreOf(a))|;
    assert Operation(a) == Name(a)[n..];
    assert Operation(b) == Name(b)[n..];
    OperationsDistinct(a, b);
  }

  /** The position of a channel in registration order. */
  function Index(c: Channel): (r: nat)
    ensures r < 31
  {
    match c
    case HistoryAdd => 0
    case HistoryGet => 1
    case HistorySearch => 2
    case HistoryGetByDate => 3
    case HistoryDelete => 4
    case HistoryClear => 5
    case HistoryGetTopVisited => 6
    case HistoryUpdateDuration => 7
    case HistoryAddSearch => 8
    case HistoryGetSearchHistory => 9
    case BookmarksAdd => 10
    case BookmarksGet => 11
    case BookmarksGetAll => 12
    case BookmarksSearch => 13
    case BookmarksUpdate => 14
    case BookmarksDelete => 15
    case BookmarksMove => 16
    case BookmarksAddFolder => 17
    case BookmarksGetFolders => 18
    case BookmarksGetAllFolders => 19
    case BookmarksUpdateFolder => 20
    case BookmarksDeleteFolder => 21
    case BookmarksExport => 22
    case BookmarksImport => 23
    case PreferencesGet => 24
    case PreferencesSet => 25
    case PreferencesGetAll => 26
    case PreferencesSetAll => 27
    case PreferencesReset => 28
    case PreferencesExport => 29
    case PreferencesImport => 30
  }

  /** Every channel, in registration order: 31 of them, none twice. */
  function AllChannels(): (r: seq<Channel>)
    ensures |r| == 31
    ensures forall c :: r[Index(c)] == c
  {
    [HistoryAdd, HistoryGet, HistorySearch, HistoryGetByDate, HistoryDelete,
     HistoryClear, HistoryGetTopVisited, HistoryUpdateDuration, HistoryAddSearch,
     HistoryGetSearchHistory,
     BookmarksAdd, BookmarksGet, BookmarksGetAll, BookmarksSearch, BookmarksUpdate,
     BookmarksDelete, BookmarksMove, BookmarksAddFolder, BookmarksGetFolders,
     BookmarksGetAllFolders, BookmarksUpdateFolder, BookmarksDeleteFolder,
     BookmarksExport, BookmarksImport,
     PreferencesGet, PreferencesSet, PreferencesGetAll, PreferencesSetAll,
     PreferencesReset, PreferencesExport, PreferencesImport]
  }

  /** The channel an invocation names, if a handler is registered for it;
      an unregistered name has none and the invocation is rejected. */
  function Lookup(name: string): (r: Option<Channel>)
    ensures r.Some? ==> Name(r.value) == name
    ensures r.None? ==> forall c :: Name(c) != name
  {
    var r := FindName(AllChannels(), name);
    assert r.None? ==> forall c :: Name(c) != name by {
      if r.None? {
        forall c ensures Name(c) != name {
          assert AllChannels()[Index(c)] == c;
        }
      }
    }
    r
  }

  function FindName(cs: seq<Channel>, name: string): (r: Option<Channel>)
    ensures r.Some? ==> Name(r.value) == name
    ensures r.None? ==> forall i :: 0 <= i < |cs| ==> Name(cs[i]) != name
  {
    if cs == [] then None
    else if Name(cs[0]) == name then Some(cs[0])
    else
      var r := FindName(cs[1..], name);
      assert forall i :: 0 < i < |cs| ==> cs[i] == cs[1..][i - 1];
      r
  }

  /** Every channel is found under its own name, and under no other. */
  lemma LookupName(c: Channel, name: string)
    ensures Lookup(name) == Some(c) <==> name == Name(c)
  {
    var r := Lookup(Name(c));
    if r.Some? {
      NamesDistinct(r.value, c);
    }
  }

  /** The history store's commands, with their positional arguments
      decoded; an omitted optional argument is `None`. */
  datatype HistoryCommand =
    | AddVisit(url: string, title: string, favicon: Option<string>)
    | GetHistory(limit: Option<int>, offset: Option<int>)
    | SearchHistory(query: string, searchLimit: Option<int>)
    | GetHistoryByDate(start: int, end: int)
    | DeleteHistory(deleteUrl: string)
    | ClearHistory(olderThan: Option<int>)
    | GetTopVisited(topLimit: Option<int>)
    | UpdateDuration(durationUrl: string, duration: int)
    | AddSearchQuery(searched: string, resultUrl: Option<string>)
    | GetSearchHistory(logLimit: Option<int>)

  /** The bookmark store's commands. */
  datatype BookmarkCommand =
    | AddBookmark(bookmark: Bookmarks.NewBookmark)
    | GetBookmarks(folderId: Option<int>)
    | GetAllBookmarks
    | SearchBookmarks(query: string)
    | UpdateBookmark(id: int, patch: Bookmarks.BookmarkPatch)
    | DeleteBookmark(bookmarkId: int)
    | MoveBookmark(movedId: int, toFolder: Option<int>, position: int)
    | AddFolder(folder: Bookmarks.NewFolder)
    | GetFolders(parentId: Option<int>)
    | GetAllFolders
    | UpdateFolder(folderId': int, folderPatch: Bookmarks.FolderPatch)
    | DeleteFolder(deletedFolder: int)
    | ExportBookmarks
    | ImportBookmarks(folders: Option<seq<FolderTree.Folder>>, bookmarks: Option<seq<Bookmarks.Bookmark>>)

  /** The preference store's commands. */
  datatype PreferenceCommand =
    | GetPreference(key: Preferences.PrefKey)
    | SetPreference(setKey: Preferences.PrefKey, value: Option<Preferences.PrefValue>)
    | GetAllPreferences
    | SetAllPreferences(entries: seq<Preferences.Entry>)
    | ResetPreferences
    | ExportPreferences
    | ImportPreferences(imported: seq<Preferences.Entry>)

  /** An invocation, grouped by the store that serves it. */
  datatype Command =
    | OnHistory(history: HistoryCommand)
    | OnBookmarks(bookmarkCmd: BookmarkCommand)
    | OnPreferences(preference: PreferenceCommand)

  /** The channel a command is sent on. */
  function ChannelOf(cmd: Command): (c: Channel)
    ensures StoreOf(c) == (match cmd
                           case OnHistory(_) => HistoryStore
                           case OnBookmarks(_) => BookmarkStore
                           case OnPreferences(_) => PreferenceStore)
  {
    match cmd
    case OnHistory(hc) =>
      (match hc
       case AddVisit(_, _, _) => HistoryAdd
       case GetHistory(_, _) => HistoryGet
       case SearchHistory(_, _) => HistorySearch
       case GetHistoryByDate(_, _) => HistoryGetByDate
       case DeleteHistory(_) => HistoryDelete
       case ClearHistory(_) => HistoryClear
       case GetTopVisited(_) => HistoryGetTopVisited
       case UpdateDuration(_, _) => HistoryUpdateDuration
       case AddSearchQuery(_, _) => HistoryAddSearch
       case GetSearchHistory(_) => HistoryGetSearchHistory)
    case OnBookmarks(bc) =>
      (match bc
       case AddBookmark(_) => BookmarksAdd
       case GetBookmarks(_) => BookmarksGet
       case GetAllBookmarks => BookmarksGetAll
       case SearchBookmarks(_) => BookmarksSearch
       case UpdateBookmark(_, _) => BookmarksUpdate
       case DeleteBookmark(_) => BookmarksDelete
       case MoveBookmark(_, _, _) => BookmarksMove
       case AddFolder(_) => BookmarksAddFolder
       case GetFolders(_) => BookmarksGetFolders
       case GetAllFolders => BookmarksGetAllFolders
       case UpdateFolder(_, _) => BookmarksUpdateFolder
       case DeleteFolder(_) => BookmarksDeleteFolder
       case ExportBookmarks => BookmarksExport
       case ImportBookmarks(_, _) => BookmarksImport)
    case OnPreferences(pc) =>
      (match pc
       case GetPreference(_) => PreferencesGet
       case SetPreference(_, _) => PreferencesSet
       case GetAllPreferences => PreferencesGetAll
       case SetAllPreferences(_) => PreferencesSetAll
       case ResetPreferences => PreferencesReset
       case ExportPreferences => PreferencesExport
       case ImportPreferences(_) => PreferencesImport)
  }

  /** What an invocation resolves to. `Done` is a handler that returns
      nothing; `Failed` is a rejected invocation. */
  datatype Response =
    | Done
    | Visits(visits: seq<History.Visit>)
    | Searches(queries: seq<History.SearchQuery>)
    | Marks(marks: seq<Bookmarks.Bookmark>)
    | Folders(folderRows: seq<FolderTree.Folder>)
    | NewId(newId: int)
    | Exported(tables: Bookmarks.Export)
    | Value(found: Option<Preferences.PrefValue>)
    | AllValues(prefs: Preferences.Prefs)
    | Failed(error: StoreError)

  /** The kinds of response. */
  datatype Shape = NoResult | IdResult | VisitRows | SearchRows | BookmarkRows | FolderRows
                 | Tables | OneValue | AllPrefs | Rejection

  function ShapeOf(r: Response): Shape {
    match r
    case Done => NoResult
    case Visits(_) => VisitRows
    case Searches(_) => SearchRows
    case Marks(_) => BookmarkRows
    case Folders(_) => FolderRows
    case NewId(_) => IdResult
    case Exported(_) => Tables
    case Value(_) => OneValue
    case AllValues(_) => AllPrefs
    case Failed(_) => Rejection
  }

  /** What a channel's handler returns: the manager's result for a query,
      the new id for the two inserts, nothing for every other change. */
  function Returns(c: Channel): (s: Shape)
    ensures s != Rejection
  {
    match c
    case HistoryAdd | HistoryDelete | HistoryClear | HistoryUpdateDuration | HistoryAddSearch => NoResult
    case HistoryGet | HistorySearch | HistoryGetByDate | HistoryGetTopVisited => VisitRows
    case HistoryGetSearchHistory => SearchRows
    case BookmarksAdd | BookmarksAddFolder => IdResult
    case BookmarksGet | BookmarksGetAll | BookmarksSearch => BookmarkRows
    case BookmarksGetFolders | BookmarksGetAllFolders => FolderRows
    case BookmarksExport => Tables
    case BookmarksUpdate | BookmarksDelete | BookmarksMove | BookmarksUpdateFolder
       | BookmarksDeleteFolder | BookmarksImport => NoResult
    case PreferencesGet => OneValue
    case PreferencesGetAll | PreferencesExport => AllPrefs
    case PreferencesSet | PreferencesSetAll | PreferencesReset | PreferencesImport => NoResult
  }

  /** A response that only reports what is stored. */
  predicate Reads(s: Shape) {
    s != NoResult && s != IdResult
  }

  /** A channel that only reads. */
  predicate IsQuery(c: Channel) {
    Reads(Returns(c))
  }

  /** The handler object: the three stores and whether each database
      connection is still open. */
  datatype Handler = Handler(
    history: History.HistoryDb,
    bookmarks: Bookmarks.BookmarkDb,
    prefs: Preferences.Prefs,
    historyOpen: bool,
    bookmarksOpen: bool)

  /** The state every store keeps consistent. */
  ghost predicate Valid(h: Handler) {
    History.Valid(h.history) && Bookmarks.Valid(h.bookmarks)
  }

  /** The constructor: the three managers are created over what is on disk,
      all before any channel is answered; the bookmark database gets its
      two default folders. */
  function NewHandler(history: History.HistoryDb, bookmarks: Bookmarks.BookmarkDb,
                      persisted: Preferences.Prefs, clock: nat -> int): (r: Handler)
    ensures r.historyOpen && r.bookmarksOpen
    ensures r.history == history
    ensures r.bookmarks == Bookmarks.Init(bookmarks, clock(0), clock(1))
    ensures Bookmarks.BarId in FolderTree.FolderIds(r.bookmarks.folders)
    ensures Bookmarks.OtherId in FolderTree.FolderIds(r.bookmarks.folders)
    ensures |r.bookmarks.folders| >= |bookmarks.folders| && r.bookmarks.folders[..|bookmarks.folders|] == bookmarks.folders
    ensures r.bookmarks.bookmarks == bookmarks.bookmarks
    ensures forall k :: Preferences.Get(r.prefs, k)
                     == if k in persisted then Some(persisted[k]) else Preferences.Default(k)
    ensures History.Valid(history) && Bookmarks.Valid(bookmarks) ==> Valid(r)
  {
    Handler(history, Bookmarks.Init(bookmarks, clock(0), clock(1)), Preferences.Open(persisted), true, true)
  }

  /** A response and the handler after it. */
  datatype Outcome = Outcome(response: Response, handler: Handler)

  /** What each history command answers with. */
  function HistoryShape(hc: HistoryCommand): Shape {
    match hc
    case GetHistory(_, _) => VisitRows
    case SearchHistory(_, _) => VisitRows
    case GetHistoryByDate(_, _) => VisitRows
    case GetTopVisited(_) => VisitRows
    case GetSearchHistory(_) => SearchRows
    case _ => NoResult
  }

  /** The history queries, one per channel, each answering with the
      manager's rows. */
  function RecentVisits(db: History.HistoryDb, hc: HistoryCommand): (r: Response)
    requires hc.GetHistory?
    ensures ShapeOf(r) == HistoryShape(hc)
  { Visits(History.GetHistory(db, hc.limit, hc.offset)) }
  function MatchingVisits(db: History.HistoryDb, hc: HistoryCommand): (r: Response)
    requires hc.SearchHistory?
    ensures ShapeOf(r) == HistoryShape(hc)
  { Visits(History.SearchHistory(db, hc.query, hc.searchLimit)) }
  function VisitsBetween(db: History.HistoryDb, hc: HistoryCommand): (r: Response)
    requires hc.GetHistoryByDate?
    ensures ShapeOf(r) == HistoryShape(hc)
  { Visits(History.GetHistoryByDate(db, hc.start, hc.end)) }
  function TopVisits(db: History.HistoryDb, hc: HistoryCommand): (r: Response)
    requires hc.GetTopVisited?
    ensures ShapeOf(r) == HistoryShape(hc)
  { Visits(History.GetTopVisited(db, hc.topLimit)) }
  function RecentSearches(db: History.HistoryDb, hc: HistoryCommand): (r: Response)
    requires hc.GetSearchHistory?
    ensures ShapeOf(r) == HistoryShape(hc)
  {
    assert HistoryShape(hc) == SearchRows;
    Searches(History.GetSearchHistory(db, hc.logLimit))
  }

  /** A history query: the rows the manager returns. */
  function HistoryQuery(db: History.HistoryDb, hc: HistoryCommand): (r: Response)
    requires Reads(HistoryShape(hc))
    ensures ShapeOf(r) == HistoryShape(hc)
  {
    match hc
    case GetHistory(_, _) => RecentVisits(db, hc)
    case SearchHistory(_, _) => MatchingVisits(db, hc)
    case GetHistoryByDate(_, _) => VisitsBetween(db, hc)
    case GetTopVisited(_) => TopVisits(db, hc)
    case GetSearchHistory(_) => RecentSearches(db, hc)
  }

  /** A history change: the table after it. */
  function HistoryChange(db: History.HistoryDb, hc: HistoryCommand, now: int): (r: History.HistoryDb)
    requires !Reads(HistoryShape(hc))
    ensures History.Valid(db) ==> History.Valid(r)
  {
    match hc
    case AddVisit(url, title, favicon) => History.AddVisit(db, url, title, favicon, now)
    case DeleteHistory(url) => History.DeleteHistory(db, url)
    case ClearHistory(t) => History.ClearHistory(db, t)
    case UpdateDuration(url, d) => History.UpdateDuration(db, url, d)
    case AddSearchQuery(q, u) => History.AddSearchQuery(db, q, u, now)
  }

  /** A history command on an open connection: queries leave the table
      as it was, changes answer nothing. */
  function RunHistory(h: Handler, hc: HistoryCommand, clock: nat -> int): (r: Outcome)
    ensures r.handler == h.(history := r.handler.history)
    ensures ShapeOf(r.response) == HistoryShape(hc)
    ensures Reads(HistoryShape(hc)) ==> r.handler == h
    ensures History.Valid(h.history) ==> History.Valid(r.handler.history)
  {
    if Reads(HistoryShape(hc)) then Outcome(HistoryQuery(h.history, hc), h)
    else Outcome(Done, h.(history := HistoryChange(h.history, hc, clock(0))))
  }

  /** A change that the database may reject: a rejection leaves the
      handler as it was. */
  function Commit(h: Handler, r: Result<Bookmarks.BookmarkDb, StoreError>): (o: Outcome)
    ensures o.response.Failed? <==> r.Err?
    ensures o.response.Failed? ==> o.handler == h && o.response.error == r.error
    ensures !o.response.Failed? ==> o.response == Done && o.handler == h.(bookmarks := r.value)
  {
    match r
    case Ok(db) => Outcome(Done, h.(bookmarks := db))
    case Err(e) => Outcome(Failed(e), h)
  }

  /** An insert: the new id is the answer. */
  function CommitInsert(h: Handler, r: Result<Bookmarks.Inserted, StoreError>): (o: Outcome)
    ensures o.response.Failed? <==> r.Err?
    ensures o.response.Failed? ==> o.handler == h && o.response.error == r.error
    ensures !o.response.Failed? ==> o.response == NewId(r.value.id) && o.handler == h.(bookmarks := r.value.db)
  {
    match r
    case Ok(ins) => Outcome(NewId(ins.id), h.(bookmarks := ins.db))
    case Err(e) => Outcome(Failed(e), h)
  }

  /** What each bookmark command answers with. */
  function BookmarkShape(bc: BookmarkCommand): Shape {
    match bc
    case AddBookmark(_) => IdResult
    case AddFolder(_) => IdResult
    case GetBookmarks(_) => BookmarkRows
    case GetAllBookmarks => BookmarkRows
    case SearchBookmarks(_) => BookmarkRows
    case GetFolders(_) => FolderRows
    case GetAllFolders => FolderRows
    case ExportBookmarks => Tables
    case _ => NoResult
  }

  /** The bookmark queries, one per channel, each answering with the
      manager's result. */
  function ListInFolder(db: Bookmarks.BookmarkDb, bc: BookmarkCommand): (r: Response)
    requires bc.GetBookmarks?
    ensures ShapeOf(r) == BookmarkShape(bc)
  { Marks(Bookmarks.GetBookmarks(db, bc.folderId)) }
  function ListAll(db: Bookmarks.BookmarkDb, bc: BookmarkCommand): (r: Response)
    requires bc.GetAllBookmarks?
    ensures ShapeOf(r) == BookmarkShape(bc)
  { Marks(Bookmarks.GetAllBookmarks(db)) }
  function ListMatching(db: Bookmarks.BookmarkDb, bc: BookmarkCommand): (r: Response)
    requires bc.SearchBookmarks?
    ensures ShapeOf(r) == BookmarkShape(bc)
  { Marks(Bookmarks.SearchBookmarks(db, bc.query)) }
  function ListFolders(db: Bookmarks.BookmarkDb, bc: BookmarkCommand): (r: Response)
    requires bc.GetFolders?
    ensures ShapeOf(r) == BookmarkShape(bc)
  { Folders(Bookmarks.GetFolders(db, bc.parentId)) }
  function ListAllFolders(db: Bookmarks.BookmarkDb, bc: BookmarkCommand): (r: Response)
    requires bc.GetAllFolders?
    ensures ShapeOf(r) == BookmarkShape(bc)
  { Folders(Bookmarks.GetAllFolders(db)) }
  function ExportAll(db: Bookmarks.BookmarkDb, bc: BookmarkCommand): (r: Response)
    requires bc.ExportBookmarks?
    ensures ShapeOf(r) == BookmarkShape(bc)
  { Exported(Bookmarks.ExportBookmarks(db)) }

  function BookmarkQuery(db: Bookmarks.BookmarkDb, bc: BookmarkCommand): (r: Response)
    requires Reads(BookmarkShape(bc))
    ensures ShapeOf(r) == BookmarkShape(bc)
  {
    match bc
    case GetBookmarks(_) => ListInFolder(db, bc)
    case GetAllBookmarks => ListAll(db, bc)
    case SearchBookmarks(_) => ListMatching(db, bc)
    case GetFolders(_) => ListFolders(db, bc)
    case GetAllFolders => ListAllFolders(db, bc)
    case ExportBookmarks => ExportAll(db, bc)
  }

  /** One of the two inserts, answered with the new row's id. */
  function BookmarkInsert(db: Bookmarks.BookmarkDb, bc: BookmarkCommand, now: int): (r: Result<Bookmarks.Inserted, StoreError>)
    requires BookmarkShape(bc) == IdResult
    ensures r.Err? ==> r.error == ForeignKeyViolation
    ensures r.Ok? && Bookmarks.Valid(db) ==> Bookmarks.Valid(r.value.db)
  {
    match bc
    case AddBookmark(nb) => Bookmarks.AddBookmark(db, nb, now)
    case AddFolder(nf) => Bookmarks.AddFolder(db, nf, now)
  }

  /** Any other bookmark change. */
  function BookmarkChange(db: Bookmarks.BookmarkDb, bc: BookmarkCommand, clock: nat -> int): (r: Result<Bookmarks.BookmarkDb, StoreError>)
    requires BookmarkShape(bc) == NoResult
    ensures r.Err? ==> r.error == ForeignKeyViolation
    ensures r.Ok? && Bookmarks.Valid(db) ==> Bookmarks.Valid(r.value)
  {
    match bc
    case UpdateBookmark(id, p) => Bookmarks.UpdateBookmark(db, id, p)
    case DeleteBookmark(id) => Ok(Bookmarks.DeleteBookmark(db, id))
    case MoveBookmark(id, f, pos) => Bookmarks.MoveBookmark(db, id, f, pos)
    case UpdateFolder(id, p) => Bookmarks.UpdateFolder(db, id, p)
    case DeleteFolder(id) => Ok(Bookmarks.DeleteFolder(db, id))
    case ImportBookmarks(fs, bs) => Bookmarks.ImportBookmarks(db, fs, bs, clock)
  }

  /** A bookmark command on an open connection. The only rejection is a
      foreign-key violation, after which nothing has changed. */
  function RunBookmarks(h: Handler, bc: BookmarkCommand, clock: nat -> int): (r: Outcome)
    ensures r.handler == h.(bookmarks := r.handler.bookmarks)
    ensures r.response.Failed? ==> r.handler == h && r.response.error == ForeignKeyViolation
    ensures !r.response.Failed? ==> ShapeOf(r.response) == BookmarkShape(bc)
    ensures Reads(BookmarkShape(bc)) ==> r.handler == h
    ensures Bookmarks.Valid(h.bookmarks) ==> Bookmarks.Valid(r.handler.bookmarks)
  {
    if Reads(BookmarkShape(bc)) then Outcome(BookmarkQuery(h.bookmarks, bc), h)
    else if BookmarkShape(bc) == IdResult then CommitInsert(h, BookmarkInsert(h.bookmarks, bc, clock(0)))
    else Commit(h, BookmarkChange(h.bookmarks, bc, clock))
  }

  /** A batch of preference writes: the writes made before a rejected
      entry stay although the invocation is rejected. */
  function CommitBatch(h: Handler, a: Preferences.Applied): (o: Outcome)
    ensures o.handler == h.(prefs := a.prefs)
    ensures o.response.Failed? <==> a.error.Some?
    ensures o.response.Failed? ==> o.response.error == a.error.value
    ensures !o.response.Failed? ==> o.response == Done
  {
    match a.error
    case None => Outcome(Done, h.(prefs := a.prefs))
    case Some(e) => Outcome(Failed(e), h.(prefs := a.prefs))
  }

  /** What each preference command answers with. */
  function PreferenceShape(pc: PreferenceCommand): Shape {
    match pc
    case GetPreference(_) => OneValue
    case GetAllPreferences => AllPrefs
    case ExportPreferences => AllPrefs
    case _ => NoResult
  }

  /** A preference command. The only rejection is an undefined value; a
      rejected single write changes nothing. */
  function RunPreferences(h: Handler, pc: PreferenceCommand): (r: Outcome)
    ensures r.handler == h.(prefs := r.handler.prefs)
    ensures r.response.Failed? ==> r.response.error == UndefinedValue
    ensures r.response.Failed? && !pc.SetAllPreferences? && !pc.ImportPreferences? ==> r.handler == h
    ensures !r.response.Failed? ==> ShapeOf(r.response) == PreferenceShape(pc)
    ensures Reads(PreferenceShape(pc)) ==> r.handler == h
  {
    var p := h.prefs;
    match pc
    case GetPreference(k) => Outcome(Value(Preferences.Get(p, k)), h)
    case SetPreference(k, v) =>
      (match Preferences.Set(p, k, v)
       case Ok(q) => Outcome(Done, h.(prefs := q))
       case Err(e) => Outcome(Failed(e), h))
    case GetAllPreferences => Outcome(AllValues(Preferences.GetAll(p)), h)
    case SetAllPreferences(es) => CommitBatch(h, Preferences.SetAll(p, es))
    case ResetPreferences => Outcome(Done, h.(prefs := Preferences.Reset(p)))
    case ExportPreferences => Outcome(AllValues(Preferences.Export(p)), h)
    case ImportPreferences(es) => CommitBatch(h, Preferences.Import(p, es))
  }

  /** The batch commands, whose rejection may follow some writes. */
  predicate IsBatch(cmd: Command) {
    cmd.OnPreferences? && (cmd.preference.SetAllPreferences? || cmd.preference.ImportPreferences?)
  }

  /** A command on a closed database. */
  predicate OnClosed(h: Handler, cmd: Command) {
    (cmd.OnHistory? && !h.historyOpen) || (cmd.OnBookmarks? && !h.bookmarksOpen)
  }

  /** What a command answers with, store by store. */
  function CommandShape(cmd: Command): Shape {
    match cmd
    case OnHistory(hc) => HistoryShape(hc)
    case OnBookmarks(bc) => BookmarkShape(bc)
    case OnPreferences(pc) => PreferenceShape(pc)
  }

  /** Each command answers with what its channel's registration returns. */
  lemma ShapeRegistered(cmd: Command)
    ensures CommandShape(cmd) == Returns(ChannelOf(cmd))
  {
  }

  /** Answers one invocation. */
  function Handle(h: Handler, cmd: Command, clock: nat -> int): (r: Outcome)
    ensures StoreOf(ChannelOf(cmd)) != HistoryStore ==> r.handler.history == h.history
    ensures StoreOf(ChannelOf(cmd)) != BookmarkStore ==> r.handler.bookmarks == h.bookmarks
    ensures StoreOf(ChannelOf(cmd)) != PreferenceStore ==> r.handler.prefs == h.prefs
    ensures r.handler.historyOpen == h.historyOpen && r.handler.bookmarksOpen == h.bookmarksOpen
    ensures IsQuery(ChannelOf(cmd)) ==> r.handler == h
    ensures !r.response.Failed? ==> ShapeOf(r.response) == Returns(ChannelOf(cmd))
    ensures r.response.Failed? && !IsBatch(cmd) ==> r.handler == h
    ensures OnClosed(h, cmd) <==> r.response == Failed(ConnectionClosed)
    ensures Valid(h) ==> Valid(r.handler)
  {
    ShapeRegistered(cmd);
    match cmd
    case OnHistory(hc) => if h.historyOpen then RunHistory(h, hc, clock) else Outcome(Failed(ConnectionClosed), h)
    case OnBookmarks(bc) => if h.bookmarksOpen then RunBookmarks(h, bc, clock) else Outcome(Failed(ConnectionClosed), h)
    case OnPreferences(pc) => RunPreferences(h, pc)
  }

  /** `cleanup()`: closes the history and bookmark databases; the data and
      the preference store are untouched. */
  function Cleanup(h: Handler): (r: Handler)
    ensures !r.historyOpen && !r.bookmarksOpen
    ensures r.history == h.history && r.bookmarks == h.bookmarks && r.prefs == h.prefs
  {
    h.(historyOpen := false, bookmarksOpen := false)
  }

  /** After the shutdown step every history and bookmark command is
      rejected, while preference commands answer exactly as before. */
  lemma AfterCleanup(h: Handler, cmd: Command, clock: nat -> int)
    ensures !cmd.OnPreferences? ==> Handle(Cleanup(h), cmd, clock) == Outcome(Failed(ConnectionClosed), Cleanup(h))
    ensures cmd.OnPreferences? ==> Handle(Cleanup(h), cmd, clock).response == Handle(h, cmd, clock).response
  {
  }

  /** One invocation: the command and the clock readings it takes. */
  datatype Call = Call(cmd: Command, clock: nat -> int)

  /** A sequence of invocations, answered one at a time, each with its own
      clock readings. */
  function Run(h: Handler, calls: seq<Call>): (r: Handler)
    ensures r.historyOpen == h.historyOpen && r.bookmarksOpen == h.bookmarksOpen
    ensures Valid(h) ==> Valid(r)
    decreases |calls|
  {
    if calls == [] then h else Run(Handle(h, calls[0].cmd, calls[0].clock).handler, calls[1..])
  }

  /** Commands on the other two stores never touch the history store. */
  lemma {:induction false} RunIsolatesHistory(h: Handler, calls: seq<Call>)
    requires forall i :: 0 <= i < |calls| ==> !calls[i].cmd.OnHistory?
    ensures Run(h, calls).history == h.history
    decreases |calls|
  {
    if calls != [] {
      assert forall i :: 0 <= i < |calls| - 1 ==> calls[1..][i] == calls[i + 1];
      RunIsolatesHistory(Handle(h, calls[0].cmd, calls[0].clock).handler, calls[1..]);
    }
  }
}
