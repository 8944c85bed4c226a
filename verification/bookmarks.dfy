/** The bookmark store: the `bookmark_folders` and `bookmarks` tables with
    their AUTOINCREMENT counters, the two default folders, the queries, the
    column-wise updates, the cascading folder delete, and the export/import
    pair. Foreign keys are enforced, so an insert or update that points at a
    missing folder is rejected with `ForeignKeyViolation` and changes
    nothing. An insert's clock reading is the parameter `now`; an operation
    that reads the clock once per row gets one reading per row (`barTime`
    and `otherTime` for the two default folders, `clock(k)` for the `k`-th
    row of an import). */
module Bookmarks {
  import opened Wrappers
  import opened Text
  import opened FolderTree
  import Seqs
  import Ranking

  /** A row of the `bookmarks` table; `folderId == None` is the root. */
  datatype Bookmark = Bookmark(
    id: int,
    title: string,
    url: string,
    favicon: Option<string>,
    folderId: Option<int>,
    position: int,
    dateAdded: int,
    tags: Option<string>)

  /** The bookmark database: both tables and their id counters. */
  datatype BookmarkDb = BookmarkDb(folders: seq<Folder>, bookmarks: seq<Bookmark>, folderSeq: nat, bookmarkSeq: nat)

  /** The argument of `addBookmark`: a bookmark without id and date. */
  datatype NewBookmark = NewBookmark(
    title: string,
    url: string,
    favicon: Option<string>,
    folderId: Option<int>,
    position: int,
    tags: Option<string>)

  /** The argument of `addFolder`: a folder without id and date. */
  datatype NewFolder = NewFolder(name: string, parentId: Option<int>, position: int)

  /** A successful insert: the new state and `lastInsertRowid`. */
  datatype Inserted = Inserted(db: BookmarkDb, id: int)

  /** The two folders every database starts with. */
  const BarId := 1
  const OtherId := 2

  function FolderKey(f: Folder): int { f.id }
  function BookmarkKey(b: Bookmark): int { b.id }

  function BookmarkIds(bs: seq<Bookmark>): (r: set<int>)
    ensures forall b :: b in bs ==> b.id in r
  {
    set b | b in bs :: b.id
  }

  /** The table invariants: primary keys are unique and positive and never
      above their counter, and every foreign key names an existing folder. */
  ghost predicate Valid(db: BookmarkDb) {
    && Seqs.DistinctKeys(db.folders, FolderKey)
    && Seqs.DistinctKeys(db.bookmarks, BookmarkKey)
    && (forall f :: f in db.folders ==> 0 < f.id <= db.folderSeq && RefOk(db.folders, f.parentId))
    && (forall b :: b in db.bookmarks ==> 0 < b.id <= db.bookmarkSeq && RefOk(db.folders, b.folderId))
  }

  function Empty(): BookmarkDb {
    BookmarkDb([], [], 0, 0)
  }

  /** `INSERT OR IGNORE` of a top-level folder with an explicit id: nothing
      happens when the id is taken; otherwise the row is added and the
      counter moves up to the id if it was below. */
  function InsertDefault(db: BookmarkDb, id: int, name: string, position: int, now: int): (r: BookmarkDb)
    requires id > 0
    ensures id in FolderIds(r.folders)
    ensures r.bookmarks == db.bookmarks && r.bookmarkSeq == db.bookmarkSeq
    ensures id in FolderIds(db.folders) ==> r == db
    ensures id !in FolderIds(db.folders) ==> r.folders == db.folders + [Folder(id, name, None, position, now)]
    ensures db.folderSeq <= r.folderSeq && (r.folderSeq == db.folderSeq || r.folderSeq == id)
    ensures Valid(db) ==> Valid(r)
  {
    if id in FolderIds(db.folders) then db
    else
      var row := Folder(id, name, None, position, now);
      var r := db.(folders := db.folders + [row], folderSeq := if db.folderSeq < id then id else db.folderSeq);
      assert FolderIds(r.folders) == FolderIds(db.folders) + {id};
      r
  }

  /** The default row `init` inserts when the id `id` is missing. */
  function DefaultRow(db: BookmarkDb, id: int, row: Folder): seq<Folder> {
    if id in FolderIds(db.folders) then [] else [row]
  }

  /** Opening the database: `INSERT OR IGNORE` of the "Bookmarks Bar"
      (id 1, position 0) and "Other Bookmarks" (id 2, position 1) root
      folders, each stamped with its own clock reading. A default folder
      that exists is left as it is; a missing one (a fresh store, or one
      whose default folder was deleted) is re-created; nothing else is
      added. */
  function Init(db: BookmarkDb, barTime: int, otherTime: int): (r: BookmarkDb)
    ensures BarId in FolderIds(r.folders) && OtherId in FolderIds(r.folders)
    ensures |r.folders| >= |db.folders| && r.folders[..|db.folders|] == db.folders
    ensures r.folders == db.folders + DefaultRow(db, BarId, Folder(BarId, "Bookmarks Bar", None, 0, barTime))
                                    + DefaultRow(db, OtherId, Folder(OtherId, "Other Bookmarks", None, 1, otherTime))
    ensures db.folderSeq <= r.folderSeq && (r.folderSeq == db.folderSeq || r.folderSeq <= OtherId)
    ensures r.bookmarks == db.bookmarks && r.bookmarkSeq == db.bookmarkSeq
    ensures Valid(db) ==> Valid(r)
  {
    var a := InsertDefault(db, BarId, "Bookmarks Bar", 0, barTime);
    var r := InsertDefault(a, OtherId, "Other Bookmarks", 1, otherTime);
    assert a.folders[..|db.folders|] == db.folders;
    assert r.folders[..|a.folders|] == a.folders;
    assert OtherId in FolderIds(a.folders) <==> OtherId in FolderIds(db.folders);
    r
  }

  /** A fresh database holds exactly the two default folders. */
  lemma InitEmpty(barTime: int, otherTime: int)
    ensures Init(Empty(), barTime, otherTime).folders
         == [Folder(BarId, "Bookmarks Bar", None, 0, barTime), Folder(OtherId, "Other Bookmarks", None, 1, otherTime)]
    ensures Init(Empty(), barTime, otherTime).folderSeq == 2
    ensures Valid(Init(Empty(), barTime, otherTime))
  {
    var a := InsertDefault(Empty(), BarId, "Bookmarks Bar", 0, barTime);
    assert FolderIds(a.folders) == {BarId};
  }

  /** Opening the database again changes nothing. */
  lemma InitIdempotent(db: BookmarkDb, t1: int, t2: int, t3: int, t4: int)
    ensures Init(Init(db, t1, t2), t3, t4) == Init(db, t1, t2)
  {
  }

  /** Deleting "Other Bookmarks" lasts only until the next start: opening
      the database re-creates it as a root folder at position 1, after
      every row that survived. */
  lemma ReopenRestoresOther(db: BookmarkDb, t1: int, t2: int)
    ensures var r := Init(DeleteFolder(db, OtherId), t1, t2);
      r.folders[|r.folders| - 1] == Folder(OtherId, "Other Bookmarks", None, 1, t2)
  {
  }

  /** `addBookmark`: the new row takes the next id and the time `now`; an
      empty favicon or tag string is stored as NULL. */
  function AddBookmark(db: BookmarkDb, nb: NewBookmark, now: int): (r: Result<Inserted, StoreError>)
    ensures r.Ok? <==> RefOk(db.folders, nb.folderId)
    ensures r.Err? ==> r.error == ForeignKeyViolation
    ensures r.Ok? ==>
      var d := r.value.db;
      && d.folders == db.folders && d.folderSeq == db.folderSeq
      && d.bookmarks
         == db.bookmarks + [Bookmark(r.value.id, nb.title, nb.url, NullIfEmpty(nb.favicon), nb.folderId, nb.position, now, NullIfEmpty(nb.tags))]
      && r.value.id == db.bookmarkSeq + 1 && d.bookmarkSeq == r.value.id
      && (Valid(db) ==> r.value.id !in BookmarkIds(db.bookmarks) && Valid(d))
  {
    if !RefOk(db.folders, nb.folderId) then Err(ForeignKeyViolation)
    else
      var id := db.bookmarkSeq + 1;
      var row := Bookmark(id, nb.title, nb.url, NullIfEmpty(nb.favicon), nb.folderId, nb.position, now, NullIfEmpty(nb.tags));
      var d := db.(bookmarks := db.bookmarks + [row], bookmarkSeq := id);
      assert Valid(db) ==> Valid(d) by {
        if Valid(db) {
          assert forall b :: b in d.bookmarks ==> b in db.bookmarks || b == row;
        }
      }
      Ok(Inserted(d, id))
  }

  /** The foreign key of an inserted folder is checked against the table
      with the new row in it: the parent may be NULL, an existing folder,
      or the new row itself (SQLite matches a self-referencing insert
      against its own rowid). */
  predicate InsertRefOk(fs: seq<Folder>, parent: Option<int>, newId: int) {
    RefOk(fs, parent) || parent == Some(newId)
  }

  /** `addFolder`: the new row takes the next id and the time `now`. */
  function AddFolder(db: BookmarkDb, nf: NewFolder, now: int): (r: Result<Inserted, StoreError>)
    ensures r.Ok? <==> InsertRefOk(db.folders, nf.parentId, db.folderSeq + 1)
    ensures r.Err? ==> r.error == ForeignKeyViolation
    ensures r.Ok? ==>
      var d := r.value.db;
      && d.bookmarks == db.bookmarks && d.bookmarkSeq == db.bookmarkSeq
      && d.folders == db.folders + [Folder(r.value.id, nf.name, nf.parentId, nf.position, now)]
      && r.value.id == db.folderSeq + 1 && d.folderSeq == r.value.id
      && FolderIds(d.folders) == FolderIds(db.folders) + {r.value.id}
      && (Valid(db) ==> r.value.id !in FolderIds(db.folders) && Valid(d))
  {
    if !InsertRefOk(db.folders, nf.parentId, db.folderSeq + 1) then Err(ForeignKeyViolation)
    else
      var id := db.folderSeq + 1;
      var row := Folder(id, nf.name, nf.parentId, nf.position, now);
      var d := db.(folders := db.folders + [row], folderSeq := id);
      FolderIdsAppend(db.folders, row);
      assert Valid(db) ==> id !in FolderIds(db.folders) && Valid(d) by {
        if Valid(db) { AppendFolderValid(db, row); }
      }
      Ok(Inserted(d, id))
  }

  /** A root or child folder numbered past the counter keeps the invariant. */
  lemma AppendFolderValid(db: BookmarkDb, row: Folder)
    requires Valid(db)
    requires row.id == db.folderSeq + 1 && InsertRefOk(db.folders, row.parentId, row.id)
    ensures row.id !in FolderIds(db.folders)
    ensures Valid(db.(folders := db.folders + [row], folderSeq := row.id))
  {
    var fs := db.folders + [row];
    FolderIdsAppend(db.folders, row);
    assert forall f :: f in fs ==> f in db.folders || f == row;
    forall i, j | 0 <= i < j < |fs| ensures FolderKey(fs[i]) != FolderKey(fs[j]) {
      if j == |db.folders| {
        assert fs[i] in db.folders;
      } else {
        assert FolderKey(db.folders[i]) != FolderKey(db.folders[j]);
      }
    }
  }

  /** `getBookmarks` and `getFolders` order by `position` ascending. */
  function BookmarkPlace(b: Bookmark): Ranking.Key {
    Ranking.Key(-b.position, 0)
  }

  function FolderPlace(f: Folder): Ranking.Key {
    Ranking.Key(-f.position, 0)
  }

  /** `getAllBookmarks` and `searchBookmarks` order by `dateAdded` descending. */
  function Newest(b: Bookmark): Ranking.Key {
    Ranking.Key(b.dateAdded, 0)
  }

  lemma BookmarksByPlace(r: seq<Bookmark>)
    requires Ranking.SortedBy(r, BookmarkPlace)
    ensures forall i, j :: 0 <= i < j < |r| ==> r[i].position <= r[j].position
  {
    assert forall i, j :: 0 <= i < j < |r| ==> Ranking.Ahead(BookmarkPlace(r[i]), BookmarkPlace(r[j]));
  }

  lemma BookmarksByDate(r: seq<Bookmark>)
    requires Ranking.SortedBy(r, Newest)
    ensures forall i, j :: 0 <= i < j < |r| ==> r[i].dateAdded >= r[j].dateAdded
  {
    assert forall i, j :: 0 <= i < j < |r| ==> Ranking.Ahead(Newest(r[i]), Newest(r[j]));
  }

  lemma FoldersByPlace(r: seq<Folder>)
    requires Ranking.SortedBy(r, FolderPlace)
    ensures forall i, j :: 0 <= i < j < |r| ==> r[i].position <= r[j].position
  {
    assert forall i, j :: 0 <= i < j < |r| ==> Ranking.Ahead(FolderPlace(r[i]), FolderPlace(r[j]));
  }

  /** `getBookmarks(folderId = null)`: `folderId IS ?` is exact equality
      with NULL matching NULL, so `None` lists the root. */
  function GetBookmarks(db: BookmarkDb, folderId: Option<int>): (r: seq<Bookmark>)
    ensures forall b :: b in r <==> b in db.bookmarks && b.folderId == folderId
    ensures forall i, j :: 0 <= i < j < |r| ==> r[i].position <= r[j].position
    ensures multiset(r) <= multiset(db.bookmarks)
  {
    var inFolder := Seqs.Filter(db.bookmarks, (b: Bookmark) => b.folderId == folderId);
    Seqs.FilterShrinks(db.bookmarks, (b: Bookmark) => b.folderId == folderId);
    var r := Ranking.Sort(inFolder, BookmarkPlace);
    Seqs.MultisetMembers(r, inFolder);
    BookmarksByPlace(r);
    r
  }

  /** `getAllBookmarks`: every row, newest first. */
  function GetAllBookmarks(db: BookmarkDb): (r: seq<Bookmark>)
    ensures multiset(r) == multiset(db.bookmarks)
    ensures forall i, j :: 0 <= i < j < |r| ==> r[i].dateAdded >= r[j].dateAdded
  {
    var r := Ranking.Sort(db.bookmarks, Newest);
    BookmarksByDate(r);
    r
  }

  /** The condition `title LIKE '%q%' OR url LIKE '%q%' OR tags LIKE '%q%'`;
      NULL tags match nothing. */
  predicate MatchesQuery(b: Bookmark, q: string) {
    ContainsFolded(b.title, q) || ContainsFolded(b.url, q) || (b.tags.Some? && ContainsFolded(b.tags.value, q))
  }

  /** `searchBookmarks(query)`: matching rows, newest first, with no limit. */
  function SearchBookmarks(db: BookmarkDb, q: string): (r: seq<Bookmark>)
    ensures forall b :: b in r <==> b in db.bookmarks && MatchesQuery(b, q)
    ensures forall i, j :: 0 <= i < j < |r| ==> r[i].dateAdded >= r[j].dateAdded
    ensures multiset(r) <= multiset(db.bookmarks)
  {
    var hits := Seqs.Filter(db.bookmarks, (b: Bookmark) => MatchesQuery(b, q));
    Seqs.FilterShrinks(db.bookmarks, (b: Bookmark) => MatchesQuery(b, q));
    var r := Ranking.Sort(hits, Newest);
    Seqs.MultisetMembers(r, hits);
    BookmarksByDate(r);
    r
  }

  /** An empty search term lists every bookmark: it is `getAllBookmarks` up to ties. */
  lemma SearchEmptyListsAll(db: BookmarkDb)
    ensures multiset(SearchBookmarks(db, "")) == multiset(db.bookmarks)
  {
    forall b | b in db.bookmarks ensures MatchesQuery(b, "") {
      EmptyAlwaysContained(Lower(b.title));
      assert Lower("") == "";
    }
    var hits := Seqs.Filter(db.bookmarks, (b: Bookmark) => MatchesQuery(b, ""));
    assert hits == db.bookmarks;
  }

  /** `getFolders(parentId = null)`. */
  function GetFolders(db: BookmarkDb, parentId: Option<int>): (r: seq<Folder>)
    ensures forall f :: f in r <==> f in db.folders && f.parentId == parentId
    ensures forall i, j :: 0 <= i < j < |r| ==> r[i].position <= r[j].position
    ensures multiset(r) <= multiset(db.folders)
  {
    var inParent := Seqs.Filter(db.folders, (f: Folder) => f.parentId == parentId);
    Seqs.FilterShrinks(db.folders, (f: Folder) => f.parentId == parentId);
    var r := Ranking.Sort(inParent, FolderPlace);
    Seqs.MultisetMembers(r, inParent);
    FoldersByPlace(r);
    r
  }

  /** `getAllFolders`: every folder, by position. */
  function GetAllFolders(db: BookmarkDb): (r: seq<Folder>)
    ensures multiset(r) == multiset(db.folders)
    ensures forall i, j :: 0 <= i < j < |r| ==> r[i].position <= r[j].position
  {
    var r := Ranking.Sort(db.folders, FolderPlace);
    FoldersByPlace(r);
    r
  }

  /** The `updates` object of `updateBookmark`: one optional entry per key.
      A nullable column takes `Some(None)` to be set to NULL. */
  datatype BookmarkPatch = BookmarkPatch(
    id: Option<int>,
    title: Option<string>,
    url: Option<string>,
    favicon: Option<Option<string>>,
    folderId: Option<Option<int>>,
    position: Option<int>,
    dateAdded: Option<int>,
    tags: Option<Option<string>>)

  /** The keys that survive the filter on `id` and `dateAdded`: without any,
      no statement is run. */
  predicate SetsColumns(p: BookmarkPatch) {
    p.title.Some? || p.url.Some? || p.favicon.Some? || p.folderId.Some? || p.position.Some? || p.tags.Some?
  }

  /** `SET k = ?` for every surviving key; the values are stored as given. */
  function Patch(b: Bookmark, p: BookmarkPatch): (r: Bookmark)
    ensures r.id == b.id && r.dateAdded == b.dateAdded
    ensures r.title == (if p.title.Some? then p.title.value else b.title)
    ensures r.url == (if p.url.Some? then p.url.value else b.url)
    ensures r.favicon == (if p.favicon.Some? then p.favicon.value else b.favicon)
    ensures r.folderId == (if p.folderId.Some? then p.folderId.value else b.folderId)
    ensures r.position == (if p.position.Some? then p.position.value else b.position)
    ensures r.tags == (if p.tags.Some? then p.tags.value else b.tags)
    ensures !SetsColumns(p) ==> r == b
  {
    b.(title := p.title.GetOr(b.title),
       url := p.url.GetOr(b.url),
       favicon := p.favicon.GetOr(b.favicon),
       folderId := p.folderId.GetOr(b.folderId),
       position := p.position.GetOr(b.position),
       tags := p.tags.GetOr(b.tags))
  }

  /** The rows with id `id` patched, every other row as it was. */
  function RewriteBookmarks(bs: seq<Bookmark>, id: int, p: BookmarkPatch): (r: seq<Bookmark>)
    ensures |r| == |bs|
    ensures forall i :: 0 <= i < |bs| ==> r[i].id == bs[i].id
    ensures forall i :: 0 <= i < |bs| && bs[i].id != id ==> r[i] == bs[i]
    ensures forall i :: 0 <= i < |bs| && bs[i].id == id ==> r[i] == Patch(bs[i], p)
  {
    seq(|bs|, i requires 0 <= i < |bs| => if bs[i].id == id then Patch(bs[i], p) else bs[i])
  }

  /** Rewriting rows keeps the invariants when the new folder, if any, exists. */
  lemma RewriteBookmarksValid(db: BookmarkDb, id: int, p: BookmarkPatch)
    requires Valid(db)
    requires p.folderId.None? || RefOk(db.folders, p.folderId.value)
    ensures Valid(db.(bookmarks := RewriteBookmarks(db.bookmarks, id, p)))
  {
    var r := db.(bookmarks := RewriteBookmarks(db.bookmarks, id, p));
    forall b | b in r.bookmarks ensures 0 < b.id <= r.bookmarkSeq && RefOk(r.folders, b.folderId) {
      var i :| 0 <= i < |r.bookmarks| && r.bookmarks[i] == b;
      assert db.bookmarks[i] in db.bookmarks;
    }
  }

  /** `updateBookmark(id, updates)`. A missing row is not an error (the
      UPDATE matches nothing); setting `folderId` of an existing row to a
      missing folder is. */
  function UpdateBookmark(db: BookmarkDb, id: int, p: BookmarkPatch): (r: Result<BookmarkDb, StoreError>)
    ensures r.Err? <==>
      SetsColumns(p) && id in BookmarkIds(db.bookmarks) && p.folderId.Some? && !RefOk(db.folders, p.folderId.value)
    ensures r.Err? ==> r.error == ForeignKeyViolation
    ensures r.Ok? ==>
      && r.value.folders == db.folders && r.value.folderSeq == db.folderSeq && r.value.bookmarkSeq == db.bookmarkSeq
      && |r.value.bookmarks| == |db.bookmarks|
      && (forall i :: 0 <= i < |db.bookmarks| && db.bookmarks[i].id != id ==> r.value.bookmarks[i] == db.bookmarks[i])
      && (forall i :: 0 <= i < |db.bookmarks| && db.bookmarks[i].id == id ==> r.value.bookmarks[i] == Patch(db.bookmarks[i], p))
    ensures r.Ok? && Valid(db) ==> Valid(r.value)
  {
    if !SetsColumns(p) || id !in BookmarkIds(db.bookmarks) then Ok(db)
    else if p.folderId.Some? && !RefOk(db.folders, p.folderId.value) then Err(ForeignKeyViolation)
    else
      var r := db.(bookmarks := RewriteBookmarks(db.bookmarks, id, p));
      assert Valid(db) ==> Valid(r) by {
        if Valid(db) {
          RewriteBookmarksValid(db, id, p);
        }
      }
      Ok(r)
  }

  /** The `id` and `dateAdded` entries of an update are ignored. */
  lemma UpdateIgnoresIdAndDate(db: BookmarkDb, id: int, p: BookmarkPatch, otherId: Option<int>, otherDate: Option<int>)
    ensures UpdateBookmark(db, id, p) == UpdateBookmark(db, id, p.(id := otherId, dateAdded := otherDate))
  {
    var q := p.(id := otherId, dateAdded := otherDate);
    assert forall b :: Patch(b, p) == Patch(b, q);
    assert RewriteBookmarks(db.bookmarks, id, p) == RewriteBookmarks(db.bookmarks, id, q);
  }

  /** Applying the same update twice is the same as applying it once. */
  lemma UpdateIdempotent(db: BookmarkDb, id: int, p: BookmarkPatch)
    requires UpdateBookmark(db, id, p).Ok?
    ensures UpdateBookmark(UpdateBookmark(db, id, p).value, id, p) == UpdateBookmark(db, id, p)
  {
    var once := UpdateBookmark(db, id, p).value;
    if SetsColumns(p) && id in BookmarkIds(db.bookmarks) {
      assert id in BookmarkIds(once.bookmarks) by {
        var b :| b in db.bookmarks && b.id == id;
        var i :| 0 <= i < |db.bookmarks| && db.bookmarks[i] == b;
        assert once.bookmarks[i].id == id;
      }
      var twice := RewriteBookmarks(once.bookmarks, id, p);
      assert twice == once.bookmarks;
    }
  }

  /** `moveBookmark(id, newFolderId, newPosition)`. */
  function MoveBookmark(db: BookmarkDb, id: int, newFolderId: Option<int>, newPosition: int): (r: Result<BookmarkDb, StoreError>)
    ensures r.Err? <==> id in BookmarkIds(db.bookmarks) && !RefOk(db.folders, newFolderId)
    ensures r.Err? ==> r.error == ForeignKeyViolation
    ensures r.Ok? ==> forall b :: b in r.value.bookmarks && b.id == id ==> b.folderId == newFolderId && b.position == newPosition
    ensures r.Ok? ==> |r.value.bookmarks| == |db.bookmarks|
    ensures r.Ok? ==> forall i :: 0 <= i < |db.bookmarks| && db.bookmarks[i].id == id ==>
      r.value.bookmarks[i] == db.bookmarks[i].(folderId := newFolderId, position := newPosition)
    ensures r.Ok? ==> r.value.folders == db.folders && r.value.folderSeq == db.folderSeq && r.value.bookmarkSeq == db.bookmarkSeq
    ensures r.Ok? ==> forall i :: 0 <= i < |db.bookmarks| && db.bookmarks[i].id != id ==> r.value.bookmarks[i] == db.bookmarks[i]
    ensures r.Ok? && Valid(db) ==> Valid(r.value)
  {
    var p := BookmarkPatch(None, None, None, None, Some(newFolderId), Some(newPosition), None, None);
    var r := UpdateBookmark(db, id, p);
    assert r.Ok? ==> forall b :: b in r.value.bookmarks && b.id == id ==> b == Patch(b, p) by {
      if r.Ok? {
        forall b | b in r.value.bookmarks && b.id == id ensures b == Patch(b, p) {
          var i :| 0 <= i < |r.value.bookmarks| && r.value.bookmarks[i] == b;
          assert db.bookmarks[i].id == id;
        }
      }
    }
    r
  }

  /** A move is the update of exactly the two columns it sets. */
  lemma MoveIsUpdate(db: BookmarkDb, id: int, newFolderId: Option<int>, newPosition: int)
    ensures MoveBookmark(db, id, newFolderId, newPosition)
         == UpdateBookmark(db, id, BookmarkPatch(None, None, None, None, Some(newFolderId), Some(newPosition), None, None))
  {
  }

  /** The filter of `DELETE FROM bookmarks WHERE id = ?`: the rows kept. */
  function OtherThan(id: int): Bookmark -> bool {
    (b: Bookmark) => b.id != id
  }

  /** `deleteBookmark(id)`. */
  function DeleteBookmark(db: BookmarkDb, id: int): (r: BookmarkDb)
    ensures forall b :: b in r.bookmarks <==> b in db.bookmarks && b.id != id
    ensures id !in BookmarkIds(r.bookmarks)
    ensures Seqs.IsSubsequence(r.bookmarks, db.bookmarks)
    ensures r.folders == db.folders && r.folderSeq == db.folderSeq && r.bookmarkSeq == db.bookmarkSeq
    ensures Valid(db) ==> Valid(r)
  {
    var r := db.(bookmarks := Seqs.Filter(db.bookmarks, OtherThan(id)));
    assert Valid(db) ==> Valid(r) by {
      if Valid(db) {
        Seqs.FilterKeepsDistinct(db.bookmarks, OtherThan(id), BookmarkKey);
      }
    }
    r
  }

  /** Deleting a bookmark right after adding it restores the table; the
      counter stays advanced, since AUTOINCREMENT never reuses an id. */
  lemma AddThenDeleteBookmark(db: BookmarkDb, nb: NewBookmark, now: int)
    requires Valid(db)
    requires AddBookmark(db, nb, now).Ok?
    ensures var ins := AddBookmark(db, nb, now).value;
      DeleteBookmark(ins.db, ins.id).bookmarks == db.bookmarks
  {
    var ins := AddBookmark(db, nb, now).value;
    var row := ins.db.bookmarks[|db.bookmarks|];
    assert ins.db.bookmarks == db.bookmarks + [row];
    Seqs.FilterAppend(db.bookmarks, row, OtherThan(ins.id));
    assert forall i :: 0 <= i < |db.bookmarks| ==> OtherThan(ins.id)(db.bookmarks[i]) by {
      assert forall b :: b in db.bookmarks ==> b.id < ins.id;
    }
  }

  /** The `updates` object of `updateFolder`. */
  datatype FolderPatch = FolderPatch(
    id: Option<int>,
    name: Option<string>,
    parentId: Option<Option<int>>,
    position: Option<int>,
    dateAdded: Option<int>)

  predicate SetsFolderColumns(p: FolderPatch) {
    p.name.Some? || p.parentId.Some? || p.position.Some?
  }

  /** The named columns take the given values; id and dateAdded never change. */
  function PatchFolder(f: Folder, p: FolderPatch): (r: Folder)
    ensures r.id == f.id && r.dateAdded == f.dateAdded
    ensures r.name == p.name.GetOr(f.name) && r.parentId == p.parentId.GetOr(f.parentId)
    ensures r.position == p.position.GetOr(f.position)
    ensures !SetsFolderColumns(p) ==> r == f
  {
    f.(name := p.name.GetOr(f.name), parentId := p.parentId.GetOr(f.parentId), position := p.position.GetOr(f.position))
  }

  /** The rows with id `id` patched, every other row as it was. */
  function RewriteFolders(fs: seq<Folder>, id: int, p: FolderPatch): (r: seq<Folder>)
    ensures |r| == |fs|
    ensures forall i :: 0 <= i < |fs| ==> r[i].id == fs[i].id
    ensures forall i :: 0 <= i < |fs| && fs[i].id != id ==> r[i] == fs[i]
    ensures forall i :: 0 <= i < |fs| && fs[i].id == id ==> r[i] == PatchFolder(fs[i], p)
  {
    seq(|fs|, i requires 0 <= i < |fs| => if fs[i].id == id then PatchFolder(fs[i], p) else fs[i])
  }

  /** Rewriting rows index by index without touching ids keeps the id set. */
  lemma SameIds(fs: seq<Folder>, gs: seq<Folder>)
    requires |fs| == |gs|
    requires forall i :: 0 <= i < |fs| ==> gs[i].id == fs[i].id
    ensures FolderIds(gs) == FolderIds(fs)
  {
    forall x | x in FolderIds(gs) ensures x in FolderIds(fs) {
      var g :| g in gs && g.id == x;
      var i :| 0 <= i < |gs| && gs[i] == g;
      assert fs[i] in fs;
    }
    forall x | x in FolderIds(fs) ensures x in FolderIds(gs) {
      var f :| f in fs && f.id == x;
      var i :| 0 <= i < |fs| && fs[i] == f;
      assert gs[i] in gs;
    }
  }

  lemma RewriteFoldersValid(db: BookmarkDb, id: int, p: FolderPatch)
    requires Valid(db)
    requires p.parentId.None? || RefOk(db.folders, p.parentId.value)
    ensures Valid(db.(folders := RewriteFolders(db.folders, id, p)))
  {
    var fs := RewriteFolders(db.folders, id, p);
    SameIds(db.folders, fs);
    assert Seqs.DistinctKeys(fs, FolderKey) by {
      assert forall i :: 0 <= i < |fs| ==> FolderKey(fs[i]) == FolderKey(db.folders[i]);
    }
    RewrittenFoldersRefOk(db, id, p, fs);
  }

  lemma RewrittenFoldersRefOk(db: BookmarkDb, id: int, p: FolderPatch, fs: seq<Folder>)
    requires Valid(db)
    requires p.parentId.None? || RefOk(db.folders, p.parentId.value)
    requires fs == RewriteFolders(db.folders, id, p)
    requires FolderIds(fs) == FolderIds(db.folders)
    ensures forall f :: f in fs ==> 0 < f.id <= db.folderSeq && RefOk(fs, f.parentId)
  {
    forall f | f in fs ensures 0 < f.id <= db.folderSeq && RefOk(fs, f.parentId) {
      var i :| 0 <= i < |fs| && fs[i] == f;
      assert db.folders[i] in db.folders;
    }
  }

  /** `updateFolder(id, updates)`: as `updateBookmark`, with `parentId` the
      checked foreign key. A folder may be made its own parent, since the
      key then names an existing folder. */
  function UpdateFolder(db: BookmarkDb, id: int, p: FolderPatch): (r: Result<BookmarkDb, StoreError>)
    ensures r.Err? <==>
      SetsFolderColumns(p) && id in FolderIds(db.folders) && p.parentId.Some? && !RefOk(db.folders, p.parentId.value)
    ensures r.Err? ==> r.error == ForeignKeyViolation
    ensures r.Ok? ==>
      && r.value.bookmarks == db.bookmarks && r.value.folderSeq == db.folderSeq && r.value.bookmarkSeq == db.bookmarkSeq
      && |r.value.folders| == |db.folders|
      && FolderIds(r.value.folders) == FolderIds(db.folders)
      && (forall i :: 0 <= i < |db.folders| && db.folders[i].id != id ==> r.value.folders[i] == db.folders[i])
      && (forall i :: 0 <= i < |db.folders| && db.folders[i].id == id ==> r.value.folders[i] == PatchFolder(db.folders[i], p))
    ensures r.Ok? && Valid(db) ==> Valid(r.value)
  {
    if !SetsFolderColumns(p) || id !in FolderIds(db.folders) then Ok(db)
    else if p.parentId.Some? && !RefOk(db.folders, p.parentId.value) then Err(ForeignKeyViolation)
    else
      var r := db.(folders := RewriteFolders(db.folders, id, p));
      SameIds(db.folders, r.folders);
      assert Valid(db) ==> Valid(r) by {
        if Valid(db) {
          RewriteFoldersValid(db, id, p);
        }
      }
      Ok(r)
  }

  /** The bookmark lies in one of the folders `gone`. */
  predicate FiledIn(b: Bookmark, gone: set<int>) {
    b.folderId.Some? && b.folderId.value in gone
  }

  /** The folder rows a cascade over `gone` keeps. */
  function FolderSurvives(gone: set<int>): Folder -> bool {
    (f: Folder) => f.id !in gone
  }

  /** The bookmark rows a cascade over `gone` keeps. */
  function BookmarkSurvives(gone: set<int>): Bookmark -> bool {
    (b: Bookmark) => !FiledIn(b, gone)
  }

  /** `deleteFolder(id)`: the folder, every folder the cascade reaches from
      it, and every bookmark filed in any of them. */
  function DeleteFolder(db: BookmarkDb, id: int): (r: BookmarkDb)
    ensures id !in FolderIds(r.folders)
    ensures forall f :: f in r.folders <==> f in db.folders && f.id !in Cascade(db.folders, id)
    ensures forall b :: b in r.bookmarks <==> b in db.bookmarks && !FiledIn(b, Cascade(db.folders, id))
    ensures Seqs.IsSubsequence(r.folders, db.folders) && Seqs.IsSubsequence(r.bookmarks, db.bookmarks)
    ensures r.folderSeq == db.folderSeq && r.bookmarkSeq == db.bookmarkSeq
    ensures Valid(db) ==> Valid(r)
  {
    var gone := Cascade(db.folders, id);
    var r := db.(folders := Seqs.Filter(db.folders, FolderSurvives(gone)),
                 bookmarks := Seqs.Filter(db.bookmarks, BookmarkSurvives(gone)));
    assert Valid(db) ==> Valid(r) by {
      if Valid(db) {
        CascadeClosed(db.folders, id);
        DeleteFolderValid(db, gone);
      }
    }
    r
  }

  /** Removing a closed set of folders with the bookmarks filed in them
      leaves no dangling foreign key. */
  lemma DeleteFolderValid(db: BookmarkDb, gone: set<int>)
    requires Valid(db)
    requires Closed(db.folders, gone)
    ensures Valid(db.(folders := Seqs.Filter(db.folders, FolderSurvives(gone)),
                      bookmarks := Seqs.Filter(db.bookmarks, BookmarkSurvives(gone))))
  {
    var r := db.(folders := Seqs.Filter(db.folders, FolderSurvives(gone)),
                 bookmarks := Seqs.Filter(db.bookmarks, BookmarkSurvives(gone)));
    Seqs.FilterKeepsDistinct(db.folders, FolderSurvives(gone), FolderKey);
    Seqs.FilterKeepsDistinct(db.bookmarks, BookmarkSurvives(gone), BookmarkKey);
    forall f | f in r.folders ensures RefOk(r.folders, f.parentId) {
      if f.parentId.Some? {
        var g :| g in db.folders && g.id == f.parentId.value;
        assert g in r.folders;
      }
    }
    forall b | b in r.bookmarks ensures RefOk(r.folders, b.folderId) {
      if b.folderId.Some? {
        var g :| g in db.folders && g.id == b.folderId.value;
        assert g in r.folders;
      }
    }
  }

  /** A new folder may name its own id as parent: the insert succeeds and
      the table stays referentially valid. */
  lemma AddSelfParentedFolder(db: BookmarkDb, name: string, position: int, now: int)
    requires Valid(db)
    ensures var r := AddFolder(db, NewFolder(name, Some(db.folderSeq + 1), position), now);
      && r.Ok? && r.value.id == db.folderSeq + 1
      && r.value.db.folders[|db.folders|].parentId == Some(r.value.id)
      && Valid(r.value.db)
  {
  }

  /** Deleting a folder right after adding it restores both tables: a new
      folder has no children and no bookmarks. */
  lemma AddThenDeleteFolder(db: BookmarkDb, nf: NewFolder, now: int)
    requires Valid(db)
    requires AddFolder(db, nf, now).Ok?
    ensures var ins := AddFolder(db, nf, now).value;
      var r := DeleteFolder(ins.db, ins.id);
      r.folders == db.folders && r.bookmarks == db.bookmarks
  {
    var ins := AddFolder(db, nf, now).value;
    var row := Folder(ins.id, nf.name, nf.parentId, nf.position, now);
    assert ins.db.folders == db.folders + [row];
    assert forall f :: f in db.folders ==> f.id < ins.id;
    FreshFolderCascade(db.folders, row);
    FreshFolderFiltered(db.folders, row);
    NoBookmarkFiledInFresh(db, ins.id);
  }

  /** No bookmark is filed in a folder id the table has not handed out yet. */
  lemma NoBookmarkFiledInFresh(db: BookmarkDb, id: int)
    requires Valid(db)
    requires id > db.folderSeq
    ensures Seqs.Filter(db.bookmarks, BookmarkSurvives({id})) == db.bookmarks
  {
    assert forall i :: 0 <= i < |db.bookmarks| ==> BookmarkSurvives({id})(db.bookmarks[i]) by {
      assert forall b :: b in db.bookmarks ==> RefOk(db.folders, b.folderId);
    }
  }

  /** A folder no other folder points to cascades to itself alone, even
      when it is its own parent. */
  lemma FreshFolderCascade(folders: seq<Folder>, row: Folder)
    requires forall f :: f in folders ==> f.id < row.id && (f.parentId.None? || f.parentId.value < row.id)
    requires row.parentId.None? || row.parentId.value <= row.id
    ensures Cascade(folders + [row], row.id) == {row.id}
  {
    var fs := folders + [row];
    FolderIdsAppend(folders, row);
    assert Children(fs, {row.id}) <= {row.id};
    ReachFixpoint(fs, {row.id}, |fs|);
  }

  /** Filtering the newest folder's id out of the table removes just that row. */
  lemma FreshFolderFiltered(folders: seq<Folder>, row: Folder)
    requires forall f :: f in folders ==> f.id < row.id
    ensures Seqs.Filter(folders + [row], FolderSurvives({row.id})) == folders
  {
    Seqs.FilterAppend(folders, row, FolderSurvives({row.id}));
    assert forall i :: 0 <= i < |folders| ==> FolderSurvives({row.id})(folders[i]);
  }

  /** `exportBookmarks`: both tables, in the order of the two list queries. */
  datatype Export = Export(folders: seq<Folder>, bookmarks: seq<Bookmark>)

  function ExportBookmarks(db: BookmarkDb): (r: Export)
    ensures multiset(r.folders) == multiset(db.folders)
    ensures multiset(r.bookmarks) == multiset(db.bookmarks)
    ensures |r.folders| == |db.folders| && |r.bookmarks| == |db.bookmarks|
    ensures forall i, j :: 0 <= i < j < |r.folders| ==> r.folders[i].position <= r.folders[j].position
    ensures forall i, j :: 0 <= i < j < |r.bookmarks| ==> r.bookmarks[i].dateAdded >= r.bookmarks[j].dateAdded
  {
    var r := Export(GetAllFolders(db), GetAllBookmarks(db));
    assert |multiset(r.folders)| == |multiset(db.folders)|;
    assert |multiset(r.bookmarks)| == |multiset(db.bookmarks)|;
    r
  }

  /** The ids `from`, `from + 1`, ..., `from + n - 1`. */
  function IdRange(from: int, n: nat): (r: set<int>)
    ensures forall x :: x in r <==> from <= x < from + n
    decreases n
  {
    if n == 0 then {} else {from} + IdRange(from + 1, n - 1)
  }

  /** The folders of an import resolve when each parent is NULL, an existing
      folder, one of the folders imported before it, or the folder itself;
      the `k`-th imported folder receives the id `next + k`. */
  predicate FoldersResolve(known: set<int>, next: int, fs: seq<Folder>)
    decreases |fs|
  {
    fs == [] || ((fs[0].parentId.None? || fs[0].parentId.value in known + {next}) && FoldersResolve(known + {next}, next + 1, fs[1..]))
  }

  /** The rows an import of `fs` appends, numbered from `next`: each keeps
      its name, parent and position and is stamped with the clock reading
      its own insert takes, `clock(tick)` for the first. */
  function ImportedFolders(fs: seq<Folder>, next: int, clock: nat -> int, tick: nat): (r: seq<Folder>)
    ensures |r| == |fs|
    decreases |fs|
  {
    if fs == [] then []
    else [Folder(next, fs[0].name, fs[0].parentId, fs[0].position, clock(tick))]
         + ImportedFolders(fs[1..], next + 1, clock, tick + 1)
  }

  /** An import's first row, followed by the rows of the rest. */
  lemma ImportedFoldersCons(fs: seq<Folder>, next: int, clock: nat -> int, tick: nat)
    requires fs != []
    ensures ImportedFolders(fs, next, clock, tick)
         == [Folder(next, fs[0].name, fs[0].parentId, fs[0].position, clock(tick))]
            + ImportedFolders(fs[1..], next + 1, clock, tick + 1)
  {
  }

  /** The `k`-th imported folder keeps the entry's columns, gets id
      `next + k` and the `k`-th clock reading. */
  lemma {:induction false} ImportedFolderAt(fs: seq<Folder>, next: int, clock: nat -> int, tick: nat, k: nat)
    requires k < |fs|
    ensures ImportedFolders(fs, next, clock, tick)[k]
         == Folder(next + k, fs[k].name, fs[k].parentId, fs[k].position, clock(tick + k))
    decreases k
  {
    if k > 0 {
      ImportedFolderAt(fs[1..], next + 1, clock, tick + 1, k - 1);
    }
  }

  /** The imported folders take exactly the ids `next .. next + |fs| - 1`. */
  lemma {:induction false} ImportedFolderIds(fs: seq<Folder>, next: int, clock: nat -> int, tick: nat)
    ensures FolderIds(ImportedFolders(fs, next, clock, tick)) == IdRange(next, |fs|)
    decreases |fs|
  {
    if fs != [] {
      var head := Folder(next, fs[0].name, fs[0].parentId, fs[0].position, clock(tick));
      ImportedFolderIds(fs[1..], next + 1, clock, tick + 1);
      FolderIdsConcat([head], ImportedFolders(fs[1..], next + 1, clock, tick + 1));
      assert FolderIds([head]) == {next};
    }
  }

  /** The folder loop of `importBookmarks`: one `addFolder` per entry, with
      the entry's name, parent and position, stopping at the first
      rejection. Parent ids are used as given, not renumbered. Each
      `addFolder` reads the clock itself: the first reads `clock(tick)`,
      the next `clock(tick + 1)`, and so on. */
  function AddFolders(db: BookmarkDb, fs: seq<Folder>, clock: nat -> int, tick: nat): (r: Result<BookmarkDb, StoreError>)
    ensures r.Ok? <==> FoldersResolve(FolderIds(db.folders), db.folderSeq + 1, fs)
    ensures r.Err? ==> r.error == ForeignKeyViolation
    ensures r.Ok? ==> r.value.folders == db.folders + ImportedFolders(fs, db.folderSeq + 1, clock, tick)
    ensures r.Ok? ==> r.value.folderSeq == db.folderSeq + |fs|
    ensures r.Ok? ==> r.value.bookmarks == db.bookmarks && r.value.bookmarkSeq == db.bookmarkSeq
    ensures r.Ok? && Valid(db) ==> Valid(r.value)
    decreases |fs|
  {
    if fs == [] then
      assert db.folders + [] == db.folders;
      Ok(db)
    else
      match AddFolder(db, NewFolder(fs[0].name, fs[0].parentId, fs[0].position), clock(tick))
      case Err(e) =>
        assert !FoldersResolve(FolderIds(db.folders), db.folderSeq + 1, fs);
        Err(e)
      case Ok(ins) =>
        var r := AddFolders(ins.db, fs[1..], clock, tick + 1);
        ResolveStep(db, fs, ins.db);
        if r.Ok? then
          AddFoldersStep(db.folders, fs, db.folderSeq + 1, clock, tick);
          r
        else r
  }

  /** One more imported folder resolves exactly when its parent does. */
  lemma ResolveStep(db: BookmarkDb, fs: seq<Folder>, mid: BookmarkDb)
    requires fs != []
    requires FolderIds(mid.folders) == FolderIds(db.folders) + {db.folderSeq + 1}
    requires mid.folderSeq == db.folderSeq + 1
    ensures FoldersResolve(FolderIds(db.folders), db.folderSeq + 1, fs)
        <==> InsertRefOk(db.folders, fs[0].parentId, db.folderSeq + 1)
             && FoldersResolve(FolderIds(mid.folders), mid.folderSeq + 1, fs[1..])
  {
  }

  /** Appending the first imported row and then the rest's rows is
      appending the whole import. */
  lemma AddFoldersStep(pre: seq<Folder>, fs: seq<Folder>, next: int, clock: nat -> int, tick: nat)
    requires fs != []
    ensures (pre + [Folder(next, fs[0].name, fs[0].parentId, fs[0].position, clock(tick))])
            + ImportedFolders(fs[1..], next + 1, clock, tick + 1)
         == pre + ImportedFolders(fs, next, clock, tick)
  {
    var head := Folder(next, fs[0].name, fs[0].parentId, fs[0].position, clock(tick));
    var rest := ImportedFolders(fs[1..], next + 1, clock, tick + 1);
    ImportedFoldersCons(fs, next, clock, tick);
    assert (pre + [head]) + rest == pre + ([head] + rest);
  }

  /** Every bookmark of an import names NULL or one of the folders `known`. */
  predicate BookmarksResolve(known: set<int>, bs: seq<Bookmark>) {
    forall k :: 0 <= k < |bs| ==> bs[k].folderId.None? || bs[k].folderId.value in known
  }

  /** The rows an import of `bs` appends, numbered from `next`: the given
      columns, with `|| null` applied to favicon and tags, each stamped with
      the clock reading its own insert takes, `clock(tick)` for the first. */
  function ImportedBookmarks(bs: seq<Bookmark>, next: int, clock: nat -> int, tick: nat): (r: seq<Bookmark>)
    ensures |r| == |bs|
    decreases |bs|
  {
    if bs == [] then []
    else
      [Bookmark(next, bs[0].title, bs[0].url, NullIfEmpty(bs[0].favicon), bs[0].folderId, bs[0].position,
                clock(tick), NullIfEmpty(bs[0].tags))]
      + ImportedBookmarks(bs[1..], next + 1, clock, tick + 1)
  }

  /** An import's first bookmark row, followed by the rows of the rest. */
  lemma ImportedBookmarksCons(bs: seq<Bookmark>, next: int, clock: nat -> int, tick: nat)
    requires bs != []
    ensures ImportedBookmarks(bs, next, clock, tick)
         == [Bookmark(next, bs[0].title, bs[0].url, NullIfEmpty(bs[0].favicon), bs[0].folderId, bs[0].position,
                      clock(tick), NullIfEmpty(bs[0].tags))]
            + ImportedBookmarks(bs[1..], next + 1, clock, tick + 1)
  {
  }

  /** The `k`-th imported bookmark keeps the entry's columns, with `|| null`
      applied to favicon and tags, gets id `next + k` and the `k`-th clock
      reading. */
  lemma {:induction false} ImportedBookmarkAt(bs: seq<Bookmark>, next: int, clock: nat -> int, tick: nat, k: nat)
    requires k < |bs|
    ensures ImportedBookmarks(bs, next, clock, tick)[k]
         == Bookmark(next + k, bs[k].title, bs[k].url, NullIfEmpty(bs[k].favicon), bs[k].folderId,
                     bs[k].position, clock(tick + k), NullIfEmpty(bs[k].tags))
    decreases k
  {
    if k > 0 {
      ImportedBookmarkAt(bs[1..], next + 1, clock, tick + 1, k - 1);
    }
  }

  /** The argument `importBookmarks` passes to `addBookmark` for an entry. */
  function Resubmit(b: Bookmark): NewBookmark {
    NewBookmark(b.title, b.url, b.favicon, b.folderId, b.position, b.tags)
  }

  /** The bookmark loop of `importBookmarks`; each `addBookmark` reads the
      clock itself, the first reading `clock(tick)`. */
  function AddBookmarks(db: BookmarkDb, bs: seq<Bookmark>, clock: nat -> int, tick: nat): (r: Result<BookmarkDb, StoreError>)
    ensures r.Ok? <==> BookmarksResolve(FolderIds(db.folders), bs)
    ensures r.Err? ==> r.error == ForeignKeyViolation
    ensures r.Ok? ==> r.value.bookmarks == db.bookmarks + ImportedBookmarks(bs, db.bookmarkSeq + 1, clock, tick)
    ensures r.Ok? ==> r.value.bookmarkSeq == db.bookmarkSeq + |bs|
    ensures r.Ok? ==> r.value.folders == db.folders && r.value.folderSeq == db.folderSeq
    ensures r.Ok? && Valid(db) ==> Valid(r.value)
    decreases |bs|
  {
    if bs == [] then
      assert db.bookmarks + [] == db.bookmarks;
      Ok(db)
    else
      assert BookmarksResolve(FolderIds(db.folders), bs)
         <==> RefOk(db.folders, bs[0].folderId) && BookmarksResolve(FolderIds(db.folders), bs[1..]) by {
        assert forall k :: 0 < k < |bs| ==> bs[k] == bs[1..][k - 1];
      }
      match AddBookmark(db, Resubmit(bs[0]), clock(tick))
      case Err(e) => Err(e)
      case Ok(ins) =>
        var r := AddBookmarks(ins.db, bs[1..], clock, tick + 1);
        AddBookmarksStep(db.bookmarks, bs, db.bookmarkSeq + 1, clock, tick);
        r
  }

  /** Appending the first imported bookmark and then the rest's rows is
      appending the whole import. */
  lemma AddBookmarksStep(pre: seq<Bookmark>, bs: seq<Bookmark>, next: int, clock: nat -> int, tick: nat)
    requires bs != []
    ensures (pre + [Bookmark(next, bs[0].title, bs[0].url, NullIfEmpty(bs[0].favicon), bs[0].folderId,
                             bs[0].position, clock(tick), NullIfEmpty(bs[0].tags))])
            + ImportedBookmarks(bs[1..], next + 1, clock, tick + 1)
         == pre + ImportedBookmarks(bs, next, clock, tick)
  {
    var head := Bookmark(next, bs[0].title, bs[0].url, NullIfEmpty(bs[0].favicon), bs[0].folderId,
                         bs[0].position, clock(tick), NullIfEmpty(bs[0].tags));
    var rest := ImportedBookmarks(bs[1..], next + 1, clock, tick + 1);
    ImportedBookmarksCons(bs, next, clock, tick);
    assert (pre + [head]) + rest == pre + ([head] + rest);
  }

  /** The entries of an import all resolve: the folders one after the
      other, then the bookmarks against the old and the imported folders. */
  predicate ImportResolves(db: BookmarkDb, fs: seq<Folder>, bs: seq<Bookmark>) {
    && FoldersResolve(FolderIds(db.folders), db.folderSeq + 1, fs)
    && BookmarksResolve(FolderIds(db.folders) + IdRange(db.folderSeq + 1, |fs|), bs)
  }

  /** `d` is `db` with the import of `fs` and `bs` appended: the folders
      first, numbered on from the folder counter and stamped with the first
      `|fs|` clock readings, then the bookmarks, numbered on from the
      bookmark counter and stamped with the readings after those. */
  predicate ImportedInto(db: BookmarkDb, fs: seq<Folder>, bs: seq<Bookmark>, clock: nat -> int, d: BookmarkDb) {
    && d.folders == db.folders + ImportedFolders(fs, db.folderSeq + 1, clock, 0)
    && d.bookmarks == db.bookmarks + ImportedBookmarks(bs, db.bookmarkSeq + 1, clock, |fs|)
    && d.folderSeq == db.folderSeq + |fs| && d.bookmarkSeq == db.bookmarkSeq + |bs|
  }

  /** `importBookmarks(data)`: the folders, then the bookmarks, inside one
      transaction. Either every entry is added or, at the first rejected
      one, the whole import is rolled back and the error is raised; a
      missing list is skipped. Every inserted row reads the clock anew:
      the folders take `clock(0)`, `clock(1)`, ... in order and the
      bookmarks the readings after them. */
  function ImportBookmarks(db: BookmarkDb, folders: Option<seq<Folder>>, bookmarks: Option<seq<Bookmark>>, clock: nat -> int)
    : (r: Result<BookmarkDb, StoreError>)
    ensures r.Ok? <==> ImportResolves(db, folders.GetOr([]), bookmarks.GetOr([]))
    ensures r.Ok? ==> ImportedInto(db, folders.GetOr([]), bookmarks.GetOr([]), clock, r.value)
    ensures r.Err? ==> r.error == ForeignKeyViolation
    ensures r.Ok? && Valid(db) ==> Valid(r.value)
  {
    var fs := folders.GetOr([]);
    match AddFolders(db, fs, clock, 0)
    case Err(e) => Err(e)
    case Ok(mid) => ImportBookmarkRows(db, mid, fs, bookmarks.GetOr([]), clock)
  }

  /** The bookmark half of an import, run on `mid`, the table after the
      folder loop: the bookmarks may be filed in the old folders or in the
      just-imported ones, and they read the clock after the folders did. */
  function ImportBookmarkRows(db: BookmarkDb, mid: BookmarkDb, fs: seq<Folder>, bs: seq<Bookmark>, clock: nat -> int)
    : (r: Result<BookmarkDb, StoreError>)
    requires FoldersResolve(FolderIds(db.folders), db.folderSeq + 1, fs)
    requires mid.folders == db.folders + ImportedFolders(fs, db.folderSeq + 1, clock, 0)
    requires mid.folderSeq == db.folderSeq + |fs|
    requires mid.bookmarks == db.bookmarks && mid.bookmarkSeq == db.bookmarkSeq
    ensures r.Ok? <==> ImportResolves(db, fs, bs)
    ensures r.Err? ==> r.error == ForeignKeyViolation
    ensures r.Ok? ==> ImportedInto(db, fs, bs, clock, r.value)
    ensures r.Ok? && Valid(mid) ==> Valid(r.value)
  {
    ImportedFoldersKnown(db, fs, bs, clock, mid);
    AddBookmarks(mid, bs, clock, |fs|)
  }

  /** After the folder loop the table knows exactly the old folders and
      the imported ones, so a bookmark of the import resolves against the
      one set exactly when it resolves against the other. */
  lemma ImportedFoldersKnown(db: BookmarkDb, fs: seq<Folder>, bs: seq<Bookmark>, clock: nat -> int, mid: BookmarkDb)
    requires mid.folders == db.folders + ImportedFolders(fs, db.folderSeq + 1, clock, 0)
    ensures FolderIds(mid.folders) == FolderIds(db.folders) + IdRange(db.folderSeq + 1, |fs|)
    ensures BookmarksResolve(FolderIds(mid.folders), bs)
        <==> BookmarksResolve(FolderIds(db.folders) + IdRange(db.folderSeq + 1, |fs|), bs)
  {
    FolderIdsConcat(db.folders, ImportedFolders(fs, db.folderSeq + 1, clock, 0));
    ImportedFolderIds(fs, db.folderSeq + 1, clock, 0);
  }

  /** Importing what `exportBookmarks` produced adds a second copy of every
      bookmark under fresh ids: an import never merges with existing rows. */
  lemma ReimportDuplicates(db: BookmarkDb, clock: nat -> int)
    requires Valid(db)
    ensures var r := ImportBookmarks(db, None, Some(ExportBookmarks(db).bookmarks), clock);
      r.Ok? && |r.value.bookmarks| == 2 * |db.bookmarks| && r.value.folders == db.folders
  {
    var bs := ExportBookmarks(db).bookmarks;
    ExportedBookmarksResolve(db);
    assert IdRange(db.folderSeq + 1, 0) == {};
    assert FolderIds(db.folders) + {} == FolderIds(db.folders);
    assert ImportResolves(db, [], bs);
    assert ImportedFolders([], db.folderSeq + 1, clock, 0) == [];
    assert db.folders + [] == db.folders;
  }

  /** Every exported bookmark names NULL or a folder of the table. */
  lemma ExportedBookmarksResolve(db: BookmarkDb)
    requires Valid(db)
    ensures BookmarksResolve(FolderIds(db.folders), ExportBookmarks(db).bookmarks)
  {
    var bs := ExportBookmarks(db).bookmarks;
    forall k | 0 <= k < |bs| ensures RefOk(db.folders, bs[k].folderId) {
      assert bs[k] in multiset(db.bookmarks);
    }
  }
}
