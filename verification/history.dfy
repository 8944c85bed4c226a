/** The visit log: one row per URL kept by an upsert, its read queries, the
    per-page duration counter, and the append-only log of search queries.
    The two SQL tables are sequences of rows; `visitSeq` and `querySeq` are
    the AUTOINCREMENT counters, each at or above every id issued so far. A
    new row here takes the counter plus one; SQLite may skip ids (its upsert
    consumes one on the update path too), so the contracts promise only a
    fresh id above the earlier ones, never a particular one. The clock is
    the parameter `now`. */
module History {
  import opened Wrappers
  import opened Text
  import Seqs
  import Ranking

  /** A row of the `history` table. */
  datatype Visit = Visit(
    id: int,
    url: string,
    title: string,
    visitCount: int,
    lastVisit: int,
    favicon: Option<string>,
    duration: int)

  /** A row of the `search_queries` table. */
  datatype SearchQuery = SearchQuery(id: int, query: string, timestamp: int, resultUrl: Option<string>)

  /** The history database: both tables and their id counters. */
  datatype HistoryDb = HistoryDb(visits: seq<Visit>, queries: seq<SearchQuery>, visitSeq: nat, querySeq: nat)

  /** Default `limit` of `getHistory`, `searchHistory`, `getSearchHistory`, `getTopVisited`. */
  const PageLimit := 100
  const SearchLimit := 50
  const SearchLogLimit := 50
  const TopLimit := 10

  function Empty(): HistoryDb {
    HistoryDb([], [], 0, 0)
  }

  /** The `UNIQUE(url)` constraint: at most one row per URL. */
  ghost predicate UniqueUrls(vs: seq<Visit>) {
    forall i, j :: 0 <= i < j < |vs| ==> vs[i].url != vs[j].url
  }

  /** The table invariants: unique URLs, unique ids below the counter, and a
      visit count of at least one on every row. */
  ghost predicate Valid(db: HistoryDb) {
    && UniqueUrls(db.visits)
    && (forall i, j :: 0 <= i < j < |db.visits| ==> db.visits[i].id != db.visits[j].id)
    && (forall i :: 0 <= i < |db.visits| ==> 0 < db.visits[i].id <= db.visitSeq && db.visits[i].visitCount >= 1)
    && (forall i :: 0 <= i < |db.queries| ==> 0 < db.queries[i].id <= db.querySeq)
  }

  /** Position of the row for `url`, searching from `i`. */
  function FindUrl(vs: seq<Visit>, url: string, i: nat): (r: Option<nat>)
    requires i <= |vs|
    ensures r.Some? ==> i <= r.value < |vs| && vs[r.value].url == url
    ensures r.Some? ==> forall k :: i <= k < r.value ==> vs[k].url != url
    ensures r.None? ==> forall k :: i <= k < |vs| ==> vs[k].url != url
    decreases |vs| - i
  {
    if i == |vs| then None
    else if vs[i].url == url then Some(i)
    else FindUrl(vs, url, i + 1)
  }

  /** The row for `url`, if there is one (`SELECT ... WHERE url = ?`). */
  function Lookup(vs: seq<Visit>, url: string): (r: Option<Visit>)
    ensures r.Some? ==> r.value in vs && r.value.url == url
    ensures r.None? <==> forall v :: v in vs ==> v.url != url
  {
    match FindUrl(vs, url, 0)
    case Some(i) => Some(vs[i])
    case None => None
  }

  /** In a table with unique URLs the row at index `i` is the row for its URL. */
  lemma LookupUnique(vs: seq<Visit>, i: nat)
    requires UniqueUrls(vs)
    requires i < |vs|
    ensures Lookup(vs, vs[i].url) == Some(vs[i])
  {
    var k := FindUrl(vs, vs[i].url, 0);
    assert k.Some?;
  }

  /** The row a repeat visit leaves behind: the counter goes up by one, the
      time and title are overwritten, and `COALESCE` keeps the old favicon
      unless a non-empty one is supplied. */
  function Revisit(v: Visit, title: string, favicon: Option<string>, now: int): Visit {
    v.(visitCount := v.visitCount + 1,
       lastVisit := now,
       title := title,
       favicon := if NullIfEmpty(favicon).Some? then favicon else v.favicon)
  }

  /** `addVisit`: `INSERT ... ON CONFLICT(url) DO UPDATE`. */
  function AddVisit(db: HistoryDb, url: string, title: string, favicon: Option<string>, now: int): (r: HistoryDb)
    ensures r.queries == db.queries && r.querySeq == db.querySeq
    ensures Valid(db) ==> Valid(r)
    ensures Lookup(r.visits, url).Some?
    ensures var w := Lookup(r.visits, url).value;
      && w.lastVisit == now && w.title == title
      && (Lookup(db.visits, url).None? ==>
            && w.visitCount == 1 && w.duration == 0 && w.favicon == NullIfEmpty(favicon)
            && |r.visits| == |db.visits| + 1
            && w.id > db.visitSeq
            && (Valid(db) ==> forall k :: 0 <= k < |db.visits| ==> db.visits[k].id < w.id))
      && (Lookup(db.visits, url).Some? ==>
            var v := Lookup(db.visits, url).value;
            && w.id == v.id && w.visitCount == v.visitCount + 1 && w.duration == v.duration
            && (NullIfEmpty(favicon).Some? ==> w.favicon == favicon)
            && (NullIfEmpty(favicon).None? ==> w.favicon == v.favicon)
            && |r.visits| == |db.visits|)
    ensures forall u :: u != url ==> Lookup(r.visits, u) == Lookup(db.visits, u)
  {
    match FindUrl(db.visits, url, 0)
    case None =>
      var row := Visit(db.visitSeq + 1, url, title, 1, now, NullIfEmpty(favicon), 0);
      var r := db.(visits := db.visits + [row], visitSeq := row.id);
      AppendRowFacts(db, row);
      r
    case Some(i) =>
      var r := db.(visits := db.visits[i := Revisit(db.visits[i], title, favicon, now)]);
      ReplaceRowFacts(db, i, Revisit(db.visits[i], title, favicon, now));
      r
  }

  /** Appending a row for a new URL: it becomes the row for its URL and
      every other URL keeps its row. */
  lemma AppendRowFacts(db: HistoryDb, row: Visit)
    requires Lookup(db.visits, row.url).None?
    requires row.id == db.visitSeq + 1 && row.visitCount >= 1
    ensures Lookup(db.visits + [row], row.url) == Some(row)
    ensures forall u :: u != row.url ==> Lookup(db.visits + [row], u) == Lookup(db.visits, u)
    ensures Valid(db) ==> Valid(db.(visits := db.visits + [row], visitSeq := row.id))
  {
    var vs := db.visits + [row];
    forall u | u != row.url ensures FindUrl(vs, u, 0) == FindUrl(db.visits, u, 0) {
      AppendKeepsFind(db.visits, row, u, 0);
    }
    AppendKeepsFind(db.visits, row, row.url, 0);
    assert FindUrl(vs, row.url, |db.visits|) == Some(|db.visits|);
  }

  /** Replacing the row at `i` by a row for the same URL: it becomes the
      row for that URL and every other URL keeps its row. */
  lemma ReplaceRowFacts(db: HistoryDb, i: nat, w: Visit)
    requires FindUrl(db.visits, w.url, 0) == Some(i)
    requires w.id == db.visits[i].id && w.visitCount >= db.visits[i].visitCount
    ensures Lookup(db.visits[i := w], w.url) == Some(w)
    ensures forall u :: u != w.url ==> Lookup(db.visits[i := w], u) == Lookup(db.visits, u)
    ensures Valid(db) ==> Valid(db.(visits := db.visits[i := w]))
  {
    var vs := db.visits[i := w];
    forall u | u != w.url ensures FindUrl(vs, u, 0) == FindUrl(db.visits, u, 0) {
      ReplaceKeepsFind(db.visits, i, w, u, 0);
    }
    ReplaceKeepsFind(db.visits, i, w, w.url, 0);
  }

  lemma {:induction false} AppendKeepsFind(vs: seq<Visit>, row: Visit, u: string, i: nat)
    requires i <= |vs|
    ensures FindUrl(vs, u, i).Some? ==> FindUrl(vs + [row], u, i) == FindUrl(vs, u, i)
    ensures FindUrl(vs, u, i).None? ==> FindUrl(vs + [row], u, i) == FindUrl(vs + [row], u, |vs|)
    ensures FindUrl(vs + [row], u, |vs|) == if row.url == u then Some(|vs|) else None
    decreases |vs| - i
  {
    var ws := vs + [row];
    assert FindUrl(ws, u, |vs| + 1) == None;
    if i < |vs| {
      assert ws[i] == vs[i];
      AppendKeepsFind(vs, row, u, i + 1);
    }
  }

  lemma {:induction false} ReplaceKeepsFind(vs: seq<Visit>, k: nat, w: Visit, u: string, i: nat)
    requires k < |vs| && i <= |vs|
    requires vs[k].url == w.url
    ensures FindUrl(vs[k := w], u, i).Some? == FindUrl(vs, u, i).Some?
    ensures FindUrl(vs, u, i).Some? ==> FindUrl(vs[k := w], u, i) == FindUrl(vs, u, i)
    decreases |vs| - i
  {
    if i < |vs| {
      ReplaceKeepsFind(vs, k, w, u, i + 1);
    }
  }

  /** `getHistory`, `searchHistory` and `getHistoryByDate` order by `lastVisit` descending. */
  function Recency(v: Visit): Ranking.Key {
    Ranking.Key(v.lastVisit, 0)
  }

  /** `getTopVisited` orders by `visitCount` descending, then `lastVisit` descending. */
  function Popularity(v: Visit): Ranking.Key {
    Ranking.Key(v.visitCount, v.lastVisit)
  }

  /** `getSearchHistory` orders by `timestamp` descending. */
  function QueryRecency(e: SearchQuery): Ranking.Key {
    Ranking.Key(e.timestamp, 0)
  }

  /** `getHistory(limit, offset)`: the rows newest first, skipping the
      first `offset` of them. */
  function GetHistory(db: HistoryDb, limit: Option<int>, offset: Option<int>): (r: seq<Visit>)
    ensures forall i, j :: 0 <= i < j < |r| ==> r[i].lastVisit >= r[j].lastVisit
    ensures multiset(r) <= multiset(db.visits)
    ensures |r| == Seqs.WindowSize(|db.visits|, limit.GetOr(PageLimit), offset.GetOr(0))
  {
    var r := Ranking.RankedWindow(db.visits, Recency, limit.GetOr(PageLimit), offset.GetOr(0));
    SortedByRecency(r);
    r
  }

  /** Paging is consistent: two consecutive pages of `k` rows are the page
      of `2k` rows starting at the same offset. */
  lemma GetHistoryPagesConcat(db: HistoryDb, k: nat, offset: nat)
    ensures GetHistory(db, Some(k), Some(offset)) + GetHistory(db, Some(k), Some(offset + k))
         == GetHistory(db, Some(2 * k), Some(offset))
  {
    var ranked := Ranking.Sort(db.visits, Recency);
    assert GetHistory(db, Some(k), Some(offset)) == Seqs.Window(ranked, k, offset);
    assert GetHistory(db, Some(k), Some(offset + k)) == Seqs.Window(ranked, k, offset + k);
    assert GetHistory(db, Some(2 * k), Some(offset)) == Seqs.Window(ranked, 2 * k, offset);
    Seqs.WindowPagesConcat(ranked, k, offset);
  }

  /** A page is the `LIMIT`/`OFFSET` window of one newest-first ordering of
      the whole table: it skips the first `offset` rows of that ordering and
      takes the next `limit`. */
  lemma GetHistoryIsWindow(db: HistoryDb, limit: Option<int>, offset: Option<int>)
    ensures Ranking.WindowOfRanking(GetHistory(db, limit, offset), db.visits, Recency, limit.GetOr(PageLimit), offset.GetOr(0))
  {
    Ranking.RankedWindowIsWindowOfRanking(db.visits, Recency, limit.GetOr(PageLimit), offset.GetOr(0));
  }

  /** The first page is a top-k answer: every row it leaves out was visited
      no later than every row it returns. */
  lemma GetHistoryFirstPageIsNewest(db: HistoryDb, k: nat)
    ensures var r := GetHistory(db, Some(k), Some(0));
      forall x, y :: x in r && y in multiset(db.visits) - multiset(r) ==> x.lastVisit >= y.lastVisit
  {
    Ranking.TopK(db.visits, Recency, k);
  }

  /** The SQL condition `url LIKE '%q%' OR title LIKE '%q%'`. */
  predicate MatchesQuery(v: Visit, q: string) {
    ContainsFolded(v.url, q) || ContainsFolded(v.title, q)
  }

  function QueryFilter(q: string): Visit -> bool {
    v => MatchesQuery(v, q)
  }

  /** `searchHistory(query, limit = 50)`. */
  function SearchHistory(db: HistoryDb, q: string, limit: Option<int>): (r: seq<Visit>)
    ensures forall v :: v in r ==> v in db.visits && MatchesQuery(v, q)
    ensures forall i, j :: 0 <= i < j < |r| ==> r[i].lastVisit >= r[j].lastVisit
    ensures multiset(r) <= multiset(db.visits)
    ensures |r| == Seqs.WindowSize(|Seqs.Filter(db.visits, QueryFilter(q))|, limit.GetOr(SearchLimit), 0)
    ensures limit.GetOr(SearchLimit) < 0 || limit.GetOr(SearchLimit) >= |db.visits| ==>
      forall v :: v in db.visits && MatchesQuery(v, q) ==> v in r
  {
    var matching := Seqs.Filter(db.visits, QueryFilter(q));
    Seqs.FilterShrinks(db.visits, QueryFilter(q));
    var r := Ranking.RankedWindow(matching, Recency, limit.GetOr(SearchLimit), 0);
    RankedSubset(db.visits, q, matching, r, limit.GetOr(SearchLimit));
    r
  }

  lemma RankedSubset(vs: seq<Visit>, q: string, matching: seq<Visit>, r: seq<Visit>, limit: int)
    requires forall v :: v in matching <==> v in vs && QueryFilter(q)(v)
    requires multiset(matching) <= multiset(vs) && |matching| <= |vs|
    requires multiset(r) <= multiset(matching)
    requires Ranking.SortedBy(r, Recency)
    requires (limit < 0 || limit >= |matching|) ==> multiset(r) == multiset(matching)
    ensures forall v :: v in r ==> v in vs && MatchesQuery(v, q)
    ensures forall i, j :: 0 <= i < j < |r| ==> r[i].lastVisit >= r[j].lastVisit
    ensures multiset(r) <= multiset(vs)
    ensures limit < 0 || limit >= |vs| ==> forall v :: v in vs && MatchesQuery(v, q) ==> v in r
  {
    assert forall v :: QueryFilter(q)(v) == MatchesQuery(v, q);
    assert forall v :: v in r ==> v in multiset(matching);
    SortedByRecency(r);
    assert limit < 0 || limit >= |vs| ==> forall v :: v in matching ==> v in multiset(r);
  }

  /** The search answers the first `limit` rows of one newest-first
      ordering of all matching rows. */
  lemma SearchHistoryIsWindow(db: HistoryDb, q: string, limit: Option<int>)
    ensures Ranking.WindowOfRanking(SearchHistory(db, q, limit), Seqs.Filter(db.visits, QueryFilter(q)), Recency, limit.GetOr(SearchLimit), 0)
  {
    Ranking.RankedWindowIsWindowOfRanking(Seqs.Filter(db.visits, QueryFilter(q)), Recency, limit.GetOr(SearchLimit), 0);
  }

  /** Under a limit the search returns the newest matches: no matching row
      left out was visited later than a row returned. */
  lemma SearchHistoryIsNewest(db: HistoryDb, q: string, k: nat)
    ensures var r := SearchHistory(db, q, Some(k));
      forall x, y :: x in r && y in multiset(Seqs.Filter(db.visits, QueryFilter(q))) - multiset(r) ==>
        x.lastVisit >= y.lastVisit
  {
    var matching := Seqs.Filter(db.visits, QueryFilter(q));
    var r := Ranking.RankedWindow(matching, Recency, k, 0);
    assert SearchHistory(db, q, Some(k)) == r;
    Ranking.TopK(matching, Recency, k);
    LeadsByRecency(r, multiset(matching) - multiset(r));
  }

  lemma LeadsByRecency(r: seq<Visit>, rest: multiset<Visit>)
    requires forall x, y :: x in r && y in rest ==> Ranking.Ahead(Recency(x), Recency(y))
    ensures forall x, y :: x in r && y in rest ==> x.lastVisit >= y.lastVisit
  {
  }

  /** `getHistoryByDate(start, end)`: `lastVisit BETWEEN start AND end`, both ends included. */
  function GetHistoryByDate(db: HistoryDb, start: int, end: int): (r: seq<Visit>)
    ensures forall v :: v in r <==> v in db.visits && start <= v.lastVisit <= end
    ensures forall i, j :: 0 <= i < j < |r| ==> r[i].lastVisit >= r[j].lastVisit
    ensures multiset(r) <= multiset(db.visits)
  {
    var inRange := Seqs.Filter(db.visits, (v: Visit) => start <= v.lastVisit <= end);
    Seqs.FilterShrinks(db.visits, (v: Visit) => start <= v.lastVisit <= end);
    var r := Ranking.Sort(inRange, Recency);
    SortedByRecency(r);
    Seqs.MultisetMembers(r, inRange);
    r
  }

  lemma SortedByRecency(r: seq<Visit>)
    requires Ranking.SortedBy(r, Recency)
    ensures forall i, j :: 0 <= i < j < |r| ==> r[i].lastVisit >= r[j].lastVisit
  {
    assert forall i, j :: 0 <= i < j < |r| ==> Ranking.Ahead(Recency(r[i]), Recency(r[j]));
  }

  /** `deleteHistory(url)`. */
  function DeleteHistory(db: HistoryDb, url: string): (r: HistoryDb)
    ensures forall v :: v in r.visits <==> v in db.visits && v.url != url
    ensures Lookup(r.visits, url).None?
    ensures Seqs.IsSubsequence(r.visits, db.visits)
    ensures r.queries == db.queries && r.visitSeq == db.visitSeq && r.querySeq == db.querySeq
    ensures Valid(db) ==> Valid(r)
  {
    var keep := (v: Visit) => v.url != url;
    var r := db.(visits := Seqs.Filter(db.visits, keep));
    assert Valid(db) ==> Valid(r) by {
      if Valid(db) { FilterKeepsValid(db, keep); }
    }
    r
  }

  /** `clearHistory(olderThan?)`: a truthy `olderThan` deletes the rows
      strictly older than it, a missing or zero one deletes every row. The
      search log is kept either way. */
  function ClearHistory(db: HistoryDb, olderThan: Option<int>): (r: HistoryDb)
    ensures olderThan.GetOr(0) == 0 ==> r.visits == []
    ensures olderThan.GetOr(0) != 0 ==>
      forall v :: v in r.visits <==> v in db.visits && v.lastVisit >= olderThan.value
    ensures Seqs.IsSubsequence(r.visits, db.visits)
    ensures r.queries == db.queries && r.visitSeq == db.visitSeq && r.querySeq == db.querySeq
    ensures Valid(db) ==> Valid(r)
  {
    match olderThan
    case Some(t) =>
      if t != 0 then
        var keep := (v: Visit) => v.lastVisit >= t;
        var r := db.(visits := Seqs.Filter(db.visits, keep));
        assert Valid(db) ==> Valid(r) by {
          if Valid(db) { FilterKeepsValid(db, keep); }
        }
        r
      else db.(visits := [])
    case None => db.(visits := [])
  }

  function UrlKey(v: Visit): string { v.url }
  function IdKey(v: Visit): int { v.id }

  /** Deleting rows keeps the table invariants. */
  lemma FilterKeepsValid(db: HistoryDb, keep: Visit -> bool)
    requires Valid(db)
    ensures Valid(db.(visits := Seqs.Filter(db.visits, keep)))
  {
    var r := Seqs.Filter(db.visits, keep);
    assert Seqs.DistinctKeys(db.visits, UrlKey) && Seqs.DistinctKeys(db.visits, IdKey);
    Seqs.FilterKeepsDistinct(db.visits, keep, UrlKey);
    Seqs.FilterKeepsDistinct(db.visits, keep, IdKey);
    forall i | 0 <= i < |r| ensures 0 < r[i].id <= db.visitSeq && r[i].visitCount >= 1 {
      assert r[i] in db.visits;
    }
  }

  /** `addSearchQuery(query, resultUrl?)`: appends one log entry and leaves
      the visit table alone. */
  function AddSearchQuery(db: HistoryDb, query: string, resultUrl: Option<string>, now: int): (r: HistoryDb)
    ensures r.visits == db.visits && r.visitSeq == db.visitSeq
    ensures |r.queries| == |db.queries| + 1 && r.queries[..|db.queries|] == db.queries
    ensures var e := r.queries[|db.queries|];
      && e.query == query && e.timestamp == now && e.resultUrl == NullIfEmpty(resultUrl)
      && e.id > db.querySeq
      && (Valid(db) ==> forall k :: 0 <= k < |db.queries| ==> db.queries[k].id < e.id)
    ensures Valid(db) ==> Valid(r)
  {
    var id := db.querySeq + 1;
    var r := db.(queries := db.queries + [SearchQuery(id, query, now, NullIfEmpty(resultUrl))], querySeq := id);
    assert r.queries[..|db.queries|] == db.queries;
    r
  }

  /** `getSearchHistory(limit = 50)`: newest entries first. */
  function GetSearchHistory(db: HistoryDb, limit: Option<int>): (r: seq<SearchQuery>)
    ensures forall i, j :: 0 <= i < j < |r| ==> r[i].timestamp >= r[j].timestamp
    ensures multiset(r) <= multiset(db.queries)
    ensures |r| == Seqs.WindowSize(|db.queries|, limit.GetOr(SearchLogLimit), 0)
  {
    var r := Ranking.RankedWindow(db.queries, QueryRecency, limit.GetOr(SearchLogLimit), 0);
    assert forall i, j :: 0 <= i < j < |r| ==> Ranking.Ahead(QueryRecency(r[i]), QueryRecency(r[j]));
    r
  }

  /** The log query answers the first `limit` entries of one newest-first
      ordering of the whole log. */
  lemma GetSearchHistoryIsWindow(db: HistoryDb, limit: Option<int>)
    ensures Ranking.WindowOfRanking(GetSearchHistory(db, limit), db.queries, QueryRecency, limit.GetOr(SearchLogLimit), 0)
  {
    Ranking.RankedWindowIsWindowOfRanking(db.queries, QueryRecency, limit.GetOr(SearchLogLimit), 0);
  }

  /** The search log keeps the newest `k` entries: none left out is newer
      than one returned. */
  lemma GetSearchHistoryIsNewest(db: HistoryDb, k: nat)
    ensures var r := GetSearchHistory(db, Some(k));
      forall x, y :: x in r && y in multiset(db.queries) - multiset(r) ==> x.timestamp >= y.timestamp
  {
    Ranking.TopK(db.queries, QueryRecency, k);
  }

  /** `getTopVisited(limit = 10)`. */
  function GetTopVisited(db: HistoryDb, limit: Option<int>): (r: seq<Visit>)
    ensures forall i, j :: 0 <= i < j < |r| ==>
      r[i].visitCount > r[j].visitCount
      || (r[i].visitCount == r[j].visitCount && r[i].lastVisit >= r[j].lastVisit)
    ensures multiset(r) <= multiset(db.visits)
    ensures |r| == Seqs.WindowSize(|db.visits|, limit.GetOr(TopLimit), 0)
  {
    var r := Ranking.RankedWindow(db.visits, Popularity, limit.GetOr(TopLimit), 0);
    assert forall i, j :: 0 <= i < j < |r| ==> Ranking.Ahead(Popularity(r[i]), Popularity(r[j]));
    r
  }

  /** The list is the first `limit` rows of one ordering of the whole
      table by visit count and then by last visit. */
  lemma GetTopVisitedIsWindow(db: HistoryDb, limit: Option<int>)
    ensures Ranking.WindowOfRanking(GetTopVisited(db, limit), db.visits, Popularity, limit.GetOr(TopLimit), 0)
  {
    Ranking.RankedWindowIsWindowOfRanking(db.visits, Popularity, limit.GetOr(TopLimit), 0);
  }

  /** The top-visited list is a top-k answer: no row left out outranks a row returned. */
  lemma TopVisitedIsTopK(db: HistoryDb, k: nat)
    ensures var r := GetTopVisited(db, Some(k));
      forall x, y :: x in r && y in multiset(db.visits) - multiset(r) ==>
        x.visitCount > y.visitCount || (x.visitCount == y.visitCount && x.lastVisit >= y.lastVisit)
  {
    Ranking.TopK(db.visits, Popularity, k);
  }

  /** `updateDuration(url, duration)`: adds to the duration of the row for
      `url` and changes nothing else; without such a row nothing changes. */
  function UpdateDuration(db: HistoryDb, url: string, d: int): (r: HistoryDb)
    ensures |r.visits| == |db.visits|
    ensures forall i :: 0 <= i < |db.visits| && db.visits[i].url != url ==> r.visits[i] == db.visits[i]
    ensures forall i :: 0 <= i < |db.visits| && db.visits[i].url == url ==>
      r.visits[i].duration == db.visits[i].duration + d
      && r.visits[i].(duration := db.visits[i].duration) == db.visits[i]
    ensures Lookup(db.visits, url).None? ==> r == db
    ensures r.queries == db.queries && r.visitSeq == db.visitSeq && r.querySeq == db.querySeq
    ensures Valid(db) ==> Valid(r)
  {
    var vs := seq(|db.visits|, i requires 0 <= i < |db.visits| =>
      if db.visits[i].url == url then db.visits[i].(duration := db.visits[i].duration + d) else db.visits[i]);
    var r := db.(visits := vs);
    assert Lookup(db.visits, url).None? ==> vs == db.visits;
    r
  }

  /** Durations accumulate: two updates add up to one update by the sum. */
  lemma DurationsAccumulate(db: HistoryDb, url: string, a: int, b: int)
    ensures UpdateDuration(UpdateDuration(db, url, a), url, b) == UpdateDuration(db, url, a + b)
  {
    var x := UpdateDuration(UpdateDuration(db, url, a), url, b);
    var y := UpdateDuration(db, url, a + b);
    assert |x.visits| == |y.visits|;
    forall i | 0 <= i < |x.visits| ensures x.visits[i] == y.visits[i] {
      if db.visits[i].url == url {
        assert x.visits[i].(duration := db.visits[i].duration) == db.visits[i];
      }
    }
  }

  /** One call of `addVisit`, recorded for replaying a sequence of visits. */
  datatype VisitCall = VisitCall(url: string, title: string, favicon: Option<string>, now: int)

  function Replay(db: HistoryDb, calls: seq<VisitCall>): HistoryDb
    decreases |calls|
  {
    if calls == [] then db
    else
      var c := calls[0];
      Replay(AddVisit(db, c.url, c.title, c.favicon, c.now), calls[1..])
  }

  /** After any sequence of visits there is still at most one row per URL,
      and the table grew by at most one row per visit. */
  lemma {:induction false} ReplayKeepsOneRowPerUrl(db: HistoryDb, calls: seq<VisitCall>)
    requires Valid(db)
    ensures Valid(Replay(db, calls))
    ensures UniqueUrls(Replay(db, calls).visits)
    ensures |Replay(db, calls).visits| <= |db.visits| + |calls|
    decreases |calls|
  {
    if calls != [] {
      var c := calls[0];
      ReplayKeepsOneRowPerUrl(AddVisit(db, c.url, c.title, c.favicon, c.now), calls[1..]);
    }
  }

  /** Visiting the same URL twice leaves exactly one row for it, with the
      second title and a visit count of two. */
  lemma TwoVisitsOneRow(url: string, t1: string, t2: string, now1: int, now2: int)
    ensures var db := AddVisit(AddVisit(Empty(), url, t1, None, now1), url, t2, None, now2);
      && |db.visits| == 1
      && db.visits[0].url == url && db.visits[0].visitCount == 2 && db.visits[0].title == t2
  {
    var db1 := AddVisit(Empty(), url, t1, None, now1);
    assert |db1.visits| == 1;
    LookupUnique(db1.visits, 0);
    var db := AddVisit(db1, url, t2, None, now2);
    assert Valid(db);
    LookupUnique(db.visits, 0);
  }
}
