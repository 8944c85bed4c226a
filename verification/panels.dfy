/** The two search boxes of the window: the history panel's filter over the
    session history list, and the tab switcher's filter over the open tabs
    together with what picking a tab in it does. Both match the term
    case-insensitively against an entry's title and address. */
module Panels {
  import opened Wrappers
  import opened Text
  import Seqs
  import Browser

  /** An entry whose title or address contains the term, both lower-cased. */
  predicate Matches(title: string, url: string, term: string) {
    ContainsFolded(title, term) || ContainsFolded(url, term)
  }

  /** The empty term is contained in everything, whatever the case. */
  lemma EmptyTermMatches(title: string, url: string)
    ensures Matches(title, url, "")
  {
    assert Lower("") == "";
    EmptyAlwaysContained(Lower(title));
  }

  function ItemMatches(term: string): Browser.HistoryItem -> bool {
    (h: Browser.HistoryItem) => Matches(h.title, h.url, term)
  }

  lemma EmptyTermKeepsItems(history: seq<Browser.HistoryItem>)
    ensures forall i :: 0 <= i < |history| ==> ItemMatches("")(history[i])
  {
    forall i | 0 <= i < |history| ensures ItemMatches("")(history[i]) {
      EmptyTermMatches(history[i].title, history[i].url);
    }
  }

  /** `filteredHistory`: the history entries the term matches, in order. */
  function FilterHistory(history: seq<Browser.HistoryItem>, term: string): (r: seq<Browser.HistoryItem>)
    ensures forall h :: h in r <==> h in history && Matches(h.title, h.url, term)
    ensures Seqs.IsSubsequence(r, history)
    ensures |r| <= |history|
    ensures term == "" ==> r == history
  {
    Seqs.FilterShrinks(history, ItemMatches(term));
    EmptyTermKeepsItems(history);
    Seqs.Filter(history, ItemMatches(term))
  }

  /** The panel shows "No history found" exactly when the filtered list is
      empty. */
  predicate NoHistoryFound(history: seq<Browser.HistoryItem>, term: string) {
    |FilterHistory(history, term)| == 0
  }

  /** The message appears exactly when no entry matches the term; with an
      empty term that is exactly when the history itself is empty. */
  lemma NoHistoryFoundIff(history: seq<Browser.HistoryItem>, term: string)
    ensures NoHistoryFound(history, term) <==> forall i :: 0 <= i < |history| ==> !Matches(history[i].title, history[i].url, term)
    ensures NoHistoryFound(history, "") <==> history == []
  {
    var r := FilterHistory(history, term);
    if r != [] {
      assert r[0] in r;
    }
    if |r| == 0 {
      forall i | 0 <= i < |history| ensures !Matches(history[i].title, history[i].url, term) {
        assert history[i] in history;
      }
    }
    var e := FilterHistory(history, "");
    assert e == history;
  }

  function TabMatches(term: string): Browser.Tab -> bool {
    (t: Browser.Tab) => Matches(t.title, t.url, term)
  }

  lemma EmptyTermKeepsTabs(tabs: seq<Browser.Tab>)
    ensures forall i :: 0 <= i < |tabs| ==> TabMatches("")(tabs[i])
  {
    forall i | 0 <= i < |tabs| ensures TabMatches("")(tabs[i]) {
      EmptyTermMatches(tabs[i].title, tabs[i].url);
    }
  }

  /** `filteredTabs`: the open tabs the term matches, in tab-strip order. */
  function FilterTabs(tabs: seq<Browser.Tab>, term: string): (r: seq<Browser.Tab>)
    ensures forall t :: t in r <==> t in tabs && Matches(t.title, t.url, term)
    ensures Seqs.IsSubsequence(r, tabs)
    ensures |r| <= |tabs|
    ensures term == "" ==> r == tabs
  {
    Seqs.FilterShrinks(tabs, TabMatches(term));
    EmptyTermKeepsTabs(tabs);
    Seqs.Filter(tabs, TabMatches(term))
  }

  /** The tab switcher's own state: whether it is open and the term typed. */
  datatype Switcher = Switcher(open: bool, term: string)

  /** `handleSelect(id)` as the window wires it: the window makes `id` the
      active tab, the switcher closes and its term is cleared. */
  function Select(w: Browser.Window, s: Switcher, id: string): (r: (Browser.Window, Switcher))
    ensures r.0.activeTabId == id
    ensures r.0.tabs == w.tabs && r.0.history == w.history && r.0.downloads == w.downloads
    ensures !r.1.open && r.1.term == ""
  {
    (Browser.SelectTab(w, id), Switcher(false, ""))
  }

  /** Picking a tab the switcher lists makes exactly that tab the active one
      and keeps the window valid; when the switcher opens again, its cleared
      term lists every tab. */
  lemma {:induction false} SelectListed(w: Browser.Window, s: Switcher, t: Browser.Tab)
    requires Browser.Valid(w)
    requires t in FilterTabs(w.tabs, s.term)
    ensures Browser.ActiveTab(Select(w, s, t.id).0) == Some(t)
    ensures Browser.Valid(Select(w, s, t.id).0)
    ensures FilterTabs(Select(w, s, t.id).0.tabs, Select(w, s, t.id).1.term) == w.tabs
  {
    assert t in w.tabs;
    var i :| 0 <= i < |w.tabs| && w.tabs[i] == t;
    var k := Browser.IndexOf(w.tabs, t.id);
    assert Browser.TabId(w.tabs[i]) == Browser.TabId(w.tabs[k]);
    assert Browser.ActiveTab(Select(w, s, t.id).0).value == w.tabs[k];
  }
}
