/** The first, single-file version of the browser window: tabs that hold
    only an address, one address bar, a flat bookmark list of addresses and
    a flat history list. Each handler is a pure step of the app state. The
    embedded page's own back, forward and reload belong to the page view
    and are not part of this state. */
module LegacyApp {
  import opened Wrappers
  import Seqs
  import UriComponent

  /** The page every new tab opens and the close fallback shows. */
  const HomeUrl := "https://www.google.com"

  /** What an address that is not a URL is appended to. */
  const SearchEngine := "https://www.google.com/search?q="

  datatype Tab = Tab(id: int, url: string)

  /** The component state: the tab strip, the active tab's id, the address
      bar's text, the bookmark list and the history list. */
  datatype App = App(tabs: seq<Tab>, activeTab: int, address: string,
                     bookmarks: seq<string>, history: seq<string>)

  function TabId(t: Tab): int { t.id }

  /** `tabs.find(t => t.id === id)`: the first tab with that id. */
  function Find(tabs: seq<Tab>, id: int): (r: Option<Tab>)
    ensures r.Some? ==> r.value in tabs && r.value.id == id
    ensures r.None? <==> forall t :: t in tabs ==> t.id != id
    ensures tabs != [] && tabs[0].id == id ==> r == Some(tabs[0])
  {
    if tabs == [] then None
    else if tabs[0].id == id then Some(tabs[0])
    else Find(tabs[1..], id)
  }

  /** With no id twice, the tab found is the tab carrying the id. */
  lemma FindDistinct(tabs: seq<Tab>, t: Tab)
    requires Seqs.DistinctKeys(tabs, TabId)
    requires t in tabs
    ensures Find(tabs, t.id) == Some(t)
  {
    var f := Find(tabs, t.id).value;
    var i :| 0 <= i < |tabs| && tabs[i] == t;
    var j :| 0 <= j < |tabs| && tabs[j] == f;
    assert TabId(tabs[i]) == TabId(tabs[j]);
  }

  /** The invariant every handler keeps: some tab, no id twice, and the
      active id names a tab. */
  predicate Valid(a: App) {
    a.tabs != [] && Seqs.DistinctKeys(a.tabs, TabId) && Find(a.tabs, a.activeTab).Some?
  }

  /** The state the app starts in. */
  function Initial(): (a: App)
    ensures Valid(a)
    ensures Find(a.tabs, a.activeTab) == Some(Tab(1, HomeUrl)) && a.address == HomeUrl
    ensures a.bookmarks == [] && a.history == []
  {
    App([Tab(1, HomeUrl)], 1, HomeUrl, [], [])
  }

  /** `Math.max(...tabs.map(t => t.id))` over a non-empty strip. */
  function MaxId(tabs: seq<Tab>): (m: int)
    requires tabs != []
    ensures forall t :: t in tabs ==> t.id <= m
    ensures exists t :: t in tabs && t.id == m
  {
    if |tabs| == 1 then tabs[0].id
    else
      var rest := MaxId(tabs[1..]);
      assert forall t :: t in tabs[1..] ==> t in tabs;
      assert forall t :: t in tabs ==> t == tabs[0] || t in tabs[1..];
      if tabs[0].id > rest then tabs[0].id else rest
  }

  /** The id `handleNewTab` gives the new tab: one past the largest id, or
      1 for an empty strip. */
  function NextId(tabs: seq<Tab>): (r: int)
    ensures forall t :: t in tabs ==> t.id < r
    ensures tabs == [] ==> r == 1
    ensures tabs != [] ==> exists t :: t in tabs && t.id == r - 1
  {
    if tabs == [] then 1 else MaxId(tabs) + 1
  }

  /** `handleNewTab`: a home tab with a fresh id is appended, becomes the
      active tab and fills the address bar. */
  function NewTab(a: App): (r: App)
    ensures |r.tabs| == |a.tabs| + 1 && r.tabs[..|a.tabs|] == a.tabs
    ensures forall t :: t in a.tabs ==> t.id != r.activeTab
    ensures r.tabs[|a.tabs|] == Tab(r.activeTab, HomeUrl)
    ensures r.address == HomeUrl
    ensures r.bookmarks == a.bookmarks && r.history == a.history
  {
    var id := NextId(a.tabs);
    a.(tabs := a.tabs + [Tab(id, HomeUrl)], activeTab := id, address := HomeUrl)
  }

  /** A new tab keeps ids distinct, and the new id is the active one. */
  lemma {:induction false} NewTabValid(a: App)
    requires Seqs.DistinctKeys(a.tabs, TabId)
    ensures Valid(NewTab(a))
    ensures Find(NewTab(a).tabs, NewTab(a).activeTab) == Some(Tab(NewTab(a).activeTab, HomeUrl))
  {
    var r := NewTab(a);
    var n := |a.tabs|;
    forall i, j | 0 <= i < j < |r.tabs| ensures TabId(r.tabs[i]) != TabId(r.tabs[j]) {
      if j == n {
        assert r.tabs[i] in a.tabs;
      } else {
        assert TabId(a.tabs[i]) != TabId(a.tabs[j]);
      }
    }
    assert r.tabs[n] in r.tabs;
    FindDistinct(r.tabs, r.tabs[n]);
  }

  /** `handleTabClick(id)`: the clicked tab becomes active and its address
      fills the bar. `None` where the code would read `url` of `undefined`,
      which the tab strip never asks for. */
  function TabClick(a: App, id: int): (r: Option<App>)
    ensures r.None? <==> forall t :: t in a.tabs ==> t.id != id
    ensures r.Some? ==> Find(r.value.tabs, r.value.activeTab) == Some(Tab(id, r.value.address))
    ensures r.Some? ==> r.value.tabs == a.tabs && r.value.bookmarks == a.bookmarks && r.value.history == a.history
    ensures r.Some? && Valid(a) ==> Valid(r.value)
  {
    match Find(a.tabs, id)
    case None => None
    case Some(t) => Some(a.(activeTab := id, address := t.url))
  }

  function KeepsTab(id: int): Tab -> bool {
    (t: Tab) => t.id != id
  }

  /** `handleCloseTab(id)`: every tab with that id goes; an emptied strip
      falls back to a home tab with id 1; the first remaining tab becomes
      active whichever tab was closed, and its address fills the bar. */
  function CloseTab(a: App, id: int): (r: App)
    ensures r.tabs != []
    ensures r.activeTab == r.tabs[0].id && r.address == r.tabs[0].url
    ensures (exists t :: t in a.tabs && t.id != id) ==>
      && (forall t :: t in r.tabs <==> t in a.tabs && t.id != id)
      && Seqs.IsSubsequence(r.tabs, a.tabs)
    ensures (forall t :: t in a.tabs ==> t.id == id) ==> r.tabs == [Tab(1, HomeUrl)]
    ensures r.bookmarks == a.bookmarks && r.history == a.history
  {
    var kept := Seqs.Filter(a.tabs, KeepsTab(id));
    var tabs := if kept == [] then [Tab(1, HomeUrl)] else kept;
    a.(tabs := tabs, activeTab := tabs[0].id, address := tabs[0].url)
  }

  /** Closing keeps the invariant, and the active tab is the one shown
      first. */
  lemma {:induction false} CloseTabValid(a: App, id: int)
    requires Seqs.DistinctKeys(a.tabs, TabId)
    ensures Valid(CloseTab(a, id))
    ensures Find(CloseTab(a, id).tabs, CloseTab(a, id).activeTab) == Some(CloseTab(a, id).tabs[0])
  {
    Seqs.FilterKeepsDistinct(a.tabs, KeepsTab(id), TabId);
  }

  /** Opening the same tab twice in a row is the same as opening it once. */
  lemma TabClickSettles(a: App, id: int)
    requires TabClick(a, id).Some?
    ensures TabClick(TabClick(a, id).value, id) == TabClick(a, id)
  {
  }

  /** No address in the list twice. */
  predicate NoDuplicates(s: seq<string>) {
    forall i, j :: 0 <= i < j < |s| ==> s[i] != s[j]
  }

  /** `addBookmark`: the address bar's text joins the list unless it is
      already there. */
  function AddBookmark(a: App): (r: App)
    ensures forall u :: u in r.bookmarks <==> u in a.bookmarks || u == a.address
    ensures a.address in a.bookmarks ==> r == a
    ensures a.address !in a.bookmarks ==> r.bookmarks == a.bookmarks + [a.address]
    ensures NoDuplicates(a.bookmarks) ==> NoDuplicates(r.bookmarks)
    ensures r.tabs == a.tabs && r.activeTab == a.activeTab && r.address == a.address && r.history == a.history
  {
    if a.address in a.bookmarks then a else a.(bookmarks := a.bookmarks + [a.address])
  }

  function Other(url: string): string -> bool {
    (u: string) => u != url
  }

  /** `removeBookmark(url)`: every copy of `url` goes, the rest keep their
      order. */
  function RemoveBookmark(a: App, url: string): (r: App)
    ensures forall u :: u in r.bookmarks <==> u in a.bookmarks && u != url
    ensures Seqs.IsSubsequence(r.bookmarks, a.bookmarks)
    ensures url !in a.bookmarks ==> r == a
    ensures r.tabs == a.tabs && r.activeTab == a.activeTab && r.address == a.address && r.history == a.history
  {
    a.(bookmarks := Seqs.Filter(a.bookmarks, Other(url)))
  }

  /** Removing keeps the list free of duplicates. */
  lemma RemoveKeepsDistinct(a: App, url: string)
    requires NoDuplicates(a.bookmarks)
    ensures NoDuplicates(RemoveBookmark(a, url).bookmarks)
  {
    Seqs.FilterKeepsDistinct(a.bookmarks, Other(url), (u: string) => u);
  }

  /** Removing what was just bookmarked gives back the list as it was. */
  lemma {:induction false} AddThenRemove(a: App)
    requires a.address !in a.bookmarks
    ensures RemoveBookmark(AddBookmark(a), a.address) == a
  {
    Seqs.FilterAppend(a.bookmarks, a.address, Other(a.address));
  }

  /** `tabs.map(tab => tab.id === active ? { ...tab, url } : tab)`. */
  function Load(tabs: seq<Tab>, active: int, url: string): (r: seq<Tab>)
    ensures |r| == |tabs|
    ensures forall i :: 0 <= i < |tabs| ==> r[i].id == tabs[i].id
    ensures forall i :: 0 <= i < |tabs| && tabs[i].id != active ==> r[i] == tabs[i]
    ensures forall i :: 0 <= i < |tabs| && tabs[i].id == active ==> r[i] == Tab(active, url)
  {
    if tabs == [] then []
    else [if tabs[0].id == active then Tab(active, url) else tabs[0]] + Load(tabs[1..], active, url)
  }

  /** After a load, looking the active id up finds the new address, and
      every other id finds what it found before. */
  lemma {:induction false} FindLoaded(tabs: seq<Tab>, active: int, url: string, id: int)
    ensures id != active ==> Find(Load(tabs, active, url), id) == Find(tabs, id)
    ensures Find(Load(tabs, active, url), active) ==
      (if Find(tabs, active).Some? then Some(Tab(active, url)) else None)
    decreases |tabs|
  {
    if tabs != [] {
      var r := Load(tabs, active, url);
      assert r[1..] == Load(tabs[1..], active, url);
      FindLoaded(tabs[1..], active, url, id);
    }
  }

  /** A load leaves the invariant intact: the ids do not change. */
  lemma LoadValid(a: App, url: string)
    requires Valid(a)
    ensures Valid(a.(tabs := Load(a.tabs, a.activeTab, url)))
  {
    var tabs := Load(a.tabs, a.activeTab, url);
    assert forall i :: 0 <= i < |tabs| ==> TabId(tabs[i]) == TabId(a.tabs[i]);
    FindLoaded(a.tabs, a.activeTab, url, a.activeTab);
  }

  /** `handleBookmarkClick(url)` and `handleHistoryClick(url)`, which are the
      same: the active tab shows `url` and so does the address bar. */
  function OpenUrl(a: App, url: string): (r: App)
    ensures r.address == url && r.activeTab == a.activeTab
    ensures r.bookmarks == a.bookmarks && r.history == a.history
    ensures Find(a.tabs, a.activeTab).Some? ==> Find(r.tabs, r.activeTab) == Some(Tab(a.activeTab, url))
    ensures forall id :: id != a.activeTab ==> Find(r.tabs, id) == Find(a.tabs, id)
    ensures Valid(a) ==> Valid(r)
  {
    var r := a.(tabs := Load(a.tabs, a.activeTab, url), address := url);
    FindLoaded(a.tabs, a.activeTab, url, a.activeTab);
    FindsOthers(a.tabs, a.activeTab, url);
    if Valid(a) then LoadValid(a, url); r else r
  }

  lemma FindsOthers(tabs: seq<Tab>, active: int, url: string)
    ensures forall id :: id != active ==> Find(Load(tabs, active, url), id) == Find(tabs, id)
  {
    forall id | id != active ensures Find(Load(tabs, active, url), id) == Find(tabs, id) {
      FindLoaded(tabs, active, url, id);
    }
  }

  /** Where `handleGo` sends the active tab: the typed text itself when it
      parses as a URL, otherwise a search for it. Whether it parses is the
      browser's URL parser, a parameter here. */
  function Target(address: string, isValidUrl: string -> bool): (r: string)
    ensures isValidUrl(address) ==> r == address
    ensures !isValidUrl(address) ==>
      && |SearchEngine| <= |r|
      && r[..|SearchEngine|] == SearchEngine
      && forall i :: |SearchEngine| <= i < |r| ==> UriComponent.Unreserved(r[i]) || r[i] == '%'
  {
    if isValidUrl(address) then address else SearchEngine + UriComponent.Encode(address)
  }

  /** The search fallback loses nothing: the query after `?q=` decodes to
      exactly what was typed, and it holds no `&`, `#` or space that would
      end the parameter early. */
  lemma SearchCarriesAddress(address: string, isValidUrl: string -> bool)
    requires !isValidUrl(address)
    ensures var q := Target(address, isValidUrl)[|SearchEngine|..];
      && UriComponent.Decode(q) == Some(address)
      && '&' !in q && '#' !in q && ' ' !in q
  {
    var t := Target(address, isValidUrl);
    var q := UriComponent.Encode(address);
    assert t == SearchEngine + q;
    assert t[|SearchEngine|..] == q;
    UriComponent.DecodeEncode(address);
    UriComponent.EncodeEndsNoParameter(address);
  }

  /** `handleGo`: the active tab loads the target, which is appended to the
      history; the address bar keeps the text as typed. */
  function Go(a: App, isValidUrl: string -> bool): (r: App)
    ensures r.history == a.history + [Target(a.address, isValidUrl)]
    ensures r.address == a.address && r.activeTab == a.activeTab && r.bookmarks == a.bookmarks
    ensures Find(a.tabs, a.activeTab).Some? ==>
      Find(r.tabs, r.activeTab) == Some(Tab(a.activeTab, Target(a.address, isValidUrl)))
    ensures forall id :: id != a.activeTab ==> Find(r.tabs, id) == Find(a.tabs, id)
    ensures Valid(a) ==> Valid(r)
  {
    var url := Target(a.address, isValidUrl);
    var o := OpenUrl(a, url);
    o.(address := a.address, history := a.history + [url])
  }

  /** Going to a valid URL loads the same page as clicking a bookmark of
      it, and records it in the history as well. */
  lemma GoIsOpenAndRecord(a: App, isValidUrl: string -> bool)
    requires isValidUrl(a.address)
    ensures Go(a, isValidUrl).tabs == OpenUrl(a, a.address).tabs
    ensures Go(a, isValidUrl).history == a.history + [a.address]
  {
  }
}
