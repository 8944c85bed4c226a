/** The browser window's own state: the tab strip with a back/forward list
    per tab, the session history list and the downloads list. Every handler
    is a pure step from one window state to the next; the one-second loading
    delay before a navigation lands is not modelled, the navigation lands at
    once. Tab and item ids come from `Date.now()` in the window, and are
    parameters here. */
module Browser {
  import opened Wrappers
  import opened Text
  import Seqs

  /** A tab. `history` is its own back/forward list and `historyIndex` the
      entry shown; a tab that never navigated has an empty list and -1. */
  datatype Tab = Tab(id: string, title: string, url: string, favicon: Option<string>,
                     history: seq<string>, historyIndex: int)

  /** An entry of the session history list. */
  datatype HistoryItem = HistoryItem(id: string, title: string, url: string, timestamp: int, favicon: Option<string>)

  datatype Status = Downloading | Paused | Completed | Failed

  datatype Download = Download(id: string, filename: string, url: string, size: int, progress: int,
                               status: Status, timestamp: int)

  /** The state the window component keeps. */
  datatype Window = Window(tabs: seq<Tab>, activeTabId: string, history: seq<HistoryItem>, downloads: seq<Download>)

  /** A tab as the "new tab" button and the close fallback create it. */
  function BlankTab(id: string): Tab {
    Tab(id, "New Tab", "", None, [], -1)
  }

  /** The window as it first renders. */
  function Initial(): (w: Window)
    ensures Valid(w)
    ensures ActiveTab(w) == Some(BlankTab("1"))
  {
    var w := Window([BlankTab("1")], "1", [], []);
    assert IndexOf(w.tabs, "1") == 0;
    w
  }

  function TabId(t: Tab): string { t.id }

  /** `tabs.findIndex(tab => tab.id === id)`: the first position holding `id`, or -1. */
  function IndexOf(tabs: seq<Tab>, id: string): (r: int)
    ensures -1 <= r < |tabs|
    ensures r >= 0 ==> tabs[r].id == id && forall k :: 0 <= k < r ==> tabs[k].id != id
    ensures r == -1 <==> forall k :: 0 <= k < |tabs| ==> tabs[k].id != id
    decreases |tabs|
  {
    if tabs == [] then -1
    else if tabs[0].id == id then 0
    else
      var r := IndexOf(tabs[1..], id);
      assert forall k :: 0 < k < |tabs| ==> tabs[k] == tabs[1..][k - 1];
      if r == -1 then -1 else r + 1
  }

  /** `tabs.find(tab => tab.id === activeTabId)`. */
  function ActiveTab(w: Window): (r: Option<Tab>)
    ensures r.Some? ==> r.value in w.tabs && r.value.id == w.activeTabId
    ensures r.None? <==> forall t :: t in w.tabs ==> t.id != w.activeTabId
  {
    var i := IndexOf(w.tabs, w.activeTabId);
    if i == -1 then None else Some(w.tabs[i])
  }

  /** A tab's index points into its list once it has navigated; before
      that the list is empty and the index is -1. */
  predicate Positioned(t: Tab) {
    if t.history == [] then t.historyIndex == -1 else 0 <= t.historyIndex < |t.history|
  }

  /** The window invariant every handler keeps: some tab, no id twice, the
      active id names a tab, every tab positioned. */
  predicate Valid(w: Window) {
    && w.tabs != []
    && Seqs.DistinctKeys(w.tabs, TabId)
    && ActiveTab(w).Some?
    && forall t :: t in w.tabs ==> Positioned(t)
  }

  /** `tabs.map(tab => tab.id === id ? f(tab) : tab)`. */
  function Retab(tabs: seq<Tab>, id: string, f: Tab -> Tab): (r: seq<Tab>)
    ensures |r| == |tabs|
    ensures forall i :: 0 <= i < |r| ==> r[i] == if tabs[i].id == id then f(tabs[i]) else tabs[i]
  {
    seq(|tabs|, i requires 0 <= i < |tabs| => if tabs[i].id == id then f(tabs[i]) else tabs[i])
  }

  /** A map that keeps ids keeps the active tab's position, so the tab
      found afterwards is the updated one. */
  lemma RetabActive(w: Window, f: Tab -> Tab)
    requires forall t :: f(t).id == t.id
    ensures ActiveTab(w).Some? ==> ActiveTab(w.(tabs := Retab(w.tabs, w.activeTabId, f))) == Some(f(ActiveTab(w).value))
    ensures ActiveTab(w).None? ==> ActiveTab(w.(tabs := Retab(w.tabs, w.activeTabId, f))).None?
  {
    var r := Retab(w.tabs, w.activeTabId, f);
    var i := IndexOf(w.tabs, w.activeTabId);
    if i >= 0 {
      assert r[i].id == w.activeTabId;
      assert forall k :: 0 <= k < i ==> r[k].id == w.tabs[k].id;
      assert IndexOf(r, w.activeTabId) == i;
    } else {
      assert forall k :: 0 <= k < |r| ==> r[k].id == w.tabs[k].id;
    }
  }

  /** A map that keeps ids and positioning keeps the invariant. */
  lemma RetabValid(w: Window, f: Tab -> Tab)
    requires Valid(w)
    requires forall t :: f(t).id == t.id
    requires forall t :: t in w.tabs && t.id == w.activeTabId ==> Positioned(f(t))
    ensures Valid(w.(tabs := Retab(w.tabs, w.activeTabId, f)))
  {
    var r := Retab(w.tabs, w.activeTabId, f);
    RetabActive(w, f);
    forall i, j | 0 <= i < j < |r| ensures TabId(r[i]) != TabId(r[j]) {
      assert TabId(w.tabs[i]) != TabId(w.tabs[j]);
    }
    RetabPositioned(w.tabs, w.activeTabId, f);
  }

  /** A map that positions the tabs it touches keeps every tab positioned. */
  lemma RetabPositioned(tabs: seq<Tab>, id: string, f: Tab -> Tab)
    requires forall t :: t in tabs ==> Positioned(t)
    requires forall t :: t in tabs && t.id == id ==> Positioned(f(t))
    ensures forall t :: t in Retab(tabs, id, f) ==> Positioned(t)
  {
    var r := Retab(tabs, id, f);
    forall t | t in r ensures Positioned(t) {
      var k :| 0 <= k < |r| && r[k] == t;
      assert tabs[k] in tabs;
    }
  }

  /** `canGoBack`: there is an active tab and it is past its first entry. */
  predicate CanGoBack(w: Window) {
    ActiveTab(w).Some? && ActiveTab(w).value.historyIndex > 0
  }

  /** `canGoForward`: there is an active tab and an entry after the shown one. */
  predicate CanGoForward(w: Window) {
    ActiveTab(w).Some? && ActiveTab(w).value.historyIndex < |ActiveTab(w).value.history| - 1
  }

  /** `s.slice(0, end)`: a negative end counts from the back, an end past
      the length stops at the length. */
  function SliceTo<T>(s: seq<T>, end: int): (r: seq<T>)
    ensures |r| <= |s| && r == s[..|r|]
    ensures 0 <= end <= |s| ==> |r| == end
  {
    if end < 0 then (if |s| + end < 0 then [] else s[..|s| + end])
    else if end > |s| then s
    else s[..end]
  }

  /** The title a navigation gives a page: the address without an
      `http://` or `https://` scheme, up to the first `/`, or `New Page`
      when that is empty. */
  function PageTitle(url: string): (r: string)
    ensures r != ""
    ensures var s := StripHttpScheme(url);
      s == [] || s[0] == '/' ==> r == "New Page"
    ensures var s := StripHttpScheme(url);
      s != [] && s[0] != '/' ==>
        && IsPrefix(r, s)
        && (forall k :: 0 <= k < |r| ==> r[k] != '/')
        && (|r| == |s| || s[|r|] == '/')
  {
    var host := HostPart(url);
    if host == "" then "New Page" else host
  }

  /** The title is determined by the address: any slash-free prefix of the
      scheme-less address that runs up to a slash or to the end is the title. */
  lemma PageTitleUnique(url: string, t: string)
    requires var s := StripHttpScheme(url);
      && s != [] && s[0] != '/'
      && IsPrefix(t, s) && (forall k :: 0 <= k < |t| ==> t[k] != '/') && (|t| == |s| || s[|t|] == '/')
    ensures PageTitle(url) == t
  {
    var s := StripHttpScheme(url);
    CutAtSlashUnique(s, BeforeSlash(s), t);
  }

  /** A page is titled by its host; a bare scheme gives `New Page`. */
  lemma PageTitleExamples()
    ensures PageTitle("https://a.io/b") == "a.io"
    ensures PageTitle("https://") == "New Page"
  {
    assert StripHttpScheme("https://a.io/b") == "a.io/b";
    assert BeforeSlash("/b") == [];
    assert BeforeSlash("a.io/b") == "a.io";
    assert StripHttpScheme("https://") == "";
  }

  /** One tab's part of a navigation: the entries after the shown one are
      dropped and `url` becomes the last, shown entry. */
  function Visit(t: Tab, url: string): (r: Tab)
    ensures r.id == t.id && r.favicon == t.favicon
    ensures r.url == url && r.title == PageTitle(url)
    ensures r.history == SliceTo(t.history, t.historyIndex + 1) + [url]
    ensures r.historyIndex == |r.history| - 1
    ensures Positioned(r)
    ensures Positioned(t) ==> r.history == t.history[..t.historyIndex + 1] + [url]
  {
    var h := SliceTo(t.history, t.historyIndex + 1) + [url];
    t.(url := url, title := PageTitle(url), history := h, historyIndex := |h| - 1)
  }

  function Visiting(url: string): Tab -> Tab {
    (t: Tab) => Visit(t, url)
  }

  /** `handleNavigate(url)`: nothing without an active tab; otherwise one
      item goes to the front of the session history and the active tab
      visits `url`. */
  function Navigate(w: Window, url: string, itemId: string, now: int): (r: Window)
    ensures ActiveTab(w).None? ==> r == w
    ensures ActiveTab(w).Some? ==>
      && r.history == [HistoryItem(itemId, PageTitle(url), url, now, None)] + w.history
      && ActiveTab(r) == Some(Visit(ActiveTab(w).value, url))
      && r.activeTabId == w.activeTabId && r.downloads == w.downloads
      && |r.tabs| == |w.tabs|
      && forall i :: 0 <= i < |w.tabs| && w.tabs[i].id != w.activeTabId ==> r.tabs[i] == w.tabs[i]
    ensures Valid(w) ==> Valid(r)
  {
    if ActiveTab(w).None? then w
    else
      var item := HistoryItem(itemId, PageTitle(url), url, now, None);
      var f := Visiting(url);
      VisitingActive(w, url, f);
      w.(tabs := Retab(w.tabs, w.activeTabId, f), history := [item] + w.history)
  }

  /** The facts `Navigate` promises about the tabs, for the map it applies. */
  lemma VisitingActive(w: Window, url: string, f: Tab -> Tab)
    requires ActiveTab(w).Some?
    requires f == Visiting(url)
    ensures ActiveTab(w.(tabs := Retab(w.tabs, w.activeTabId, f))) == Some(Visit(ActiveTab(w).value, url))
    ensures Valid(w) ==> Valid(w.(tabs := Retab(w.tabs, w.activeTabId, f)))
  {
    assert f(ActiveTab(w).value) == Visit(ActiveTab(w).value, url);
    RetabActive(w, f);
    if Valid(w) { RetabValid(w, f); }
  }

  /** The active tab moved to entry `i` of its list. */
  function Jump(i: int, url: string): Tab -> Tab {
    (t: Tab) => t.(url := url, historyIndex := i)
  }

  /** The active tab moved to entry `i` of its unchanged list; every other
      tab and the rest of the window stay as they were. */
  function MoveTo(w: Window, i: int): (r: Window)
    requires ActiveTab(w).Some? && 0 <= i < |ActiveTab(w).value.history|
    ensures var t := ActiveTab(w).value;
      && ActiveTab(r) == Some(t.(url := t.history[i], historyIndex := i))
      && r.activeTabId == w.activeTabId && r.history == w.history && r.downloads == w.downloads
      && |r.tabs| == |w.tabs|
      && forall k :: 0 <= k < |w.tabs| && w.tabs[k].id != w.activeTabId ==> r.tabs[k] == w.tabs[k]
    ensures Valid(w) ==> Valid(r)
  {
    var f := Jump(i, ActiveTab(w).value.history[i]);
    JumpActive(w, i, f);
    w.(tabs := Retab(w.tabs, w.activeTabId, f))
  }

  /** The facts `MoveTo` promises, about the map it applies. */
  lemma JumpActive(w: Window, i: int, f: Tab -> Tab)
    requires ActiveTab(w).Some? && 0 <= i < |ActiveTab(w).value.history|
    requires f == Jump(i, ActiveTab(w).value.history[i])
    ensures var t := ActiveTab(w).value;
      ActiveTab(w.(tabs := Retab(w.tabs, w.activeTabId, f))) == Some(t.(url := t.history[i], historyIndex := i))
    ensures Valid(w) ==> Valid(w.(tabs := Retab(w.tabs, w.activeTabId, f)))
  {
    var t := ActiveTab(w).value;
    assert f(t) == t.(url := t.history[i], historyIndex := i);
    RetabActive(w, f);
    if Valid(w) { RetabValid(w, f); }
  }

  /** `handleGoBack`: when the back button is enabled, the active tab shows
      the previous entry of its unchanged list; otherwise nothing happens. */
  function GoBack(w: Window): (r: Window)
    requires ActiveTab(w).Some? ==> Positioned(ActiveTab(w).value)
    ensures !CanGoBack(w) ==> r == w
    ensures CanGoBack(w) ==>
      var t := ActiveTab(w).value;
      && ActiveTab(r) == Some(t.(url := t.history[t.historyIndex - 1], historyIndex := t.historyIndex - 1))
      && r.activeTabId == w.activeTabId && r.history == w.history && r.downloads == w.downloads
      && |r.tabs| == |w.tabs|
      && forall i :: 0 <= i < |w.tabs| && w.tabs[i].id != w.activeTabId ==> r.tabs[i] == w.tabs[i]
    ensures Valid(w) ==> Valid(r)
  {
    if !CanGoBack(w) then w else MoveTo(w, ActiveTab(w).value.historyIndex - 1)
  }

  /** `handleGoForward`: when the forward button is enabled, the active tab
      shows the next entry of its unchanged list; otherwise nothing happens. */
  function GoForward(w: Window): (r: Window)
    requires ActiveTab(w).Some? ==> Positioned(ActiveTab(w).value)
    ensures !CanGoForward(w) ==> r == w
    ensures CanGoForward(w) ==>
      var t := ActiveTab(w).value;
      && ActiveTab(r) == Some(t.(url := t.history[t.historyIndex + 1], historyIndex := t.historyIndex + 1))
      && r.activeTabId == w.activeTabId && r.history == w.history && r.downloads == w.downloads
      && |r.tabs| == |w.tabs|
      && forall i :: 0 <= i < |w.tabs| && w.tabs[i].id != w.activeTabId ==> r.tabs[i] == w.tabs[i]
    ensures Valid(w) ==> Valid(r)
  {
    if !CanGoForward(w) then w else MoveTo(w, ActiveTab(w).value.historyIndex + 1)
  }

  /** Back is undone by forward: the tab is back on the entry it showed,
      and that entry is the page shown, whatever the address was before. */
  lemma BackThenForward(w: Window)
    requires ActiveTab(w).Some? ==> Positioned(ActiveTab(w).value)
    requires CanGoBack(w)
    ensures var t := ActiveTab(w).value;
      && CanGoForward(GoBack(w))
      && ActiveTab(GoForward(GoBack(w))) == Some(t.(url := t.history[t.historyIndex]))
  {
    var t := ActiveTab(w).value;
    var b := GoBack(w);
    assert ActiveTab(b).value.history == t.history;
    assert ActiveTab(b).value.historyIndex == t.historyIndex - 1;
  }

  /** After a navigation, back shows the page that was shown before it. */
  lemma NavigateThenBack(w: Window, url: string, itemId: string, now: int)
    requires ActiveTab(w).Some? && Positioned(ActiveTab(w).value) && ActiveTab(w).value.history != []
    ensures var t := ActiveTab(w).value;
      var b := GoBack(Navigate(w, url, itemId, now));
      && CanGoBack(Navigate(w, url, itemId, now))
      && ActiveTab(b).Some?
      && ActiveTab(b).value.url == t.history[t.historyIndex]
      && ActiveTab(b).value.historyIndex == t.historyIndex
      && !CanGoForward(Navigate(w, url, itemId, now))
  {
    var t := ActiveTab(w).value;
    var v := Visit(t, url);
    var n := Navigate(w, url, itemId, now);
    VisitAppends(t, url);
    assert ActiveTab(n).value == v;
    assert CanGoBack(n);
  }

  /** A visit from a positioned tab that has navigated before puts the new
      page last, one past the entry that was shown. */
  lemma VisitAppends(t: Tab, url: string)
    requires Positioned(t) && t.history != []
    ensures var v := Visit(t, url);
      && v.historyIndex == t.historyIndex + 1 == |v.history| - 1
      && v.history[t.historyIndex] == t.history[t.historyIndex]
  {
  }

  /** `handleNewTab`: a blank tab is appended and becomes the active one. */
  function NewTab(w: Window, freshId: string): (r: Window)
    ensures r.tabs == w.tabs + [BlankTab(freshId)]
    ensures (forall t :: t in w.tabs ==> t.id != freshId) ==> ActiveTab(r) == Some(BlankTab(freshId))
    ensures r.history == w.history && r.downloads == w.downloads
    ensures Valid(w) && (forall t :: t in w.tabs ==> t.id != freshId) ==> Valid(r)
  {
    var r := w.(tabs := w.tabs + [BlankTab(freshId)], activeTabId := freshId);
    assert r.tabs[|w.tabs|].id == freshId;
    assert (forall t :: t in w.tabs ==> t.id != freshId) ==> IndexOf(r.tabs, freshId) == |w.tabs|;
    r
  }

  function Cleared(): Tab -> Tab {
    (t: Tab) => t.(url := "", title := "New Tab")
  }

  /** `handleHome`: the active tab shows a blank page, its back/forward
      list untouched. */
  function Home(w: Window): (r: Window)
    ensures ActiveTab(w).None? ==> r == w
    ensures ActiveTab(w).Some? ==>
      && ActiveTab(r) == Some(ActiveTab(w).value.(url := "", title := "New Tab"))
      && r.activeTabId == w.activeTabId && r.history == w.history && r.downloads == w.downloads
      && |r.tabs| == |w.tabs|
      && forall i :: 0 <= i < |w.tabs| && w.tabs[i].id != w.activeTabId ==> r.tabs[i] == w.tabs[i]
    ensures Valid(w) ==> Valid(r)
  {
    if ActiveTab(w).None? then w
    else
      var f := Cleared();
      ClearedActive(w, f);
      w.(tabs := Retab(w.tabs, w.activeTabId, f))
  }

  /** The facts `Home` promises about the tabs, for the map it applies. */
  lemma ClearedActive(w: Window, f: Tab -> Tab)
    requires ActiveTab(w).Some?
    requires f == Cleared()
    ensures ActiveTab(w.(tabs := Retab(w.tabs, w.activeTabId, f))) == Some(ActiveTab(w).value.(url := "", title := "New Tab"))
    ensures Valid(w) ==> Valid(w.(tabs := Retab(w.tabs, w.activeTabId, f)))
  {
    assert f(ActiveTab(w).value) == ActiveTab(w).value.(url := "", title := "New Tab");
    RetabActive(w, f);
    if Valid(w) { RetabValid(w, f); }
  }

  /** A click on a tab (or a pick in the tab switcher) makes it the active tab. */
  function SelectTab(w: Window, id: string): (r: Window)
    ensures (exists t :: t in w.tabs && t.id == id) ==> ActiveTab(r).Some? && ActiveTab(r).value.id == id
    ensures r.tabs == w.tabs && r.history == w.history && r.downloads == w.downloads
    ensures Valid(w) && (exists t :: t in w.tabs && t.id == id) ==> Valid(r)
  {
    w.(activeTabId := id)
  }

  function KeepsTab(id: string): Tab -> bool {
    (t: Tab) => t.id != id
  }

  /** `tabs[i]`, which is `undefined` out of range. */
  function At(tabs: seq<Tab>, i: int): Option<Tab> {
    if 0 <= i < |tabs| then Some(tabs[i]) else None
  }

  /** `tabs[i - 1] || tabs[i + 1]`. */
  function Neighbour(tabs: seq<Tab>, i: int): (r: Option<Tab>)
    ensures r.Some? ==> (0 < i <= |tabs| && r.value == tabs[i - 1]) || (0 <= i + 1 < |tabs| && r.value == tabs[i + 1])
    ensures 0 < i <= |tabs| ==> r == Some(tabs[i - 1])
  {
    if At(tabs, i - 1).Some? then At(tabs, i - 1) else At(tabs, i + 1)
  }

  /** The tab list after a close: the others, or a fresh blank tab when
      none is left. */
  function Remaining(tabs: seq<Tab>, id: string, freshId: string): (r: seq<Tab>)
    ensures r != []
    ensures Seqs.Filter(tabs, KeepsTab(id)) != [] ==> r == Seqs.Filter(tabs, KeepsTab(id))
    ensures Seqs.Filter(tabs, KeepsTab(id)) == [] ==> r == [BlankTab(freshId)]
  {
    var kept := Seqs.Filter(tabs, KeepsTab(id));
    if kept == [] then [BlankTab(freshId)] else kept
  }

  /** `handleCloseTab(id)` as written: the tab is removed (a fresh blank tab
      replaces the last one) and, when it was active, the previous
      neighbour or else the next one becomes active. When the closed tab
      was the only one there is no neighbour, and the active id stays on
      the removed tab. */
  function CloseTabAsWritten(w: Window, id: string, freshId: string): (r: Window)
    ensures r.tabs == Remaining(w.tabs, id, freshId)
    ensures r.history == w.history && r.downloads == w.downloads
    ensures id != w.activeTabId ==> r.activeTabId == w.activeTabId
    ensures id == w.activeTabId ==>
      r.activeTabId == (match Neighbour(w.tabs, IndexOf(w.tabs, id))
                        case Some(n) => n.id
                        case None => w.activeTabId)
  {
    var tabs := Remaining(w.tabs, id, freshId);
    if id != w.activeTabId then w.(tabs := tabs)
    else
      match Neighbour(w.tabs, IndexOf(w.tabs, id))
      case Some(n) => w.(tabs := tabs, activeTabId := n.id)
      case None => w.(tabs := tabs)
  }

  /** Closing the only tab of a fresh window leaves no active tab, and a
      navigation then does nothing. */
  lemma CloseSoleTabLosesActive()
    ensures var r := CloseTabAsWritten(Initial(), "1", "2");
      && r.tabs == [BlankTab("2")]
      && r.activeTabId == "1"
      && ActiveTab(r).None?
      && !Valid(r)
      && Navigate(r, "https://example.com", "3", 3) == r
  {
    var w := Initial();
    assert Seqs.Filter(w.tabs, KeepsTab("1")) == [];
    assert IndexOf(w.tabs, "1") == 0;
    assert Neighbour(w.tabs, 0).None?;
  }

  /** `handleCloseTab(id)` with the sole-tab case mended: when the list is
      replaced by a fresh blank tab, that tab becomes the active one. */
  function CloseTab(w: Window, id: string, freshId: string): (r: Window)
    ensures r.tabs != []
    ensures r.history == w.history && r.downloads == w.downloads
    ensures forall t :: t in w.tabs && t.id != id ==> t in r.tabs
    ensures r.tabs == [BlankTab(freshId)] || (Seqs.IsSubsequence(r.tabs, w.tabs) && forall t :: t in r.tabs ==> t.id != id)
    ensures id != w.activeTabId && ActiveTab(w).Some? ==> r.activeTabId == w.activeTabId
  {
    var r := CloseTabAsWritten(w, id, freshId);
    if Seqs.Filter(w.tabs, KeepsTab(id)) == [] then r.(activeTabId := freshId) else r
  }

  /** Closing the active tab activates its previous neighbour, or else the
      next one. */
  lemma CloseTabPicksNeighbour(w: Window, id: string, freshId: string)
    requires id == w.activeTabId
    ensures 0 < IndexOf(w.tabs, id) ==> CloseTab(w, id, freshId).activeTabId == w.tabs[IndexOf(w.tabs, id) - 1].id
    ensures IndexOf(w.tabs, id) == 0 && |w.tabs| > 1 && w.tabs[1].id != id ==>
      CloseTab(w, id, freshId).activeTabId == w.tabs[1].id
  {
    var i := IndexOf(w.tabs, id);
    if 0 < i {
      KeptOther(w.tabs, id, w.tabs[i - 1]);
    } else if i == 0 && |w.tabs| > 1 && w.tabs[1].id != id {
      KeptOther(w.tabs, id, w.tabs[1]);
    }
  }

  /** The mended close keeps the window valid. */
  lemma CloseTabKeepsValid(w: Window, id: string, freshId: string)
    requires Valid(w)
    ensures Valid(CloseTab(w, id, freshId))
  {
    CloseTabValid(w, id, freshId, Seqs.Filter(w.tabs, KeepsTab(id)), CloseTab(w, id, freshId));
  }

  /** A close keeps some tab when some tab has another id. */
  lemma KeptOther(tabs: seq<Tab>, id: string, t: Tab)
    requires t in tabs && t.id != id
    ensures Seqs.Filter(tabs, KeepsTab(id)) != []
  {
    assert KeepsTab(id)(t);
    assert t in Seqs.Filter(tabs, KeepsTab(id));
  }

  lemma CloseTabValid(w: Window, id: string, freshId: string, kept: seq<Tab>, r: Window)
    requires Valid(w)
    requires kept == Seqs.Filter(w.tabs, KeepsTab(id))
    requires r.tabs == Remaining(w.tabs, id, freshId)
    requires kept == [] ==> r.activeTabId == freshId
    requires kept != [] && id != w.activeTabId ==> r.activeTabId == w.activeTabId
    requires kept != [] && id == w.activeTabId ==>
      Neighbour(w.tabs, IndexOf(w.tabs, id)).Some? && r.activeTabId == Neighbour(w.tabs, IndexOf(w.tabs, id)).value.id
    ensures Valid(r)
  {
    if kept == [] {
      assert r.tabs == [BlankTab(freshId)];
      assert IndexOf(r.tabs, freshId) == 0;
    } else {
      Seqs.FilterKeepsDistinct(w.tabs, KeepsTab(id), TabId);
      var a :| a in kept && a.id == r.activeTabId by {
        if id != w.activeTabId {
          var t := ActiveTab(w).value;
          assert KeepsTab(id)(t);
        } else {
          var i := IndexOf(w.tabs, id);
          var n := Neighbour(w.tabs, i).value;
          if 0 < i {
            assert n == w.tabs[i - 1] && n.id != id;
          } else {
            assert n == w.tabs[i + 1];
            assert TabId(w.tabs[i]) != TabId(w.tabs[i + 1]);
          }
          assert KeepsTab(id)(n);
        }
      }
      assert ActiveTab(r).Some?;
    }
  }

  /** The close as written is correct except on the sole tab: whenever
      another tab survives, the closed active tab has a neighbour and the
      window stays valid. */
  lemma CloseTabAsWrittenKeepsValid(w: Window, id: string, freshId: string)
    requires Valid(w)
    requires Seqs.Filter(w.tabs, KeepsTab(id)) != []
    ensures Valid(CloseTabAsWritten(w, id, freshId))
  {
    var kept := Seqs.Filter(w.tabs, KeepsTab(id));
    if id == w.activeTabId {
      var i := IndexOf(w.tabs, id);
      if i == 0 {
        var t :| t in kept;
        assert t in w.tabs && t.id != id;
        assert |w.tabs| > 1;
      }
    }
    CloseTabValid(w, id, freshId, kept, CloseTabAsWritten(w, id, freshId));
  }

  /** `handleClearHistory`. */
  function ClearHistory(w: Window): (r: Window)
    ensures r.history == [] && r.tabs == w.tabs && r.activeTabId == w.activeTabId && r.downloads == w.downloads
  {
    w.(history := [])
  }

  /** The pause/resume button: a paused download resumes, any other one,
      whatever its status, is paused. */
  function Toggle(d: Download): (r: Download)
    ensures r == d.(status := r.status)
    ensures d.status == Paused <==> r.status == Downloading
    ensures r.status == Paused || r.status == Downloading
  {
    d.(status := if d.status == Paused then Downloading else Paused)
  }

  /** Pressing pause/resume twice restores a running or paused download. */
  lemma ToggleTwice(d: Download)
    ensures d.status == Paused || d.status == Downloading ==> Toggle(Toggle(d)) == d
    ensures d.status == Completed || d.status == Failed ==> Toggle(Toggle(d)).status == Downloading
  {
  }

  /** `handlePauseResumeDownload(id)`: the downloads with that id toggle,
      nothing else changes. */
  function PauseResume(ds: seq<Download>, id: string): (r: seq<Download>)
    ensures |r| == |ds|
    ensures forall i :: 0 <= i < |ds| && ds[i].id == id ==> r[i] == Toggle(ds[i])
    ensures forall i :: 0 <= i < |ds| && ds[i].id != id ==> r[i] == ds[i]
  {
    seq(|ds|, i requires 0 <= i < |ds| => if ds[i].id == id then Toggle(ds[i]) else ds[i])
  }

  function KeepsDownload(id: string): Download -> bool {
    (d: Download) => d.id != id
  }

  /** `handleCancelDownload(id)`: exactly the downloads with that id leave
      the list, the rest keep their order. */
  function Cancel(ds: seq<Download>, id: string): (r: seq<Download>)
    ensures forall d :: d in r <==> d in ds && d.id != id
    ensures Seqs.IsSubsequence(r, ds)
  {
    Seqs.Filter(ds, KeepsDownload(id))
  }

  /** `handleOpenDownload(id)`: when the id is listed, its entries get the
      time of the click; otherwise nothing changes. */
  function OpenDownload(ds: seq<Download>, id: string, now: int): (r: seq<Download>)
    ensures |r| == |ds|
    ensures forall i :: 0 <= i < |ds| ==> r[i] == if ds[i].id == id then ds[i].(timestamp := now) else ds[i]
    ensures (forall d :: d in ds ==> d.id != id) ==> r == ds
  {
    if forall d :: d in ds ==> d.id != id then ds
    else seq(|ds|, i requires 0 <= i < |ds| => if ds[i].id == id then ds[i].(timestamp := now) else ds[i])
  }

  function NotCompleted(d: Download): bool {
    d.status != Completed
  }

  /** `handleClearCompletedDownloads`: exactly the completed downloads leave
      the list, the rest keep their order. */
  function ClearCompleted(ds: seq<Download>): (r: seq<Download>)
    ensures forall d :: d in r <==> d in ds && d.status != Completed
    ensures Seqs.IsSubsequence(r, ds)
    ensures forall i :: 0 <= i < |r| ==> r[i].status != Completed
  {
    Seqs.Filter(ds, NotCompleted)
  }

  /** Clearing twice is clearing once. */
  lemma ClearCompletedIdempotent(ds: seq<Download>)
    ensures ClearCompleted(ClearCompleted(ds)) == ClearCompleted(ds)
  {
  }

  /** The download handlers as window steps. */
  function OnDownloads(w: Window, ds: seq<Download>): (r: Window)
    ensures r.downloads == ds && r.tabs == w.tabs && r.activeTabId == w.activeTabId && r.history == w.history
    ensures Valid(w) ==> Valid(r)
  {
    w.(downloads := ds)
  }
}
