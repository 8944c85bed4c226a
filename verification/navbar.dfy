/** The address bar: turning what the user typed into an address to load,
    and turning the page shown into the bookmark the star button stores. */
module NavigationBar {
  import opened Wrappers
  import opened Text
  import Bookmarks

  /** What submitting the address bar loads: nothing for blank input; the
      trimmed input when it already names a scheme (`://`); otherwise the
      trimmed input over `https://`. */
  function Submit(input: string): (r: Option<string>)
    ensures r.None? <==> forall k :: 0 <= k < |input| ==> IsJsSpace(input[k])
    ensures r.Some? ==> Contains(r.value, "://")
    ensures r.Some? ==> r.value == Trim(input) || r.value == "https://" + Trim(input)
    ensures r.Some? && Contains(Trim(input), "://") ==> r.value == Trim(input)
  {
    var url := Trim(input);
    if url == "" then None
    else if Contains(url, "://") then Some(url)
    else
      SchemeContained(url);
      Some("https://" + url)
  }

  lemma SchemeContained(url: string)
    ensures Contains("https://" + url, "://")
  {
    var s := "https://" + url;
    assert s[5..5 + 3] == "://";
    assert OccursAt(s, "://", 5);
    ContainsIffOccurs(s, "://");
  }

  /** Trimming a string that neither starts nor ends with white space
      changes nothing. */
  lemma TrimTrimmed(s: string)
    requires s != [] && !IsJsSpace(s[0]) && !IsJsSpace(s[|s| - 1])
    ensures Trim(s) == s
  {
    var i, j :| && 0 <= i <= j <= |s| && Trim(s) == s[i..j]
                && (forall k :: 0 <= k < i ==> IsJsSpace(s[k]))
                && (forall k :: j <= k < |s| ==> IsJsSpace(s[k]));
    assert i == 0 && j == |s|;
  }

  /** Submitting the address that a submission loaded loads it again: the
      normalisation is idempotent. */
  lemma SubmitSettles(input: string)
    requires Submit(input).Some?
    ensures Submit(Submit(input).value) == Submit(input)
  {
    var url := Trim(input);
    var target := Submit(input).value;
    if target == url {
      TrimTrimmed(url);
    } else {
      assert target == "https://" + url;
      assert target[0] == 'h' && target[|target| - 1] == url[|url| - 1];
      TrimTrimmed(target);
    }
  }

  /** JavaScript `a || b` on strings: an absent or empty `a` falls through. */
  function OrElse(a: Option<string>, b: string): (r: string)
    ensures a.Some? && a.value != "" ==> r == a.value
    ensures a.None? || a.value == "" ==> r == b
  {
    if a.Some? && a.value != "" then a.value else b
  }

  /** The title the star button stores: the page's title, or else its host,
      or else the whole address. */
  function BookmarkTitle(currentUrl: string, currentTitle: Option<string>): (r: string)
    ensures currentTitle.Some? && currentTitle.value != "" ==> r == currentTitle.value
    ensures (currentTitle.None? || currentTitle.value == "") && HostPart(currentUrl) != "" ==> r == HostPart(currentUrl)
    ensures (currentTitle.None? || currentTitle.value == "") && HostPart(currentUrl) == "" ==> r == currentUrl
    ensures currentUrl != "" ==> r != ""
  {
    OrElse(currentTitle, OrElse(Some(HostPart(currentUrl)), currentUrl))
  }

  /** `handleAddBookmark`: nothing for an empty address or one that does not
      start with `http`; otherwise the request sent to the bookmark store,
      filed first in the Bookmarks Bar. */
  function AddBookmarkRequest(currentUrl: string, currentTitle: Option<string>, currentFavicon: Option<string>)
    : (r: Option<Bookmarks.NewBookmark>)
    ensures r.None? <==> !IsPrefix("http", currentUrl)
    ensures r.Some? ==>
      && r.value.url == currentUrl
      && r.value.title == BookmarkTitle(currentUrl, currentTitle)
      && r.value.title != ""
      && r.value.favicon == Some(OrElse(currentFavicon, ""))
      && r.value.folderId == Some(Bookmarks.BarId)
      && r.value.position == 0
      && r.value.tags.None?
  {
    if currentUrl == "" || !IsPrefix("http", currentUrl) then None
    else Some(Bookmarks.NewBookmark(BookmarkTitle(currentUrl, currentTitle), currentUrl,
                                    Some(OrElse(currentFavicon, "")), Some(Bookmarks.BarId), 0, None))
  }

  /** The star button's request always lands: the Bookmarks Bar exists in
      every initialised store, so the insert cannot violate its key, and
      the stored row carries the page's address and no favicon when the
      page had none. */
  lemma StarButtonLands(db: Bookmarks.BookmarkDb, barTime: int, otherTime: int, currentUrl: string,
                        currentTitle: Option<string>, currentFavicon: Option<string>, later: int)
    requires IsPrefix("http", currentUrl)
    ensures var nb := AddBookmarkRequest(currentUrl, currentTitle, currentFavicon).value;
      var r := Bookmarks.AddBookmark(Bookmarks.Init(db, barTime, otherTime), nb, later);
      && r.Ok?
      && var row := r.value.db.bookmarks[|r.value.db.bookmarks| - 1];
      && row.url == currentUrl && row.folderId == Some(Bookmarks.BarId) && row.dateAdded == later
      && (row.favicon.None? <==> currentFavicon.None? || currentFavicon.value == "")
  {
  }
}
