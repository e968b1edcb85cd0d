/**
 * The tab list of the vertical tabs sidebar, as values.
 *
 * In the extension the `<ul id="tab-list">` is both the store and the view;
 * here each `<li class="tab-item">` becomes an `Entry` record, and the list an
 * ordered `seq<Entry>`. The functions below say what each event handler does to
 * that sequence; `Sidebar.TabList` performs the same changes in place.
 */
module Tabs {
  import opened Wrappers
  import opened JsString

  /**
   * The hostname of a URL as `new URL(url).hostname` gives it, or `None` when
   * the constructor throws. The URL parser itself is not part of this model.
   */
  type UrlParser = string -> Option<string>

  /** The bundled fallback icon. */
  const DefaultIcon: string := "icons/icon16.png"

  /** The favicon lookup service; the hostname is appended to it. */
  const FaviconService: string := "https://www.google.com/s2/favicons?domain="

  /**
   * A tab as the host reports it. A missing `title`, `favIconUrl` or `url`
   * is the empty string: JavaScript treats `undefined` and `""` alike here.
   */
  datatype Tab = Tab(id: int, title: string, favIconUrl: string, url: string, active: bool)

  /** The change set of an update notification; absent fields are "". */
  datatype ChangeInfo = ChangeInfo(title: string, favIconUrl: string, status: string)

  /** One row of the list: the `tab-<id>` element, its title text, its icon source and its classes. */
  datatype Entry = Entry(id: int, title: string, icon: string, active: bool, hidden: bool)

  /**
   * The icon a new row shows: the tab's own favicon when it has one, else the
   * favicon service keyed by the hostname of a URL that parses, else the
   * bundled default. The body follows the source: a first choice that a
   * successful parse then overrides.
   */
  function IconFor(tab: Tab, hostname: UrlParser): (icon: string)
    ensures tab.favIconUrl != "" ==> icon == tab.favIconUrl
    ensures tab.favIconUrl == "" && tab.url != "" && hostname(tab.url).Some? ==>
              icon == FaviconService + hostname(tab.url).value
    ensures tab.favIconUrl == "" && (tab.url == "" || hostname(tab.url).None?) ==> icon == DefaultIcon
    ensures icon != ""
  {
    var first := if tab.favIconUrl != "" then tab.favIconUrl else DefaultIcon;
    if tab.favIconUrl == "" && tab.url != "" then
      match hostname(tab.url)
      case Some(host) => FaviconService + host
      case None => first
    else
      first
  }

  /** The row `addTabElement` builds for `tab`. */
  function EntryFor(tab: Tab, hostname: UrlParser): (e: Entry)
    ensures e.id == tab.id && e.title == tab.title && (e.active <==> tab.active)
    ensures !e.hidden
    ensures e.icon == IconFor(tab, hostname) && e.icon != ""
  {
    Entry(tab.id, tab.title, IconFor(tab, hostname), tab.active, false)
  }

  /** `document.getElementById('tab-' + id)`: the index of the first row with this id. */
  function IndexOfId(s: seq<Entry>, id: int): (r: Option<nat>)
    ensures r.Some? ==> r.value < |s| && s[r.value].id == id
    ensures r.Some? ==> forall j :: 0 <= j < r.value ==> s[j].id != id
    ensures r.None? <==> forall j :: 0 <= j < |s| ==> s[j].id != id
  {
    if s == [] then None
    else if s[0].id == id then Some(0)
    else match IndexOfId(s[1..], id)
      case None => None
      case Some(k) => Some(k + 1)
  }

  /** `tabList.querySelector('.active')`: the index of the first active row. */
  function IndexOfActive(s: seq<Entry>): (r: Option<nat>)
    ensures r.Some? ==> r.value < |s| && s[r.value].active
    ensures r.Some? ==> forall j :: 0 <= j < r.value ==> !s[j].active
    ensures r.None? <==> forall j :: 0 <= j < |s| ==> !s[j].active
  {
    if s == [] then None
    else if s[0].active then Some(0)
    else match IndexOfActive(s[1..])
      case None => None
      case Some(k) => Some(k + 1)
  }

  /** The ids present in the list. */
  function Ids(s: seq<Entry>): set<int>
  {
    set i | 0 <= i < |s| :: s[i].id
  }

  /** No two rows share an id (the host's ids are unique; the code never checks). */
  ghost predicate UniqueIds(s: seq<Entry>)
  {
    forall i, j :: 0 <= i < |s| && 0 <= j < |s| && s[i].id == s[j].id ==> i == j
  }

  /** At most one row carries the `active` class. */
  ghost predicate AtMostOneActive(s: seq<Entry>)
  {
    forall i, j :: 0 <= i < |s| && 0 <= j < |s| && s[i].active && s[j].active ==> i == j
  }

  /** The list after `loadTabs`: one row per queried tab, in the host's order. */
  function Loaded(tabs: seq<Tab>, hostname: UrlParser): (r: seq<Entry>)
    ensures |r| == |tabs|
    ensures forall i :: 0 <= i < |tabs| ==>
              r[i].id == tabs[i].id && r[i].title == tabs[i].title && r[i].active == tabs[i].active
              && !r[i].hidden && r[i].icon == IconFor(tabs[i], hostname)
  {
    seq(|tabs|, i requires 0 <= i < |tabs| => EntryFor(tabs[i], hostname))
  }

  /** The search test: the lower-cased title contains the lower-cased query. */
  function Matches(title: string, query: string): (r: bool)
    ensures r <==> Occurs(ToLower(title), ToLower(query))
    ensures query == "" ==> r
  {
    assert ToLower("") == "";
    IncludesEmpty(ToLower(title));
    Includes(ToLower(title), ToLower(query))
  }

  /**
   * The list after the search `input` handler: every row is hidden exactly
   * when its title does not match, and nothing but `hidden` changes.
   */
  function Filtered(s: seq<Entry>, query: string): (r: seq<Entry>)
    ensures |r| == |s|
    ensures forall i :: 0 <= i < |s| ==>
              r[i].id == s[i].id && r[i].title == s[i].title && r[i].icon == s[i].icon && r[i].active == s[i].active
    ensures forall i :: 0 <= i < |s| ==>
              (r[i].hidden <==> !exists k :: OccursAt(ToLower(s[i].title), ToLower(query), k))
  {
    seq(|s|, i requires 0 <= i < |s| => s[i].(hidden := !Matches(s[i].title, query)))
  }

  /** One row after `updateTabElement`: the three guarded assignments, in order. */
  function Refreshed(e: Entry, change: ChangeInfo, tab: Tab): (r: Entry)
    ensures r.id == e.id && r.active == e.active && r.hidden == e.hidden
    ensures change.title != "" ==> r.title == change.title
    ensures change.title == "" ==> r.title == e.title
    ensures change.status == "complete" && tab.favIconUrl != "" ==> r.icon == tab.favIconUrl
    ensures !(change.status == "complete" && tab.favIconUrl != "") ==>
              r.icon == if change.favIconUrl != "" then change.favIconUrl else e.icon
  {
    var title := if change.title != "" then change.title else e.title;
    var icon := if change.favIconUrl != "" then change.favIconUrl else e.icon;
    var icon' := if change.status == "complete" && tab.favIconUrl != "" then tab.favIconUrl else icon;
    e.(title := title, icon := icon')
  }

  /**
   * The list after `updateTabElement(tabId, change, tab)`: no change when no
   * row has the id; otherwise only the first such row changes, and only in its
   * title and icon. The icon's precedence is the snapshot's favicon on a
   * completed load, then the change set's favicon, then the old icon.
   */
  function Updated(s: seq<Entry>, tabId: int, change: ChangeInfo, tab: Tab): (r: seq<Entry>)
    ensures |r| == |s|
    ensures IndexOfId(s, tabId).None? ==> r == s
    ensures forall i :: 0 <= i < |s| ==>
              r[i].id == s[i].id && r[i].active == s[i].active && r[i].hidden == s[i].hidden
    ensures IndexOfId(s, tabId).Some? ==>
              var k := IndexOfId(s, tabId).value;
              && (forall i :: 0 <= i < |s| && i != k ==> r[i] == s[i])
              && (change.title != "" ==> r[k].title == change.title)
              && (change.title == "" ==> r[k].title == s[k].title)
              && (change.status == "complete" && tab.favIconUrl != "" ==> r[k].icon == tab.favIconUrl)
              && (!(change.status == "complete" && tab.favIconUrl != "") ==>
                    r[k].icon == if change.favIconUrl != "" then change.favIconUrl else s[k].icon)
  {
    match IndexOfId(s, tabId)
    case None => s
    case Some(k) => s[k := Refreshed(s[k], change, tab)]
  }

  /**
   * The list after `removeTabElement(tabId)`: the first row with the id is
   * cut out and the others keep their order; no change when there is none.
   */
  function Removed(s: seq<Entry>, tabId: int): (r: seq<Entry>)
    ensures IndexOfId(s, tabId).None? ==> r == s
    ensures IndexOfId(s, tabId).Some? ==>
              var k := IndexOfId(s, tabId).value;
              && |r| == |s| - 1
              && (forall i :: 0 <= i < k ==> r[i] == s[i])
              && (forall i :: k <= i < |r| ==> r[i] == s[i + 1])
  {
    match IndexOfId(s, tabId)
    case None => s
    case Some(k) => s[..k] + s[k + 1..]
  }

  /** Rows with the same ids in the same places have the same first row for every id. */
  lemma IndexOfIdSameIds(s: seq<Entry>, t: seq<Entry>, id: int)
    requires |s| == |t| && forall i :: 0 <= i < |s| ==> s[i].id == t[i].id
    ensures IndexOfId(s, id) == IndexOfId(t, id)
  {
  }

  /** The list with the marker taken off the first active row, as `updateActiveTab` does first. */
  function Deactivated(s: seq<Entry>): (r: seq<Entry>)
    ensures |r| == |s|
    ensures forall i :: 0 <= i < |s| ==> r[i] == s[i].(active := r[i].active)
    ensures IndexOfActive(s).None? ==> r == s
    ensures IndexOfActive(s).Some? ==>
              var k := IndexOfActive(s).value;
              !r[k].active && forall i :: 0 <= i < |s| && i != k ==> r[i] == s[i]
  {
    match IndexOfActive(s)
    case None => s
    case Some(k) => s[k := s[k].(active := false)]
  }

  /**
   * The list after `updateActiveTab(tabId)`: the marker comes off the first
   * active row, then goes onto the first row with the id, if there is one.
   * Only `active` flags change, and only on those two rows.
   */
  function Activated(s: seq<Entry>, tabId: int): (r: seq<Entry>)
    ensures |r| == |s|
    ensures forall i :: 0 <= i < |s| ==> r[i] == s[i].(active := r[i].active)
    ensures IndexOfId(s, tabId).Some? ==> r[IndexOfId(s, tabId).value].active
    ensures IndexOfActive(s).Some? && IndexOfId(s, tabId) != Some(IndexOfActive(s).value) ==>
              !r[IndexOfActive(s).value].active
    ensures forall i :: 0 <= i < |s| && Some(i) != IndexOfActive(s) && Some(i) != IndexOfId(s, tabId) ==>
              r[i].active == s[i].active
  {
    var cleared := Deactivated(s);
    IndexOfIdSameIds(s, cleared, tabId);
    match IndexOfId(cleared, tabId)
    case None => cleared
    case Some(j) => cleared[j := cleared[j].(active := true)]
  }
}
