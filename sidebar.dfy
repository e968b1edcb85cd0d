/**
 * The sidebar's tab list as the extension keeps it: one object whose list of
 * rows each event handler changes in place. Each method is one handler of
 * sidebar.js; its postcondition gives the new list as a function (module
 * `Tabs`) of the old one, and says which invariants the handler keeps.
 */
module Sidebar {
  import opened Wrappers
  import opened JsString
  import opened Tabs
  import TabProperties

  class TabList {
    /** The rows of `<ul id="tab-list">`, in document order. */
    var entries: seq<Entry>

    /** Distinct ids and at most one active row: what the host's own state guarantees. */
    ghost predicate Consistent()
      reads this
    {
      UniqueIds(entries) && AtMostOneActive(entries)
    }

    /** The list as the page first renders it: empty. */
    constructor ()
      ensures entries == []
      ensures Consistent()
    {
      entries := [];
    }

    /**
     * `loadTabs`: empty the list, then add one row per tab the host returned,
     * in that order. `tabs` is the result of the awaited query.
     */
    method Load(tabs: seq<Tab>, hostname: UrlParser)
      modifies this
      ensures entries == Loaded(tabs, hostname)
      ensures TabProperties.TabIdsUnique(tabs) && TabProperties.AtMostOneActiveTab(tabs) ==> Consistent()
    {
      entries := [];
      for i := 0 to |tabs|
        invariant |entries| == i
        invariant forall j :: 0 <= j < i ==> entries[j] == EntryFor(tabs[j], hostname)
      {
        Add(tabs[i], hostname);
      }
      if TabProperties.TabIdsUnique(tabs) && TabProperties.AtMostOneActiveTab(tabs) {
        TabProperties.LoadedConsistent(tabs, hostname);
      }
    }

    /**
     * `addTabElement(tab)`: append a row for `tab` at the end, active when the
     * tab is, never hidden, whatever the current search query.
     */
    method Add(tab: Tab, hostname: UrlParser)
      modifies this
      ensures entries == old(entries) + [EntryFor(tab, hostname)]
      ensures |entries| == |old(entries)| + 1 && entries[..|old(entries)|] == old(entries)
      ensures var e := entries[|entries| - 1];
              e.id == tab.id && e.title == tab.title && e.active == tab.active && !e.hidden
              && e.icon == IconFor(tab, hostname)
      ensures old(Consistent()) && tab.id !in Ids(old(entries)) && (tab.active ==> IndexOfActive(old(entries)).None?)
              ==> Consistent()
    {
      var li := Entry(id := tab.id, title := tab.title, icon := DefaultIcon, active := false, hidden := false);
      if tab.active {
        li := li.(active := true);
      }
      li := li.(icon := IconFor(tab, hostname));
      entries := entries + [li];
      if old(Consistent()) && tab.id !in Ids(old(entries)) && (tab.active ==> IndexOfActive(old(entries)).None?) {
        TabProperties.AddConsistent(old(entries), tab, hostname);
      }
    }

    /**
     * `updateTabElement(tabId, changeInfo, tab)`: refresh the title and icon of
     * the row for `tabId`; nothing happens when there is no such row.
     */
    method Update(tabId: int, change: ChangeInfo, tab: Tab)
      modifies this
      ensures entries == Updated(old(entries), tabId, change, tab)
      ensures old(Consistent()) ==> Consistent()
    {
      var found := IndexOfId(entries, tabId);
      if found.None? {
        return;
      }
      var k := found.value;
      if change.title != "" {
        entries := entries[k := entries[k].(title := change.title)];
      }
      if change.favIconUrl != "" {
        entries := entries[k := entries[k].(icon := change.favIconUrl)];
      }
      if change.status == "complete" {
        if tab.favIconUrl != "" {
          entries := entries[k := entries[k].(icon := tab.favIconUrl)];
        }
      }
      TabProperties.UpdatedConsistent(old(entries), tabId, change, tab);
    }

    /** `removeTabElement(tabId)`: drop the row for `tabId`, if there is one. */
    method Remove(tabId: int)
      modifies this
      ensures entries == Removed(old(entries), tabId)
      ensures UniqueIds(old(entries)) ==> UniqueIds(entries) && Ids(entries) == Ids(old(entries)) - {tabId}
      ensures AtMostOneActive(old(entries)) ==> AtMostOneActive(entries)
    {
      var found := IndexOfId(entries, tabId);
      if found.Some? {
        var k := found.value;
        entries := entries[..k] + entries[k + 1..];
      }
      if UniqueIds(old(entries)) {
        TabProperties.RemovedIds(old(entries), tabId);
      }
      TabProperties.RemovedAtMostOneActive(old(entries), tabId);
    }

    /**
     * `updateActiveTab(tabId)`: take the marker off the first active row, then
     * put it on the row for `tabId` if there is one.
     */
    method Activate(tabId: int)
      modifies this
      ensures entries == Activated(old(entries), tabId)
      ensures UniqueIds(old(entries)) ==> UniqueIds(entries)
      ensures AtMostOneActive(old(entries)) ==> AtMostOneActive(entries)
      ensures AtMostOneActive(old(entries)) ==> forall i :: 0 <= i < |entries| ==>
                (entries[i].active <==> Some(i) == IndexOfId(entries, tabId))
    {
      var current := IndexOfActive(entries);
      if current.Some? {
        var k := current.value;
        entries := entries[k := entries[k].(active := false)];
      }
      var next := IndexOfId(entries, tabId);
      if next.Some? {
        var j := next.value;
        entries := entries[j := entries[j].(active := true)];
      }
      TabProperties.ActivatedKeepsIds(old(entries), tabId);
      if AtMostOneActive(old(entries)) {
        TabProperties.ActivatedConsistent(old(entries), tabId);
        IndexOfIdSameIds(old(entries), entries, tabId);
      }
    }

    /**
     * The search box's `input` handler: walk every row and hide it exactly
     * when its lower-cased title does not contain the lower-cased query.
     */
    method Filter(query: string)
      modifies this
      ensures entries == Filtered(old(entries), query)
      ensures old(Consistent()) ==> Consistent()
    {
      var q := ToLower(query);
      var i := 0;
      while i < |entries|
        invariant 0 <= i <= |entries| == |old(entries)|
        invariant forall j :: 0 <= j < i ==> entries[j] == Filtered(old(entries), query)[j]
        invariant forall j :: i <= j < |entries| ==> entries[j] == old(entries)[j]
      {
        var title := ToLower(entries[i].title);
        if Includes(title, q) {
          entries := entries[i := entries[i].(hidden := false)];
        } else {
          entries := entries[i := entries[i].(hidden := true)];
        }
        i := i + 1;
      }
      TabProperties.FilteredConsistent(old(entries), query);
    }
  }
}
