/**
 * What the handlers of the sidebar promise about the tab list, stated over the
 * value model in `Tabs` and proved for every input.
 */
module TabProperties {
  import opened Wrappers
  import opened JsString
  import opened Tabs

  /** The host reports every open tab once. */
  ghost predicate TabIdsUnique(tabs: seq<Tab>)
  {
    forall i, j :: 0 <= i < |tabs| && 0 <= j < |tabs| && tabs[i].id == tabs[j].id ==> i == j
  }

  /** The host reports at most one active tab per window. */
  ghost predicate AtMostOneActiveTab(tabs: seq<Tab>)
  {
    forall i, j :: 0 <= i < |tabs| && 0 <= j < |tabs| && tabs[i].active && tabs[j].active ==> i == j
  }

  // ---- loadTabs -----------------------------------------------------------

  /** After a bulk load, the rows' ids are exactly the queried tabs' ids. */
  lemma LoadedIds(tabs: seq<Tab>, hostname: UrlParser)
    ensures Ids(Loaded(tabs, hostname)) == set i | 0 <= i < |tabs| :: tabs[i].id
  {
    var s := Loaded(tabs, hostname);
    forall x | x in Ids(s) ensures x in set i | 0 <= i < |tabs| :: tabs[i].id {
      var i :| 0 <= i < |s| && s[i].id == x;
      assert tabs[i].id == x;
    }
    forall x | x in set i | 0 <= i < |tabs| :: tabs[i].id ensures x in Ids(s) {
      var i :| 0 <= i < |tabs| && tabs[i].id == x;
      assert s[i].id == x;
    }
  }

  /** A bulk load of a consistent host state gives a consistent list. */
  lemma LoadedConsistent(tabs: seq<Tab>, hostname: UrlParser)
    requires TabIdsUnique(tabs) && AtMostOneActiveTab(tabs)
    ensures UniqueIds(Loaded(tabs, hostname)) && AtMostOneActive(Loaded(tabs, hostname))
  {
    var s := Loaded(tabs, hostname);
    forall i, j | 0 <= i < |s| && 0 <= j < |s| && s[i].id == s[j].id ensures i == j {
      assert tabs[i].id == s[i].id && tabs[j].id == s[j].id;
    }
    forall i, j | 0 <= i < |s| && 0 <= j < |s| && s[i].active && s[j].active ensures i == j {
      assert tabs[i].active && tabs[j].active;
    }
  }

  // ---- addTabElement and removeTabElement ---------------------------------

  /** Appending a row for a tab whose id is not yet listed makes it the first (and only) row with that id. */
  lemma {:induction false} IndexOfIdAppended(s: seq<Entry>, e: Entry)
    requires e.id !in Ids(s)
    ensures IndexOfId(s + [e], e.id) == Some(|s|)
  {
    var t := s + [e];
    forall j | 0 <= j < |s| ensures t[j].id != e.id {
      assert t[j] == s[j];
      assert s[j].id in Ids(s);
    }
    assert t[|s|] == e;
  }

  /** Adding a consistent row keeps the list consistent. */
  lemma AddConsistent(s: seq<Entry>, tab: Tab, hostname: UrlParser)
    requires UniqueIds(s) && AtMostOneActive(s)
    requires tab.id !in Ids(s) && (tab.active ==> IndexOfActive(s).None?)
    ensures UniqueIds(s + [EntryFor(tab, hostname)]) && AtMostOneActive(s + [EntryFor(tab, hostname)])
  {
    var t := s + [EntryFor(tab, hostname)];
    forall i, j | 0 <= i < |t| && 0 <= j < |t| && t[i].id == t[j].id ensures i == j {
      if i < |s| { assert s[i].id in Ids(s); }
      if j < |s| { assert s[j].id in Ids(s); }
    }
    forall i, j | 0 <= i < |t| && 0 <= j < |t| && t[i].active && t[j].active ensures i == j {
      if i < |s| { assert s[i].active; }
      if j < |s| { assert s[j].active; }
    }
  }

  /**
   * Creating a tab and removing it before anything else happens restores the
   * list, provided the id was not already listed.
   */
  lemma AddThenRemove(s: seq<Entry>, tab: Tab, hostname: UrlParser)
    requires tab.id !in Ids(s)
    ensures Removed(s + [EntryFor(tab, hostname)], tab.id) == s
  {
    IndexOfIdAppended(s, EntryFor(tab, hostname));
  }

  /** With distinct ids, removal leaves no row for the id, keeps the other ids, and keeps them distinct. */
  lemma RemovedIds(s: seq<Entry>, tabId: int)
    requires UniqueIds(s)
    ensures UniqueIds(Removed(s, tabId))
    ensures Ids(Removed(s, tabId)) == Ids(s) - {tabId}
  {
    var r := Removed(s, tabId);
    match IndexOfId(s, tabId)
    case None =>
      assert tabId !in Ids(s);
    case Some(k) =>
      // index i of r stands at index Src(i) of s
      forall i | 0 <= i < |r| ensures r[i] == s[if i < k then i else i + 1] {
      }
      forall i, j | 0 <= i < |r| && 0 <= j < |r| && r[i].id == r[j].id ensures i == j {
        assert s[if i < k then i else i + 1].id == s[if j < k then j else j + 1].id;
      }
      forall x | x in Ids(r) ensures x in Ids(s) - {tabId} {
        var i :| 0 <= i < |r| && r[i].id == x;
        var n := if i < k then i else i + 1;
        assert s[n].id == x && n != k;
      }
      forall x | x in Ids(s) - {tabId} ensures x in Ids(r) {
        var n :| 0 <= n < |s| && s[n].id == x;
        assert n != k;
        var i := if n < k then n else n - 1;
        assert r[i].id == x;
      }
  }

  /** Removal never adds a marker, so at most one active row stays so. */
  lemma RemovedAtMostOneActive(s: seq<Entry>, tabId: int)
    ensures AtMostOneActive(s) ==> AtMostOneActive(Removed(s, tabId))
  {
    var r := Removed(s, tabId);
    match IndexOfId(s, tabId)
    case None =>
    case Some(k) =>
      forall i, j | 0 <= i < |r| && 0 <= j < |r| && r[i].active && r[j].active && AtMostOneActive(s)
        ensures i == j
      {
        assert s[if i < k then i else i + 1].active && s[if j < k then j else j + 1].active;
      }
  }

  // ---- updateTabElement ---------------------------------------------------

  /** An update never changes ids or active flags, so it keeps the list consistent. */
  lemma UpdatedConsistent(s: seq<Entry>, tabId: int, change: ChangeInfo, tab: Tab)
    ensures UniqueIds(s) ==> UniqueIds(Updated(s, tabId, change, tab))
    ensures AtMostOneActive(s) ==> AtMostOneActive(Updated(s, tabId, change, tab))
    ensures Ids(Updated(s, tabId, change, tab)) == Ids(s)
  {
    var r := Updated(s, tabId, change, tab);
    assert forall i :: 0 <= i < |r| ==> r[i].id == s[i].id && r[i].active == s[i].active;
    forall x | x in Ids(r) ensures x in Ids(s) {
      var i :| 0 <= i < |r| && r[i].id == x;
      assert s[i].id == x;
    }
    forall x | x in Ids(s) ensures x in Ids(r) {
      var i :| 0 <= i < |s| && s[i].id == x;
      assert r[i].id == x;
    }
  }

  // ---- updateActiveTab ----------------------------------------------------

  /**
   * When at most one row was active, activation leaves exactly the row for
   * the id active, or no row at all when the id is not listed.
   */
  lemma ActivatedConsistent(s: seq<Entry>, tabId: int)
    requires AtMostOneActive(s)
    ensures AtMostOneActive(Activated(s, tabId))
    ensures forall i :: 0 <= i < |s| ==> (Activated(s, tabId)[i].active <==> Some(i) == IndexOfId(s, tabId))
  {
    var r := Activated(s, tabId);
    forall i | 0 <= i < |s| ensures r[i].active <==> Some(i) == IndexOfId(s, tabId) {
      if s[i].active {
        assert IndexOfActive(s) == Some(i);
      }
    }
  }

  /** Activation changes no id, so distinct ids stay distinct. */
  lemma ActivatedKeepsIds(s: seq<Entry>, tabId: int)
    ensures Ids(Activated(s, tabId)) == Ids(s)
    ensures UniqueIds(s) ==> UniqueIds(Activated(s, tabId))
  {
    var r := Activated(s, tabId);
    forall x | x in Ids(r) ensures x in Ids(s) {
      var i :| 0 <= i < |r| && r[i].id == x;
      assert s[i].id == x;
    }
    forall x | x in Ids(s) ensures x in Ids(r) {
      var i :| 0 <= i < |s| && s[i].id == x;
      assert r[i].id == x;
    }
  }

  /**
   * After a new tab arrives active beside an older marked row, activating the
   * new tab clears the older marker (the first active row) and leaves exactly
   * the new row active.
   */
  lemma ActivateNewRestoresOne(s: seq<Entry>, tab: Tab, hostname: UrlParser)
    requires AtMostOneActive(s) && tab.id !in Ids(s)
    ensures var r := Activated(s + [EntryFor(tab, hostname)], tab.id);
            forall i :: 0 <= i < |r| ==> (r[i].active <==> i == |s|)
  {
    var t := s + [EntryFor(tab, hostname)];
    IndexOfIdAppended(s, EntryFor(tab, hostname));
    var r := Activated(t, tab.id);
    forall i | 0 <= i < |r| ensures r[i].active <==> i == |s| {
      if i < |s| && t[i].active {
        assert IndexOfActive(t) == Some(i) by {
          forall j | 0 <= j < i ensures !t[j].active {
            assert t[j] == s[j] && t[i] == s[i];
          }
        }
      }
    }
  }

  /** Activating an id that is not listed leaves no active row, if at most one was active. */
  lemma ActivatedAbsent(s: seq<Entry>, tabId: int)
    requires AtMostOneActive(s) && tabId !in Ids(s)
    ensures forall i :: 0 <= i < |s| ==> !Activated(s, tabId)[i].active
  {
    ActivatedConsistent(s, tabId);
    forall i | 0 <= i < |s| ensures s[i].id != tabId {
      assert s[i].id in Ids(s);
    }
  }

  // ---- the search filter --------------------------------------------------

  /** Filtering keeps ids and active flags, so it keeps the list consistent. */
  lemma FilteredConsistent(s: seq<Entry>, query: string)
    ensures UniqueIds(s) ==> UniqueIds(Filtered(s, query))
    ensures AtMostOneActive(s) ==> AtMostOneActive(Filtered(s, query))
  {
  }

  /** Filtering twice with one query is filtering once. */
  lemma FilterIdempotent(s: seq<Entry>, query: string)
    ensures Filtered(Filtered(s, query), query) == Filtered(s, query)
  {
    var once := Filtered(s, query);
    var twice := Filtered(once, query);
    forall i | 0 <= i < |s| ensures twice[i] == once[i] {
      assert twice[i].hidden == !Matches(once[i].title, query);
    }
  }

  /** The result of a filter depends on the query and the titles, not on earlier hidden flags. */
  lemma FilterForgetsPrevious(s: seq<Entry>, previous: string, query: string)
    ensures Filtered(Filtered(s, previous), query) == Filtered(s, query)
  {
    var a := Filtered(Filtered(s, previous), query);
    var b := Filtered(s, query);
    forall i | 0 <= i < |s| ensures a[i] == b[i] {
      assert a[i].hidden == !Matches(s[i].title, query);
    }
  }

  /** An empty query shows every row, whatever was hidden before. */
  lemma FilterEmptyShowsAll(s: seq<Entry>)
    ensures forall i :: 0 <= i < |s| ==> !Filtered(s, "")[i].hidden
  {
    forall i | 0 <= i < |s| ensures !Filtered(s, "")[i].hidden {
      IncludesEmpty(ToLower(s[i].title));
      assert ToLower("") == "";
    }
  }
}
