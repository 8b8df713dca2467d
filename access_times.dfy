/**
 * The background script's access-time table: tab id -> epoch milliseconds of the tab's last
 * access. Every handler reads the stored table, changes it and writes it back; the class
 * holds the stored table and each method is one such read-modify-write.
 */
module AccessTimes {
  import opened Wrappers
  import KeyChoice
  import Tabs

  /** The entry for `id` is present and truthy (not 0). */
  predicate HasEntry(table: map<int, int>, id: int) {
    id in table && table[id] != 0
  }

  /**
   * The table after the install-time pass over the open tabs, in enumeration order: a tab
   * without a truthy entry gets `now`, every other entry is left alone.
   */
  function Initialized(table: map<int, int>, tabIds: seq<int>, now: int): (r: map<int, int>)
    ensures forall k :: k in r <==> k in table || k in tabIds
    ensures forall k :: HasEntry(table, k) ==> r[k] == table[k]
    ensures forall k :: k in tabIds && !HasEntry(table, k) ==> r[k] == now
    ensures forall k :: k in table && k !in tabIds ==> r[k] == table[k]
    decreases |tabIds|
  {
    if tabIds == [] then table
    else
      var n := |tabIds| - 1;
      var m := Initialized(table, tabIds[..n], now);
      assert forall k :: k in tabIds[..n] ==> k in tabIds;
      assert forall k :: k in tabIds ==> k in tabIds[..n] || k == tabIds[n];
      if HasEntry(m, tabIds[n]) then m else m[tabIds[n] := now]
  }

  /** Running the install-time pass a second time over the same tabs changes nothing (install time is never 0). */
  lemma InitializeIdempotent(table: map<int, int>, tabIds: seq<int>, now1: int, now2: int)
    requires now1 != 0
    ensures Initialized(Initialized(table, tabIds, now1), tabIds, now2) == Initialized(table, tabIds, now1)
  {
    var once := Initialized(table, tabIds, now1);
    var twice := Initialized(once, tabIds, now2);
    assert forall k :: k in tabIds ==> HasEntry(once, k);
    assert twice.Keys == once.Keys;
    assert forall k :: k in twice ==> twice[k] == once[k];
  }

  /** The table after the hourly sweep: the entries of live tabs, with their values. */
  function Swept(table: map<int, int>, live: set<int>): (r: map<int, int>)
    ensures r.Keys == table.Keys * live
    ensures forall k :: k in r ==> r[k] == table[k]
  {
    map k | k in table && k in live :: table[k]
  }

  /** The sweep removes as many entries as there are keys of dead tabs. */
  lemma SweptSize(table: map<int, int>, live: set<int>)
    ensures |Swept(table, live)| + |table.Keys - live| == |table|
  {
    var kept, gone := table.Keys * live, table.Keys - live;
    assert table.Keys == kept + gone && kept * gone == {};
    assert |Swept(table, live).Keys| == |kept|;
  }

  /** A second sweep with the same open tabs removes nothing and leaves the table as it was. */
  lemma SweepIdempotent(table: map<int, int>, live: set<int>)
    ensures Swept(table, live).Keys - live == {}
    ensures Swept(Swept(table, live), live) == Swept(table, live)
  {
  }

  class AccessTimeTracker {
    /** The stored table (`tabAccessTimes` in local storage). */
    var tabAccessTimes: map<int, int>

    /** A missing stored table reads as an empty one. */
    constructor (stored: Option<map<int, int>>)
      ensures tabAccessTimes == if stored.Some? then stored.value else map[]
    {
      tabAccessTimes := if stored.Some? then stored.value else map[];
    }

    /** `initializeExistingTabs`: gives every open tab an entry, keeping the truthy ones. */
    method InitializeExistingTabs(tabIds: seq<int>, now: int)
      modifies this
      ensures tabAccessTimes == Initialized(old(tabAccessTimes), tabIds, now)
      ensures forall id :: id in tabIds ==> id in tabAccessTimes
    {
      var table := tabAccessTimes;
      for i := 0 to |tabIds|
        invariant table == Initialized(old(tabAccessTimes), tabIds[..i], now)
      {
        assert tabIds[..i + 1][..i] == tabIds[..i];
        var id := tabIds[i];
        if !(id in table && table[id] != 0) {
          table := table[id := now];
        }
      }
      assert tabIds[..|tabIds|] == tabIds;
      tabAccessTimes := table;
    }

    /** `recordTabAccessTime`: the tab's entry becomes `now`; no other entry changes. */
    method RecordTabAccessTime(tabId: int, now: int)
      modifies this
      ensures tabAccessTimes == old(tabAccessTimes)[tabId := now]
    {
      var table := tabAccessTimes;
      table := table[tabId := now];
      tabAccessTimes := table;
    }

    /** `removeTabAccessTime`: the tab's entry is gone; no other entry changes. */
    method RemoveTabAccessTime(tabId: int)
      modifies this
      ensures tabAccessTimes == old(tabAccessTimes) - {tabId}
      ensures tabId !in old(tabAccessTimes) ==> tabAccessTimes == old(tabAccessTimes)
    {
      var table := tabAccessTimes;
      table := table - {tabId};
      tabAccessTimes := table;
    }

    /**
     * The `onUpdated` listener: an access is recorded only when the update carries a URL
     * change; `changedUrl` is `changeInfo.url`, and an empty string is falsy like a missing one.
     */
    method OnUpdated(tabId: int, changedUrl: Option<string>, now: int)
      modifies this
      ensures tabAccessTimes ==
                if changedUrl.Some? && changedUrl.value != "" then old(tabAccessTimes)[tabId := now]
                else old(tabAccessTimes)
    {
      if changedUrl.Some? && changedUrl.value != "" {
        RecordTabAccessTime(tabId, now);
      }
    }

    /**
     * The hourly sweep: deletes the entries of tabs that are no longer open, counts them, and
     * writes the table back only when it removed something.
     */
    method Sweep(openTabIds: seq<int>) returns (cleaned: nat, written: bool)
      modifies this
      ensures tabAccessTimes == Swept(old(tabAccessTimes), Tabs.Elements(openTabIds))
      ensures cleaned == |old(tabAccessTimes).Keys - Tabs.Elements(openTabIds)|
      ensures written == (cleaned > 0)
    {
      var existingTabIds := Tabs.Elements(openTabIds);
      var table;
      table, cleaned := DropDeadEntries(tabAccessTimes, existingTabIds);
      written := cleaned > 0;
      if written {
        tabAccessTimes := table;
      } else {
        NothingGoneNothingSwept(tabAccessTimes, existingTabIds);
      }
    }
  }

  /**
   * The loop of the hourly sweep: visits every key of the stored table once and deletes the
   * entry of each tab that is not open, counting the deletions.
   */
  method DropDeadEntries(start: map<int, int>, existingTabIds: set<int>) returns (table: map<int, int>, cleaned: nat)
    ensures table == Swept(start, existingTabIds)
    ensures cleaned == |start.Keys - existingTabIds|
  {
    table := start;
    var pending := start.Keys;
    cleaned := 0;
    while pending != {}
      invariant pending <= start.Keys
      invariant table == Swept(start, pending + existingTabIds)
      invariant cleaned == |(start.Keys - pending) - existingTabIds|
      decreases pending
    {
      var tabId := KeyChoice.PickKey(pending);
      SweepStep(start, pending, existingTabIds, tabId);
      if tabId !in existingTabIds {
        table := table - {tabId};
        cleaned := cleaned + 1;
      }
      pending := pending - {tabId};
    }
    assert pending + existingTabIds == existingTabIds;
  }

  /** When every key belongs to a live tab, the sweep leaves the table as it is. */
  lemma NothingGoneNothingSwept(table: map<int, int>, live: set<int>)
    requires |table.Keys - live| == 0
    ensures Swept(table, live) == table
  {
    assert table.Keys - live == {};
    assert forall k :: k in table ==> k in live by {
      forall k | k in table ensures k in live {
        assert k !in table.Keys - live;
      }
    }
    var r := Swept(table, live);
    assert forall k :: k in r <==> k in table;
  }

  /** Visiting one pending key: a dead tab's entry leaves the table and adds one to the count. */
  lemma SweepStep(start: map<int, int>, pending: set<int>, live: set<int>, tabId: int)
    requires pending <= start.Keys && tabId in pending
    ensures Swept(start, (pending - {tabId}) + live) ==
              if tabId in live then Swept(start, pending + live) else Swept(start, pending + live) - {tabId}
    ensures |(start.Keys - (pending - {tabId})) - live| ==
              |(start.Keys - pending) - live| + (if tabId in live then 0 else 1)
  {
    var before, after := (start.Keys - pending) - live, (start.Keys - (pending - {tabId})) - live;
    if tabId in live {
      assert (pending - {tabId}) + live == pending + live;
      assert after == before;
    } else {
      assert after == before + {tabId};
      assert tabId !in before;
    }
  }
}
