/**
 * Stale-tab cleaning (`cleanOldTabs` of the cleaner popup): across all windows, queue every
 * tab that is not pinned, not audible, not an internal page, and whose recorded last access
 * is more than seven days before now; then request their closing.
 */
module Staleness {
  import opened Tabs
  import Removal
  import AccessTimes

  /** Seven days in milliseconds. */
  const SevenDaysMs: int := 7 * 24 * 60 * 60 * 1000

  predicate IsStale(t: Tab, times: map<int, int>, now: int) {
    !t.pinned && !t.audible && !IsInternal(t.url) &&
    AccessTimes.HasEntry(times, t.id) && now - times[t.id] > SevenDaysMs
  }

  /** The positions of the stale tabs, in enumeration order. */
  function StaleIndices(tabs: seq<Tab>, times: map<int, int>, now: int): (r: seq<nat>)
    ensures |r| <= |tabs|
    ensures forall k :: 0 <= k < |r| ==> r[k] < |tabs|
    ensures forall k, l :: 0 <= k < l < |r| ==> r[k] < r[l]
    ensures forall i :: 0 <= i < |tabs| ==> (i in r <==> IsStale(tabs[i], times, now))
    decreases |tabs|
  {
    if tabs == [] then []
    else
      var n := |tabs| - 1;
      var rest := StaleIndices(tabs[..n], times, now);
      assert forall i :: 0 <= i < n ==> tabs[..n][i] == tabs[i];
      rest + (if IsStale(tabs[n], times, now) then [n] else [])
  }

  /** One step of the stale-tab walk: position `i` is appended exactly when that tab is stale. */
  lemma StaleIndicesStep(tabs: seq<Tab>, times: map<int, int>, now: int, i: nat)
    requires i < |tabs|
    ensures StaleIndices(tabs[..i + 1], times, now) ==
      StaleIndices(tabs[..i], times, now) + (if IsStale(tabs[i], times, now) then [i] else [])
  {
    assert tabs[..i + 1][..i] == tabs[..i];
  }

  /** The ids `cleanOldTabs` queues: the ids at the stale positions, in enumeration order. */
  function StaleIds(tabs: seq<Tab>, times: map<int, int>, now: int): seq<int> {
    IdsAt(tabs, StaleIndices(tabs, times, now))
  }

  /**
   * The queued ids are exactly the ids of tabs that are stale, there are no more of them than
   * tabs, and none is repeated when the browser's ids are distinct.
   */
  lemma StaleIdsWellFormed(tabs: seq<Tab>, times: map<int, int>, now: int)
    ensures |StaleIds(tabs, times, now)| <= |tabs|
    ensures forall x :: x in StaleIds(tabs, times, now) <==>
      exists i :: 0 <= i < |tabs| && tabs[i].id == x && IsStale(tabs[i], times, now)
    ensures DistinctIds(tabs) ==> NoRepeats(StaleIds(tabs, times, now))
  {
    var idx := StaleIndices(tabs, times, now);
    forall x {
      IdsAtMembership(tabs, idx, x);
    }
    if DistinctIds(tabs) {
      IdsAtNoRepeats(tabs, idx);
    }
  }

  datatype StaleMessage = ClosedStale(count: nat) | NoStaleTabs

  /** What a press of the stale-tab button leaves behind. */
  datatype StaleOutcome = StaleOutcome(
    tabsToClose: seq<int>,
    message: StaleMessage,
    savesCleanTime: bool,    // the last-clean time is written to storage
    closesPopup: bool)       // the popup closes itself shortly after

  /**
   * The selection loop of `cleanOldTabs`: pinned tabs, audible tabs and internal pages are
   * passed over; any other tab with a truthy access time more than seven days old is queued.
   */
  method SelectStaleTabs(allTabs: seq<Tab>, tabAccessTimes: map<int, int>, now: int) returns (tabsToClose: seq<int>)
    ensures tabsToClose == StaleIds(allTabs, tabAccessTimes, now)
  {
    tabsToClose := [];
    ghost var stale: seq<nat> := [];
    for i := 0 to |allTabs|
      invariant stale == StaleIndices(allTabs[..i], tabAccessTimes, now)
      invariant forall k :: 0 <= k < |stale| ==> stale[k] < i
      invariant tabsToClose == IdsAt(allTabs, stale)
    {
      StaleIndicesStep(allTabs, tabAccessTimes, now, i);
      var tab := allTabs[i];
      if tab.pinned {
        continue;
      }
      if tab.audible {
        continue;
      }
      if IsInternal(tab.url) {
        continue;
      }
      if tab.id in tabAccessTimes && tabAccessTimes[tab.id] != 0 {
        var lastAccessTime := tabAccessTimes[tab.id];
        var timeSinceAccess := now - lastAccessTime;
        if timeSinceAccess > SevenDaysMs {
          IdsAtAppend(allTabs, stale, i);
          tabsToClose := tabsToClose + [tab.id];
          stale := stale + [i];
        }
      }
    }
    assert allTabs[..|allTabs|] == allTabs;
  }

  /**
   * `cleanOldTabs`: selects the stale tabs, requests their closing (a refused request is
   * skipped), reports how many were queued and, only when some were, records the clean time.
   */
  method CleanOldTabs(allTabs: seq<Tab>, tabAccessTimes: map<int, int>, now: int, failing: set<int>)
    returns (o: StaleOutcome, removed: seq<int>)
    ensures o.tabsToClose == StaleIds(allTabs, tabAccessTimes, now)
    ensures o.message == if |o.tabsToClose| > 0 then ClosedStale(|o.tabsToClose|) else NoStaleTabs
    ensures o.savesCleanTime == (|o.tabsToClose| > 0) && o.closesPopup == o.savesCleanTime
    ensures removed == Removal.Succeeded(o.tabsToClose, failing)
  {
    var tabsToClose := SelectStaleTabs(allTabs, tabAccessTimes, now);
    if |tabsToClose| > 0 {
      removed := Removal.RemoveEach(tabsToClose, failing);
      o := StaleOutcome(tabsToClose, ClosedStale(|tabsToClose|), true, true);
    } else {
      removed := [];
      o := StaleOutcome(tabsToClose, NoStaleTabs, false, false);
    }
  }

  /** A tab with no truthy access-time entry is never closed as stale, however old it is. */
  lemma NoEntryNeverClosed(tabs: seq<Tab>, times: map<int, int>, now: int, i: nat)
    requires i < |tabs| && !AccessTimes.HasEntry(times, tabs[i].id)
    ensures tabs[i].id !in StaleIds(tabs, times, now)
  {
    StaleIdsWellFormed(tabs, times, now);
  }

  /** Pinned and audible tabs and internal pages are never closed as stale. */
  lemma ExemptNeverClosed(tabs: seq<Tab>, times: map<int, int>, now: int, i: nat)
    requires DistinctIds(tabs) && i < |tabs|
    requires tabs[i].pinned || tabs[i].audible || IsInternal(tabs[i].url)
    ensures tabs[i].id !in StaleIds(tabs, times, now)
  {
    StaleIdsWellFormed(tabs, times, now);
  }

  /** The threshold is strict: a tab last seen exactly seven days ago is kept. */
  lemma ExactlySevenDaysKept(tabs: seq<Tab>, times: map<int, int>, now: int, i: nat)
    requires i < |tabs|
    requires tabs[i].id in times && now - times[tabs[i].id] == SevenDaysMs
    ensures tabs[i].id !in StaleIds(tabs, times, now)
  {
    StaleIdsWellFormed(tabs, times, now);
  }

  /** Staleness only grows with time: a tab stale now is still stale later, with the same table. */
  lemma StaleStaysStale(tabs: seq<Tab>, times: map<int, int>, now: int, later: int)
    requires now <= later
    ensures forall x :: x in StaleIds(tabs, times, now) ==> x in StaleIds(tabs, times, later)
  {
    StaleIdsWellFormed(tabs, times, now);
    StaleIdsWellFormed(tabs, times, later);
    forall x | x in StaleIds(tabs, times, now) ensures x in StaleIds(tabs, times, later) {
      var i :| 0 <= i < |tabs| && tabs[i].id == x && IsStale(tabs[i], times, now);
      assert IsStale(tabs[i], times, later);
    }
  }

  /** A tab last seen eight days ago (id 5, not exempt) is closed; tab 7, with no entry, is not. */
  lemma EightDaysScenario(t5: Tab, t7: Tab, times: map<int, int>, now: int)
    requires t5.id == 5 && t7.id == 7 && !t5.pinned && !t5.audible && !IsInternal(t5.url)
    requires 5 in times && times[5] == now - 8 * 24 * 60 * 60 * 1000 && times[5] != 0
    requires 7 !in times
    ensures StaleIds([t5, t7], times, now) == [5]
  {
    var tabs := [t5, t7];
    assert IsStale(t5, times, now) && !IsStale(t7, times, now);
    assert tabs[..0] == [] && tabs[..2] == tabs;
    StaleIndicesStep(tabs, times, now, 0);
    StaleIndicesStep(tabs, times, now, 1);
    assert IdsAt(tabs, [0]) == [5];
  }
}
