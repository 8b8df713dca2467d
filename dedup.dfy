/**
 * Duplicate detection within one window. Both popup variants carry the same text for it:
 * `cleanWindowTabs` walks the window's tabs in order, keeps the first tab seen with each
 * grouping key and queues every later one for closing; `updateTabStats` runs the same
 * grouping over the current window to count duplicates, without skipping any tab.
 */
module Dedup {
  import opened Wrappers
  import opened Tabs
  import Removal

  /** Which tabs the walk passes over: cleaning skips audible and internal tabs, the statistics line skips none. */
  datatype Scan = SkipExempt | ScanAll

  /** The result object of `cleanWindowTabs` on its success path. */
  datatype WindowMessage = CleanedDuplicates(count: nat) | NoDuplicates

  datatype WindowResult = WindowResult(
    duplicatesFound: nat,
    tabsClosed: nat,
    tabsToClose: seq<int>,   // the ids queued for closing, in window order
    message: WindowMessage)

  predicate Skipped(scan: Scan, t: Tab) {
    scan == SkipExempt && (t.audible || IsInternal(t.url))
  }

  /** The tab takes part in grouping: it is not skipped and its URL parses. */
  predicate Grouped(scan: Scan, t: Tab) {
    !Skipped(scan, t) && Normalize(t.url).Some?
  }

  function Key(t: Tab): string
    requires Normalize(t.url).Some?
  {
    Normalize(t.url).value
  }

  /** Tab `i` is grouped and some earlier grouped tab has the same key: it is a duplicate to close. */
  predicate IsLaterDuplicate(scan: Scan, tabs: seq<Tab>, i: int)
    requires 0 <= i < |tabs|
  {
    Grouped(scan, tabs[i]) &&
    exists j :: 0 <= j < i && Grouped(scan, tabs[j]) && Key(tabs[j]) == Key(tabs[i])
  }

  /** The keys recorded as seen after walking `tabs`. */
  function SeenKeys(scan: Scan, tabs: seq<Tab>): set<string> {
    set j | 0 <= j < |tabs| && Grouped(scan, tabs[j]) :: Key(tabs[j])
  }

  /** The number of tabs that take part in grouping. */
  function GroupedCount(scan: Scan, tabs: seq<Tab>): nat
    decreases |tabs|
  {
    if tabs == [] then 0
    else GroupedCount(scan, tabs[..|tabs| - 1]) + (if Grouped(scan, tabs[|tabs| - 1]) then 1 else 0)
  }

  lemma LaterDuplicateOfPrefix(scan: Scan, tabs: seq<Tab>, n: nat, i: nat)
    requires i < n <= |tabs|
    ensures IsLaterDuplicate(scan, tabs[..n], i) == IsLaterDuplicate(scan, tabs, i)
  {
    var p := tabs[..n];
    if IsLaterDuplicate(scan, tabs, i) {
      var j :| 0 <= j < i && Grouped(scan, tabs[j]) && Key(tabs[j]) == Key(tabs[i]);
      assert p[j] == tabs[j];
    }
    if IsLaterDuplicate(scan, p, i) {
      var j :| 0 <= j < i && Grouped(scan, p[j]) && Key(p[j]) == Key(p[i]);
      assert p[j] == tabs[j];
    }
  }

  /**
   * The indices of the tabs queued for closing, in window order: exactly the grouped tabs
   * that have an earlier grouped tab with the same key. The first tab with a key is never
   * among them, a skipped or unparseable tab never is.
   */
  function DuplicateIndices(scan: Scan, tabs: seq<Tab>): (r: seq<nat>)
    ensures forall k :: 0 <= k < |r| ==> r[k] < |tabs|
    ensures forall k, l :: 0 <= k < l < |r| ==> r[k] < r[l]
    ensures forall i :: 0 <= i < |tabs| ==> (i in r <==> IsLaterDuplicate(scan, tabs, i))
    decreases |tabs|
  {
    if tabs == [] then []
    else
      var n := |tabs| - 1;
      var rest := DuplicateIndices(scan, tabs[..n]);
      assert forall i :: 0 <= i < n ==> IsLaterDuplicate(scan, tabs[..n], i) == IsLaterDuplicate(scan, tabs, i) by {
        forall i | 0 <= i < n {
          LaterDuplicateOfPrefix(scan, tabs, n, i);
        }
      }
      if IsLaterDuplicate(scan, tabs, n) then rest + [n] else rest
  }

  /** The ids `cleanWindowTabs` queues for closing. */
  function QueuedIds(tabs: seq<Tab>): seq<int> {
    IdsAt(tabs, DuplicateIndices(SkipExempt, tabs))
  }

  /** One step of the walk: a grouped tab adds its key to the seen keys, any other tab adds nothing. */
  lemma SeenKeysStep(scan: Scan, tabs: seq<Tab>, i: nat)
    requires i < |tabs|
    ensures SeenKeys(scan, tabs[..i + 1]) ==
      SeenKeys(scan, tabs[..i]) + (if Grouped(scan, tabs[i]) then {Key(tabs[i])} else {})
  {
    var p, q := tabs[..i], tabs[..i + 1];
    assert forall j :: 0 <= j < i ==> q[j] == p[j];
    assert q[i] == tabs[i];
    forall k | k in SeenKeys(scan, q)
      ensures k in SeenKeys(scan, p) + (if Grouped(scan, tabs[i]) then {Key(tabs[i])} else {})
    {
      var j :| 0 <= j < |q| && Grouped(scan, q[j]) && Key(q[j]) == k;
      if j < i {
        assert Key(p[j]) == k;
      }
    }
    forall k | k in SeenKeys(scan, p)
      ensures k in SeenKeys(scan, q)
    {
      var j :| 0 <= j < |p| && Grouped(scan, p[j]) && Key(p[j]) == k;
      assert Key(q[j]) == k;
    }
  }

  /** A grouped tab is a later duplicate exactly when its key was already seen. */
  lemma LaterDuplicateIffSeen(scan: Scan, tabs: seq<Tab>, i: nat)
    requires i < |tabs|
    ensures IsLaterDuplicate(scan, tabs, i) <==>
      Grouped(scan, tabs[i]) && Key(tabs[i]) in SeenKeys(scan, tabs[..i])
  {
    var p := tabs[..i];
    if Grouped(scan, tabs[i]) && Key(tabs[i]) in SeenKeys(scan, p) {
      var j :| 0 <= j < |p| && Grouped(scan, p[j]) && Key(p[j]) == Key(tabs[i]);
      assert p[j] == tabs[j];
    }
    if IsLaterDuplicate(scan, tabs, i) {
      var j :| 0 <= j < i && Grouped(scan, tabs[j]) && Key(tabs[j]) == Key(tabs[i]);
      assert p[j] == tabs[j];
    }
  }

  lemma DuplicateIndicesStep(scan: Scan, tabs: seq<Tab>, i: nat)
    requires i < |tabs|
    ensures DuplicateIndices(scan, tabs[..i + 1]) ==
      DuplicateIndices(scan, tabs[..i]) + (if IsLaterDuplicate(scan, tabs, i) then [i] else [])
  {
    assert tabs[..i + 1][..i] == tabs[..i];
    LaterDuplicateOfPrefix(scan, tabs, i + 1, i);
  }

  /**
   * `cleanWindowTabs`: walks the window's tabs, queues the later duplicates, requests their
   * closing, and reports how many duplicates it found and how many tabs it closed. The count
   * of closed tabs is the number queued, whatever the browser does with each request.
   */
  method CleanWindowTabs(tabs: seq<Tab>, failing: set<int>) returns (r: WindowResult, removed: seq<int>)
    ensures r.tabsToClose == QueuedIds(tabs)
    ensures r.duplicatesFound == |r.tabsToClose| && r.tabsClosed == |r.tabsToClose|
    ensures r.message == if r.duplicatesFound > 0 then CleanedDuplicates(r.duplicatesFound) else NoDuplicates
    ensures removed == Removal.Succeeded(r.tabsToClose, failing)
  {
    var seenUrls: map<string, int> := map[];
    var tabsToClose: seq<int> := [];
    var duplicateCount: nat := 0;
    ghost var dups: seq<nat> := [];
    for i := 0 to |tabs|
      invariant seenUrls.Keys == SeenKeys(SkipExempt, tabs[..i])
      invariant dups == DuplicateIndices(SkipExempt, tabs[..i])
      invariant forall k :: 0 <= k < |dups| ==> dups[k] < i
      invariant tabsToClose == IdsAt(tabs, dups)
      invariant duplicateCount == |tabsToClose|
    {
      SeenKeysStep(SkipExempt, tabs, i);
      LaterDuplicateIffSeen(SkipExempt, tabs, i);
      DuplicateIndicesStep(SkipExempt, tabs, i);
      var tab := tabs[i];
      if tab.audible {
        continue;
      }
      if IsInternal(tab.url) {
        continue;
      }
      match Normalize(tab.url)
      case None =>
        // the URL does not parse: the tab is passed over
      case Some(cleanUrl) =>
        if cleanUrl in seenUrls {
          IdsAtAppend(tabs, dups, i);
          tabsToClose := tabsToClose + [tab.id];
          duplicateCount := duplicateCount + 1;
          dups := dups + [i];
        } else {
          seenUrls := seenUrls[cleanUrl := tab.id];
        }
    }
    assert tabs[..|tabs|] == tabs;
    removed := Removal.RemoveEach(tabsToClose, failing);
    var message := if duplicateCount > 0 then CleanedDuplicates(duplicateCount) else NoDuplicates;
    r := WindowResult(duplicateCount, |tabsToClose|, tabsToClose, message);
  }

  /**
   * The duplicate-counting loop of `updateTabStats`: the window's tab count and the number
   * of tabs whose key was already seen, every tab with a parseable URL taking part.
   */
  method CountDuplicates(tabs: seq<Tab>) returns (tabCount: nat, duplicates: nat)
    ensures tabCount == |tabs|
    ensures duplicates == |DuplicateIndices(ScanAll, tabs)|
  {
    var seenUrls: set<string> := {};
    duplicates := 0;
    ghost var dups: seq<nat> := [];
    for i := 0 to |tabs|
      invariant seenUrls == SeenKeys(ScanAll, tabs[..i])
      invariant dups == DuplicateIndices(ScanAll, tabs[..i])
      invariant duplicates == |dups|
    {
      SeenKeysStep(ScanAll, tabs, i);
      LaterDuplicateIffSeen(ScanAll, tabs, i);
      DuplicateIndicesStep(ScanAll, tabs, i);
      match Normalize(tabs[i].url)
      case None =>
      case Some(cleanUrl) =>
        if cleanUrl in seenUrls {
          duplicates := duplicates + 1;
          dups := dups + [i];
        } else {
          seenUrls := seenUrls + {cleanUrl};
        }
    }
    assert tabs[..|tabs|] == tabs;
    tabCount := |tabs|;
  }
}
