/**
 * Cleaning the same window twice. After the closing loop the browser enumerates the tabs
 * that were not closed, in the same order; a second `cleanWindowTabs` over that window queues
 * again exactly the duplicates whose closing the browser refused, and nothing when every
 * closing succeeded.
 */
module Rerun {
  import opened Tabs
  import opened Dedup
  import Removal
  import DedupProperties

  /** The positions of the tabs that stay open once the ids in `closed` are gone, in window order. */
  function KeptIndices(tabs: seq<Tab>, closed: seq<int>): (r: seq<nat>)
    ensures forall k :: 0 <= k < |r| ==> r[k] < |tabs|
    ensures forall k, l :: 0 <= k < l < |r| ==> r[k] < r[l]
    ensures forall i :: 0 <= i < |tabs| ==> (i in r <==> tabs[i].id !in closed)
    decreases |tabs|
  {
    if tabs == [] then []
    else
      var n := |tabs| - 1;
      var rest := KeptIndices(tabs[..n], closed);
      assert forall i :: 0 <= i < n ==> tabs[..n][i] == tabs[i];
      if tabs[n].id in closed then rest else rest + [n]
  }

  /** The window the browser enumerates after the ids in `closed` were closed. */
  function Remaining(tabs: seq<Tab>, closed: seq<int>): (r: seq<Tab>)
    ensures |r| == |KeptIndices(tabs, closed)|
    ensures forall k :: 0 <= k < |r| ==> r[k] == tabs[KeptIndices(tabs, closed)[k]]
  {
    var idx := KeptIndices(tabs, closed);
    seq(|idx|, k requires 0 <= k < |idx| => tabs[idx[k]])
  }

  /** Exactly the tabs whose id was not closed remain, and the browser still never repeats an id. */
  lemma RemainingTabs(tabs: seq<Tab>, closed: seq<int>)
    requires DistinctIds(tabs)
    ensures forall t :: t in Remaining(tabs, closed) <==> t in tabs && t.id !in closed
    ensures DistinctIds(Remaining(tabs, closed))
  {
    var idx, r := KeptIndices(tabs, closed), Remaining(tabs, closed);
    forall t | t in tabs && t.id !in closed
      ensures t in r
    {
      var i :| 0 <= i < |tabs| && tabs[i] == t;
      var k :| 0 <= k < |idx| && idx[k] == i;
      assert r[k] == t;
    }
  }

  /** A later position in the remaining window is a later position in the original one. */
  lemma KeptOrder(tabs: seq<Tab>, closed: seq<int>, a: nat, b: nat)
    requires a < |KeptIndices(tabs, closed)| && b < |KeptIndices(tabs, closed)|
    requires KeptIndices(tabs, closed)[a] < KeptIndices(tabs, closed)[b]
    ensures a < b
  {
  }

  /** Every grouped tab has a first grouped tab with its key at or before it, which is not a duplicate. */
  lemma {:induction false} FirstWithKey(scan: Scan, tabs: seq<Tab>, q: nat) returns (p: nat)
    requires q < |tabs| && Grouped(scan, tabs[q])
    ensures p <= q && Grouped(scan, tabs[p]) && Key(tabs[p]) == Key(tabs[q])
    ensures !IsLaterDuplicate(scan, tabs, p)
    decreases q
  {
    if IsLaterDuplicate(scan, tabs, q) {
      var j :| 0 <= j < q && Grouped(scan, tabs[j]) && Key(tabs[j]) == Key(tabs[q]);
      p := FirstWithKey(scan, tabs, j);
    } else {
      p := q;
    }
  }

  /** An id is queued exactly when some tab with that id is a later duplicate. */
  lemma QueuedMeansLaterDuplicate(tabs: seq<Tab>, x: int)
    requires DistinctIds(tabs)
    ensures x in QueuedIds(tabs) <==> exists i :: 0 <= i < |tabs| && tabs[i].id == x && IsLaterDuplicate(SkipExempt, tabs, i)
  {
    var d, ids := DuplicateIndices(SkipExempt, tabs), QueuedIds(tabs);
    if x in ids {
      var m :| 0 <= m < |ids| && ids[m] == x;
      assert tabs[d[m]].id == x && d[m] in d;
    }
    if exists i :: 0 <= i < |tabs| && tabs[i].id == x && IsLaterDuplicate(SkipExempt, tabs, i) {
      var i :| 0 <= i < |tabs| && tabs[i].id == x && IsLaterDuplicate(SkipExempt, tabs, i);
      DedupProperties.QueuedIdIff(tabs, i);
    }
  }

  /** A duplicate the second run finds was queued by the first run and its closing was refused. */
  lemma RequeuedWasRefused(tabs: seq<Tab>, failing: set<int>, k: nat)
    requires DistinctIds(tabs)
    requires k < |Remaining(tabs, Removal.Succeeded(QueuedIds(tabs), failing))|
    requires IsLaterDuplicate(SkipExempt, Remaining(tabs, Removal.Succeeded(QueuedIds(tabs), failing)), k)
    ensures Remaining(tabs, Removal.Succeeded(QueuedIds(tabs), failing))[k].id in QueuedIds(tabs)
    ensures Remaining(tabs, Removal.Succeeded(QueuedIds(tabs), failing))[k].id in failing
  {
    var closed := Removal.Succeeded(QueuedIds(tabs), failing);
    var idx, rest := KeptIndices(tabs, closed), Remaining(tabs, closed);
    var j :| 0 <= j < k && Grouped(SkipExempt, rest[j]) && Key(rest[j]) == Key(rest[k]);
    var p, q := idx[j], idx[k];
    assert tabs[p] == rest[j] && tabs[q] == rest[k];
    assert IsLaterDuplicate(SkipExempt, tabs, q);
    DedupProperties.QueuedIdIff(tabs, q);
    assert tabs[q].id !in closed;
  }

  /** A refused duplicate is found again: the first tab with its key is never closed and still precedes it. */
  lemma RefusedIsRequeued(tabs: seq<Tab>, failing: set<int>, q: nat)
    requires DistinctIds(tabs) && q < |tabs|
    requires IsLaterDuplicate(SkipExempt, tabs, q) && tabs[q].id in failing
    ensures tabs[q].id in QueuedIds(Remaining(tabs, Removal.Succeeded(QueuedIds(tabs), failing)))
  {
    var closed := Removal.Succeeded(QueuedIds(tabs), failing);
    var idx, rest := KeptIndices(tabs, closed), Remaining(tabs, closed);
    var p := FirstWithKey(SkipExempt, tabs, q);
    DedupProperties.QueuedIdIff(tabs, p);
    assert p in idx;
    var kp :| 0 <= kp < |idx| && idx[kp] == p;
    assert q in idx;
    var kq :| 0 <= kq < |idx| && idx[kq] == q;
    KeptOrder(tabs, closed, kp, kq);
    assert rest[kp] == tabs[p] && rest[kq] == tabs[q];
    assert IsLaterDuplicate(SkipExempt, rest, kq);
    RemainingTabs(tabs, closed);
    DedupProperties.QueuedIdIff(rest, kq);
  }

  /**
   * A second clean of the window left by the first queues exactly the ids the first run
   * queued and the browser refused to close.
   */
  lemma SecondRunQueuesRefused(tabs: seq<Tab>, failing: set<int>, x: int)
    requires DistinctIds(tabs)
    ensures x in QueuedIds(Remaining(tabs, Removal.Succeeded(QueuedIds(tabs), failing))) <==>
              x in QueuedIds(tabs) && x in failing
  {
    var closed := Removal.Succeeded(QueuedIds(tabs), failing);
    var rest := Remaining(tabs, closed);
    RemainingTabs(tabs, closed);
    QueuedMeansLaterDuplicate(rest, x);
    QueuedMeansLaterDuplicate(tabs, x);
    if x in QueuedIds(rest) {
      var k :| 0 <= k < |rest| && rest[k].id == x && IsLaterDuplicate(SkipExempt, rest, k);
      RequeuedWasRefused(tabs, failing, k);
    }
    if x in QueuedIds(tabs) && x in failing {
      var q :| 0 <= q < |tabs| && tabs[q].id == x && IsLaterDuplicate(SkipExempt, tabs, q);
      RefusedIsRequeued(tabs, failing, q);
    }
  }

  /** When every closing succeeds, cleaning is idempotent: a second clean queues nothing. */
  lemma SecondRunFindsNothing(tabs: seq<Tab>)
    requires DistinctIds(tabs)
    ensures QueuedIds(Remaining(tabs, Removal.Succeeded(QueuedIds(tabs), {}))) == []
  {
    var again := QueuedIds(Remaining(tabs, Removal.Succeeded(QueuedIds(tabs), {})));
    if again != [] {
      SecondRunQueuesRefused(tabs, {}, again[0]);
      assert false;
    }
  }
}
