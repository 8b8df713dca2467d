/**
 * `cleanTabs`, the handler behind the two duplicate-cleaning buttons. Both popup variants
 * clean either the current window or every window in turn and add the per-window results
 * up; the cleaner popup also records the clean time when it closed something, the release
 * popup does not.
 */
module DuplicateCleaning {
  import opened Tabs
  import opened Dedup

  /** The line shown after a duplicate clean: the current window's own message, or the all-windows one. */
  datatype Message = Window(result: WindowMessage) | CleanedAllWindows(count: nat) | NoneInAnyWindow

  datatype CleanOutcome = CleanOutcome(
    totalDuplicates: nat,
    totalTabsClosed: nat,
    message: Message,
    savesCleanTime: bool,    // the last-clean time is written to storage
    closesPopup: bool)       // the popup closes itself shortly after

  /** The sum over the windows of the duplicates each one holds. */
  function TotalDuplicates(windows: seq<seq<Tab>>): nat
    decreases |windows|
  {
    if windows == [] then 0
    else TotalDuplicates(windows[..|windows| - 1]) + |QueuedIds(windows[|windows| - 1])|
  }

  /** The all-windows total is zero exactly when no window holds a duplicate. */
  lemma {:induction false} NoneFoundIffEveryWindowClean(windows: seq<seq<Tab>>)
    ensures TotalDuplicates(windows) == 0 <==> forall k :: 0 <= k < |windows| ==> QueuedIds(windows[k]) == []
    decreases |windows|
  {
    if windows != [] {
      var n := |windows| - 1;
      NoneFoundIffEveryWindowClean(windows[..n]);
      assert forall k :: 0 <= k < n ==> windows[..n][k] == windows[k];
    }
  }

  /** The loop over all windows: each window is cleaned on its own and the counts are summed. */
  method CleanEveryWindow(windows: seq<seq<Tab>>, failing: set<int>) returns (totalDuplicates: nat, totalTabsClosed: nat)
    ensures totalDuplicates == TotalDuplicates(windows)
    ensures totalTabsClosed == totalDuplicates
  {
    totalDuplicates, totalTabsClosed := 0, 0;
    for i := 0 to |windows|
      invariant totalDuplicates == TotalDuplicates(windows[..i])
      invariant totalTabsClosed == totalDuplicates
    {
      assert windows[..i + 1][..i] == windows[..i];
      var result, _ := CleanWindowTabs(windows[i], failing);
      totalDuplicates := totalDuplicates + result.duplicatesFound;
      totalTabsClosed := totalTabsClosed + result.tabsClosed;
    }
    assert windows[..|windows|] == windows;
  }

  /**
   * The part both variants share: the totals and the message, for the current window or for
   * all of them. `savesCleanTime` decides whether the clean time is recorded when tabs were closed.
   */
  method CleanAndReport(cleanAllWindows: bool, windows: seq<seq<Tab>>, current: seq<Tab>, failing: set<int>, savesCleanTime: bool)
    returns (o: CleanOutcome)
    ensures cleanAllWindows ==> o.totalDuplicates == TotalDuplicates(windows)
    ensures cleanAllWindows ==>
              o.message == if o.totalDuplicates > 0 then CleanedAllWindows(o.totalDuplicates) else NoneInAnyWindow
    ensures !cleanAllWindows ==> o.totalDuplicates == |QueuedIds(current)|
    ensures !cleanAllWindows ==>
              o.message == Window(if o.totalDuplicates > 0 then CleanedDuplicates(o.totalDuplicates) else NoDuplicates)
    ensures o.totalTabsClosed == o.totalDuplicates
    ensures o.savesCleanTime == (savesCleanTime && o.totalTabsClosed > 0)
    ensures o.closesPopup == (o.totalTabsClosed > 0)
  {
    var totalDuplicates, totalTabsClosed: nat;
    var message: Message;
    if cleanAllWindows {
      totalDuplicates, totalTabsClosed := CleanEveryWindow(windows, failing);
      message := if totalDuplicates > 0 then CleanedAllWindows(totalDuplicates) else NoneInAnyWindow;
    } else {
      var result, _ := CleanWindowTabs(current, failing);
      message := Window(result.message);
      totalDuplicates := result.duplicatesFound;
      totalTabsClosed := result.tabsClosed;
    }
    var closed := totalTabsClosed > 0;
    o := CleanOutcome(totalDuplicates, totalTabsClosed, message, savesCleanTime && closed, closed);
  }
}
