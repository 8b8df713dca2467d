/** The release popup's `cleanTabs`: the same totals and messages, no clean time recorded. */
module ReleasePopup {
  import opened Tabs
  import opened Dedup
  import opened DuplicateCleaning

  method CleanTabs(cleanAllWindows: bool, windows: seq<seq<Tab>>, current: seq<Tab>, failing: set<int>)
    returns (o: CleanOutcome)
    ensures o.totalDuplicates == if cleanAllWindows then TotalDuplicates(windows) else |QueuedIds(current)|
    ensures cleanAllWindows ==>
              o.message == if o.totalDuplicates > 0 then CleanedAllWindows(o.totalDuplicates) else NoneInAnyWindow
    ensures !cleanAllWindows ==>
              o.message == Window(if o.totalDuplicates > 0 then CleanedDuplicates(o.totalDuplicates) else NoDuplicates)
    ensures cleanAllWindows ==> (o.message == NoneInAnyWindow <==> forall k :: 0 <= k < |windows| ==> QueuedIds(windows[k]) == [])
    ensures o.totalTabsClosed == o.totalDuplicates
    ensures !o.savesCleanTime && o.closesPopup == (o.totalTabsClosed > 0)
  {
    o := CleanAndReport(cleanAllWindows, windows, current, failing, false);
    NoneFoundIffEveryWindowClean(windows);
  }
}
