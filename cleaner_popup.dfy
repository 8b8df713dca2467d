/** The cleaner popup's `cleanTabs`: records the clean time whenever tabs were closed. */
module CleanerPopup {
  import opened Tabs
  import opened Dedup
  import opened DuplicateCleaning

  method CleanTabs(cleanAllWindows: bool, windows: seq<seq<Tab>>, current: seq<Tab>, failing: set<int>)
    returns (o: CleanOutcome)
    ensures o.totalDuplicates == if cleanAllWindows then TotalDuplicates(windows) else |QueuedIds(current)|
    ensures cleanAllWindows ==>
              o.message == if o.totalDuplicates > 0 then CleanedAllWindows(o.totalDuplicates) else NoneInAnyWindow
    ensures !cleanAllWindows ==>
              o.message == Window(if o.totalDuplicates > 0 then CleanedDuplicates(o.totalDuplicates) else NoDuplicates)
    ensures o.totalTabsClosed == o.totalDuplicates
    ensures o.savesCleanTime == (o.totalTabsClosed > 0) && o.closesPopup == (o.totalTabsClosed > 0)
  {
    o := CleanAndReport(cleanAllWindows, windows, current, failing, true);
  }
}
