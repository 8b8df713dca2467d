/**
 * The closing loop shared by duplicate cleaning and stale-tab cleaning: each queued tab is
 * asked to close, one after another; a refusal by the browser is logged and the loop goes on.
 */
module Removal {

  /** The queued ids the browser actually closes, in request order: those it does not refuse. */
  function Succeeded(queued: seq<int>, failing: set<int>): (r: seq<int>)
    ensures |r| <= |queued|
    ensures forall x :: x in r <==> x in queued && x !in failing
    decreases |queued|
  {
    if queued == [] then []
    else
      var n := |queued| - 1;
      Succeeded(queued[..n], failing) + (if queued[n] in failing then [] else [queued[n]])
  }

  /**
   * Requests the closing of every queued tab in order. `failing` stands for the tabs whose
   * removal the browser refuses; a refusal does not stop the remaining requests.
   */
  method RemoveEach(queued: seq<int>, failing: set<int>) returns (removed: seq<int>)
    ensures removed == Succeeded(queued, failing)
  {
    removed := [];
    for i := 0 to |queued|
      invariant removed == Succeeded(queued[..i], failing)
    {
      assert queued[..i + 1][..i] == queued[..i];
      var tabId := queued[i];
      if tabId !in failing {
        removed := removed + [tabId];
      }
    }
    assert queued[..|queued|] == queued;
  }
}
