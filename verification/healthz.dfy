/** internal/healthz/connection_tester.go: `ChainedTester` over abstract connection testers. */
module Healthz {
  import opened Wrappers
  import opened Models

  /** A ConnectionTester's `TestConnection`, seen as the error it returns (None for nil). */
  type Tester = () -> Option<Error>

  /** The error of the first failing tester in list order, or None when all pass. */
  function FirstFailure(testers: seq<Tester>): (r: Option<Error>)
    ensures r.None? <==> forall i :: 0 <= i < |testers| ==> testers[i]().None?
    ensures r.Some? ==> exists k :: 0 <= k < |testers| && r == testers[k]() && forall i :: 0 <= i < k ==> testers[i]().None?
    decreases |testers|
  {
    if |testers| == 0 then None
    else if testers[0]().Some? then testers[0]()
    else
      var r := FirstFailure(testers[1..]);
      assert forall i :: 1 <= i < |testers| ==> testers[i] == testers[1..][i - 1];
      if r.Some? then
        var k :| 0 <= k < |testers[1..]| && r == testers[1..][k]() && forall i :: 0 <= i < k ==> testers[1..][i]().None?;
        assert r == testers[k + 1]() && forall i :: 0 <= i < k + 1 ==> testers[i]().None?;
        r
      else r
  }

  /** A failure at k after passes before it is the first failure. */
  lemma {:induction false} FirstFailureAt(testers: seq<Tester>, k: int)
    requires 0 <= k < |testers|
    requires testers[k]().Some?
    requires forall i :: 0 <= i < k ==> testers[i]().None?
    ensures FirstFailure(testers) == testers[k]()
    decreases k
  {
    if k > 0 {
      FirstFailureAt(testers[1..], k - 1);
    }
  }

  /**
   * `ChainedTester.TestConnection`: run the testers in list order and stop
   * at the first error. `invoked` counts the testers that were run, always
   * a prefix of the list.
   */
  method TestConnection(testers: seq<Tester>) returns (err: Option<Error>, invoked: nat)
    ensures err == FirstFailure(testers)
    ensures invoked <= |testers|
    ensures err.None? ==> invoked == |testers|
    ensures err.Some? ==> 1 <= invoked && err == testers[invoked - 1]()
    ensures forall i :: 0 <= i < invoked && (err.None? || i < invoked - 1) ==> testers[i]().None?
  {
    invoked := 0;
    while invoked < |testers|
      invariant invoked <= |testers|
      invariant forall i :: 0 <= i < invoked ==> testers[i]().None?
    {
      var e := testers[invoked]();
      invoked := invoked + 1;
      if e.Some? {
        FirstFailureAt(testers, invoked - 1);
        return e, invoked;
      }
    }
    return None, invoked;
  }
}
