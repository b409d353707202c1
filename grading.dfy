/** Turning the execution service's verdicts into a pass count and the
    per-case `test-result` messages sent to the submitter. The verdicts come
    in the order the test cases were submitted; a verdict is the status id
    of one case, and a missing status is any id other than `Accepted`. */
module Grading {
  import opened Common

  /** One `test-result` message. */
  datatype TestResult = TestResult(playerId: string, passed: bool, score: int)

  /** How many verdicts are `Accepted`. */
  function Passed(verdicts: seq<int>): (n: nat)
    ensures n <= |verdicts|
  {
    if verdicts == [] then 0
    else Passed(verdicts[..|verdicts| - 1]) + (if verdicts[|verdicts| - 1] == Accepted then 1 else 0)
  }

  /** The message for one case: the score recorded before the run, plus the
      points for this case alone if it passed. */
  function CaseReport(playerId: string, baseScore: int, verdict: int): (r: TestResult)
    ensures r.playerId == playerId && (r.passed <==> verdict == Accepted)
    ensures r.score - baseScore == if r.passed then PointsPerCase else 0
  {
    TestResult(playerId, verdict == Accepted,
               if verdict == Accepted then baseScore + PointsPerCase else baseScore)
  }

  /** The messages of one run, one per verdict, in verdict order. */
  function Report(playerId: string, baseScore: int, verdicts: seq<int>): (r: seq<TestResult>)
    ensures |r| == |verdicts|
    ensures forall i :: 0 <= i < |r| ==>
              r[i].playerId == playerId && (r[i].passed <==> verdicts[i] == Accepted)
              && baseScore <= r[i].score <= baseScore + PointsPerCase
  {
    seq(|verdicts|, i requires 0 <= i < |verdicts| => CaseReport(playerId, baseScore, verdicts[i]))
  }

  /** The `forEach` over the verdicts: counts the accepted ones and emits one
      message per case. Each message's score is a projection from the pre-run
      score, never a running total. */
  method ScoreRun(playerId: string, baseScore: int, verdicts: seq<int>)
    returns (passedCount: nat, events: seq<TestResult>)
    ensures passedCount == Passed(verdicts)
    ensures |events| == |verdicts|
    ensures forall i :: 0 <= i < |verdicts| ==>
              && events[i].playerId == playerId
              && events[i].passed == (verdicts[i] == Accepted)
              && events[i].score == (if verdicts[i] == Accepted then baseScore + PointsPerCase else baseScore)
  {
    passedCount, events := 0, [];
    var i := 0;
    while i < |verdicts|
      invariant 0 <= i <= |verdicts|
      invariant passedCount == Passed(verdicts[..i])
      invariant events == Report(playerId, baseScore, verdicts[..i])
    {
      var passed := verdicts[i] == Accepted;
      if passed {
        passedCount := passedCount + 1;
      }
      events := events + [TestResult(playerId, passed, if passed then baseScore + PointsPerCase else baseScore)];
      assert verdicts[..i + 1][..i] == verdicts[..i];
      i := i + 1;
    }
    assert verdicts[..i] == verdicts;
  }

  /** Every case passes exactly when the pass count is the number of verdicts. */
  lemma {:induction false} AllPassedIff(verdicts: seq<int>)
    ensures Passed(verdicts) == |verdicts|
        <==> forall i :: 0 <= i < |verdicts| ==> verdicts[i] == Accepted
  {
    if verdicts != [] {
      var init := verdicts[..|verdicts| - 1];
      AllPassedIff(init);
      assert forall i :: 0 <= i < |init| ==> init[i] == verdicts[i];
    }
  }

  lemma {:induction false} PassedAppend(verdicts: seq<int>, extra: seq<int>)
    ensures Passed(verdicts + extra) == Passed(verdicts) + Passed(extra)
    decreases |extra|
  {
    if extra != [] {
      var init := extra[..|extra| - 1];
      assert (verdicts + extra)[..|verdicts + extra| - 1] == verdicts + init;
      PassedAppend(verdicts, init);
    } else {
      assert verdicts + extra == verdicts;
    }
  }
}
