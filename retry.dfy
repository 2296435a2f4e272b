/** retry/RetryAnalyzer: the TestNG retry policy. A failed test is run
    again while fewer than two retries have been granted by this analyzer. */
module RetryAnalyzer {
  import opened Common

  const MaxRetryCount: nat := 2

  /** One `retry(result)` call from `count` granted retries: whether the test
      is run again, and the count afterwards. */
  function RetryStep(count: nat, success: bool): (r: (bool, nat))
    ensures r.0 <==> !success && count < MaxRetryCount
    ensures r.1 == if r.0 then count + 1 else count
  {
    if !success && count < MaxRetryCount then (true, count + 1) else (false, count)
  }

  /** The answers to a sequence of calls on one analyzer. */
  function Answers(count: nat, results: seq<bool>): (answers: seq<bool>)
    ensures |answers| == |results|
    decreases |results|
  {
    if results == [] then []
    else
      var step := RetryStep(count, results[0]);
      [step.0] + Answers(step.1, results[1..])
  }

  /** The count after a sequence of calls. */
  function CountAfter(count: nat, results: seq<bool>): nat
    decreases |results|
  {
    if results == [] then count
    else CountAfter(RetryStep(count, results[0]).1, results[1..])
  }

  function Trues(bs: seq<bool>): (n: nat)
    ensures n <= |bs|
    decreases |bs|
  {
    if bs == [] then 0 else (if bs[0] then 1 else 0) + Trues(bs[1..])
  }

  /** Retries are granted to the first failures only: exactly
      min(2 - count, number of failures) calls answer true, and the count
      grows by that many, so it never passes 2. */
  lemma {:induction false} AnswersGrantAtMostTwo(count: nat, results: seq<bool>)
    requires count <= MaxRetryCount
    ensures Trues(Answers(count, results)) == Min(MaxRetryCount - count, |results| - Trues(results))
    ensures CountAfter(count, results) == count + Trues(Answers(count, results)) <= MaxRetryCount
    decreases |results|
  {
    if results != [] {
      var step := RetryStep(count, results[0]);
      AnswersGrantAtMostTwo(step.1, results[1..]);
      assert Answers(count, results)[1..] == Answers(step.1, results[1..]);
    }
  }

  /** Every call on a successful result answers false. */
  lemma {:induction false} SuccessNeverRetried(count: nat, results: seq<bool>, i: nat)
    requires i < |results| && results[i]
    ensures !Answers(count, results)[i]
    decreases |results|
  {
    if i > 0 {
      SuccessNeverRetried(RetryStep(count, results[0]).1, results[1..], i - 1);
    }
  }

  class RetryAnalyzer {
    /** Retries granted so far. */
    var retryCount: nat

    ghost predicate Valid()
      reads this
    {
      retryCount <= MaxRetryCount
    }

    constructor ()
      ensures Valid() && retryCount == 0
    {
      retryCount := 0;
    }

    /** `retry(result)`: true, and one more retry counted, only for a failure
        while fewer than MaxRetryCount retries were granted. */
    method Retry(success: bool) returns (again: bool)
      requires Valid()
      modifies this
      ensures Valid()
      ensures (again, retryCount) == RetryStep(old(retryCount), success)
    {
      if !success && retryCount < MaxRetryCount {
        retryCount := retryCount + 1;
        return true;
      }
      return false;
    }
  }
}
