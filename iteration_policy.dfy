/** The stop condition of the automation loop (coding_agents/core/policies/iterations.py):
    a total, pure decision over the iteration index, the CI outcome and the
    review outcome, evaluated first-match-wins. */
module IterationPolicies {

  /** Why the loop stops or goes round again. */
  datatype StopReason = Success | MaxIterations | ReviewerApprove | ReviewerFail | CiFail | Manual

  datatype IterationPolicy = IterationPolicy(maxIterations: int, requireCiGreen: bool, requireReviewerApprove: bool)
  {
    /** `should_stop`: the pair (stop, reason). The loop stops exactly at the
        cap or when CI and review both passed; the two `require_*` flags only
        choose which reason a continuing loop reports. */
    function ShouldStop(iteration: int, ciPassed: bool, reviewerApproved: bool): (r: (bool, StopReason))
      ensures r.0 <==> iteration >= maxIterations || (ciPassed && reviewerApproved)
      ensures r.1 == MaxIterations <==> iteration >= maxIterations
      ensures r.1 == CiFail <==> iteration < maxIterations && requireCiGreen && !ciPassed
      ensures r.1 == Success <==> iteration < maxIterations && ciPassed && reviewerApproved
      ensures r.1 == ReviewerFail <==>
                iteration < maxIterations && !(requireCiGreen && !ciPassed) && !(ciPassed && reviewerApproved)
      ensures r.1 != ReviewerApprove && r.1 != Manual
    {
      if iteration >= maxIterations then (true, MaxIterations)
      else if requireCiGreen && !ciPassed then (false, CiFail)
      else if requireReviewerApprove && !reviewerApproved then (false, ReviewerFail)
      else if ciPassed && reviewerApproved then (true, Success)
      else (false, ReviewerFail)
    }

    /** `can_retry`: another iteration is allowed below the cap, that is,
        exactly when a loop whose CI and review both failed would not stop. */
    function CanRetry(iteration: int): (r: bool)
      ensures r <==> !ShouldStop(iteration, false, false).0
    {
      iteration < maxIterations
    }
  }

  /** The default cap on iterations. */
  const DefaultMaxIterations: int := 5

  /** `IterationPolicy(max_iterations=n)`: the other fields keep their
      defaults, so CI must be green and review must approve. */
  function DefaultPolicy(maxIterations: int): IterationPolicy {
    IterationPolicy(maxIterations, true, true)
  }

  /** A loop that starts at index 0 and asks `can_retry` before each cycle runs
      at most `max_iterations` cycles: if the cycles 0 .. n-1 were all
      permitted then n is within the cap, and the cycle at the cap is refused. */
  lemma RetriesBounded(p: IterationPolicy, n: nat)
    requires forall i :: 0 <= i < n ==> p.CanRetry(i)
    ensures n > 0 ==> n <= p.maxIterations
    ensures !p.CanRetry(p.maxIterations)
  {
    if n > 0 {
      assert p.CanRetry(n - 1);
    }
  }

  /** The unit tests of the policy. */
  lemma PolicyExamples()
    ensures DefaultPolicy(DefaultMaxIterations).ShouldStop(0, true, true) == (true, Success)
    ensures DefaultPolicy(3).ShouldStop(3, false, false) == (true, MaxIterations)
    ensures DefaultPolicy(DefaultMaxIterations).ShouldStop(1, true, false) == (false, ReviewerFail)
    ensures DefaultPolicy(3).CanRetry(0) && DefaultPolicy(3).CanRetry(2) && !DefaultPolicy(3).CanRetry(3)
  {
  }
}
