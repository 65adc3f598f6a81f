/** The control flow of DPSeg.estimateConcentrationParameter: alternate an
    optimizer round (the M-step) with re-segmentation (the E-step) until the
    log-likelihood stops improving, the optimizer gives up, or the pass cap is
    reached. The optimizer itself is a parameter. */
module HardEM {

  /** One optimizer.optimize() call: it either completes, leaving the
      parameter and the log-likelihood it reached, or throws an
      OptimizationException, leaving the parameter wherever the line search
      stopped. */
  datatype Round = Completed(lnAlpha: real, logLikelihood: real) | Threw(lnAlpha: real)

  /** The outcome of the k-th optimizer call (k from 0). The whole loop is
      deterministic, so the k-th call's outcome is a function of k. */
  type Optimizer = nat -> Round

  /** Round k's log-likelihood beats the one tracked before it; the tracked
      value starts at -Double.MAX_VALUE, which every first round beats. */
  predicate Improved(opt: Optimizer, k: nat)
    requires opt(k).Completed?
  {
    k == 0 || (opt(k - 1).Completed? && opt(k).logLikelihood > opt(k - 1).logLikelihood)
  }

  /** Round k lets the loop go on (if the pass cap allows). */
  predicate Continues(opt: Optimizer, k: nat) {
    opt(k).Completed? && Improved(opt, k)
  }

  /** The reference count of optimizer calls with at most cap passes: stop
      after the first round that throws or does not improve, or after pass cap. */
  function RoundsRun(opt: Optimizer, cap: nat, k: nat): nat
    requires k < cap
    decreases cap - k
  {
    if k + 1 == cap || !Continues(opt, k) then k + 1 else RoundsRun(opt, cap, k + 1)
  }

  /** RoundsRun stops at the first non-continuing round, never later than the cap. */
  lemma {:induction false} RoundsRunBounds(opt: Optimizer, cap: nat, k: nat)
    requires k < cap
    ensures k < RoundsRun(opt, cap, k) <= cap
    ensures forall j :: k <= j < RoundsRun(opt, cap, k) - 1 ==> Continues(opt, j)
    ensures RoundsRun(opt, cap, k) < cap ==> !Continues(opt, RoundsRun(opt, cap, k) - 1)
    decreases cap - k
  {
    if k + 1 < cap && Continues(opt, k) {
      RoundsRunBounds(opt, cap, k + 1);
    }
  }

  /** estimateConcentrationParameter as written: `iteration` is incremented in
      the body and again by `iteration++ < 20` in the loop condition, so the
      cap of 20 counts two per pass. Returns the final ln α and the number of
      optimizer calls. */
  method EstimateAsWritten(opt: Optimizer) returns (lnAlpha: real, rounds: nat)
    ensures rounds == RoundsRun(opt, 11, 0)
    ensures 1 <= rounds <= 11
    ensures lnAlpha == opt(rounds - 1).lnAlpha
    ensures forall j :: 0 <= j < rounds - 1 ==> Continues(opt, j)
  {
    var iteration := 0;
    rounds := 0;
    while true
      invariant iteration == 2 * rounds && iteration <= 20
      invariant rounds < 11 && RoundsRun(opt, 11, 0) == RoundsRun(opt, 11, rounds)
      decreases 20 - iteration
    {
      var round := opt(rounds);
      rounds := rounds + 1;
      lnAlpha := round.lnAlpha;
      if round.Threw? {
        break;
      }
      var improved := Improved(opt, rounds - 1);
      iteration := iteration + 1;
      if !improved {
        break;
      }
      var belowCap := iteration < 20;
      iteration := iteration + 1;
      if !belowCap {
        break;
      }
    }
    RoundsRunBounds(opt, 11, 0);
  }

  /** The loop with the evident intent: one increment per pass, at most 20
      passes. */
  method Estimate(opt: Optimizer) returns (lnAlpha: real, rounds: nat)
    ensures rounds == RoundsRun(opt, 20, 0)
    ensures 1 <= rounds <= 20
    ensures lnAlpha == opt(rounds - 1).lnAlpha
    ensures forall j :: 0 <= j < rounds - 1 ==> Continues(opt, j)
  {
    var iteration := 0;
    rounds := 0;
    while true
      invariant iteration == rounds && iteration < 20
      invariant RoundsRun(opt, 20, 0) == RoundsRun(opt, 20, rounds)
      decreases 20 - iteration
    {
      var round := opt(rounds);
      rounds := rounds + 1;
      lnAlpha := round.lnAlpha;
      if round.Threw? {
        break;
      }
      var improved := Improved(opt, rounds - 1);
      if !improved {
        break;
      }
      var belowCap := iteration + 1 < 20;
      iteration := iteration + 1;
      if !belowCap {
        break;
      }
      assert Continues(opt, rounds - 1);
    }
    RoundsRunBounds(opt, 20, 0);
  }

  /** Across the rounds that let the loop go on, the tracked log-likelihood
      strictly increases. */
  lemma AcceptedRoundsImprove(opt: Optimizer, cap: nat, i: nat, j: nat)
    requires 0 < cap
    requires i < j < RoundsRun(opt, cap, 0) - 1
    ensures opt(i).Completed? && opt(j).Completed?
    ensures opt(i).logLikelihood < opt(j).logLikelihood
    decreases j - i
  {
    RoundsRunBounds(opt, cap, 0);
    if i + 1 < j {
      AcceptedRoundsImprove(opt, cap, i + 1, j);
    }
    assert Continues(opt, i + 1);
  }

  /** An optimizer that always completes with a better log-likelihood. */
  function AlwaysImproving(): Optimizer {
    (k: nat) => Completed(0.0, k as real)
  }

  lemma {:induction false} AlwaysImprovingRunsToCap(cap: nat, k: nat)
    requires k < cap
    ensures RoundsRun(AlwaysImproving(), cap, k) == cap
    decreases cap - k
  {
    if k + 1 < cap {
      assert Continues(AlwaysImproving(), k);
      AlwaysImprovingRunsToCap(cap, k + 1);
    }
  }

  /** The double increment halves the pass cap: an optimizer that keeps
      improving gets 11 rounds as written, 20 as intended. */
  lemma DoubleIncrementStopsAtEleven()
    ensures RoundsRun(AlwaysImproving(), 11, 0) == 11
    ensures RoundsRun(AlwaysImproving(), 20, 0) == 20
  {
    AlwaysImprovingRunsToCap(11, 0);
    AlwaysImprovingRunsToCap(20, 0);
  }
}
