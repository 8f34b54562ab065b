/** What sleeping ticks do to the rewards of the user-space bandit. */
module BanditSleep {
  import opened RealSums
  import opened Bandit
  import opened BanditRuns
  import opened BanditRewards

  // ----- One sleeping tick -----

  /** The mass of an arm: its mean reward times its finished pulls, times the normalisation. */
  function ArmMass(s: State, i: nat): real
    requires i < |s.rewards| == |s.nums|
  {
    Mass(s.rewards[i], s.nums[i] - Pending(s, i), s.avg)
  }

  lemma MassMoves(x: real, c: real, a: real)
    requires a != 0.0
    ensures Mass(x, c, a) == Mass(x, c - 1.0, a) <==> x == 0.0
  {
    assert Mass(x, c, a) - Mass(x, c - 1.0, a) == x * a;
  }

  /** A sleeping tick switches to arm 0, so that the pull in progress is never evaluated and the next
      reward goes to arm 0. It keeps an arm's mass if and only if arm 0 was running, or the arm is
      neither arm 0 nor the running one, or its reward is 0. */
  lemma SleepKeepsMassIff(p: Params, s: State, input: Input, i: nat)
    requires Valid(p, s) && input.sleep && !s.fault && i < p.n
    ensures var r := Step(p, s, input);
      && r.arm == 0
      && (ArmMass(r, i) == ArmMass(s, i) <==> s.arm == 0 || (i != 0 && i != s.arm) || s.rewards[i] == 0.0)
  {
    hide Mass, Sum, Counted;
    MassMoves(s.rewards[i], s.nums[i], s.avg);
  }

  // ----- Runs that sleep only while arm 0 runs -----

  /** The waking ticks among the first t. */
  function Waking(ins: seq<Input>, t: nat): (r: seq<Input>)
    requires t <= |ins|
    ensures |r| == Awake(ins, t) && forall j :: 0 <= j < |r| ==> !r[j].sleep
  {
    if t == 0 then []
    else if ins[t - 1].sleep then Waking(ins, t - 1)
    else Waking(ins, t - 1) + [ins[t - 1]]
  }

  ghost predicate SleepsAtArmZero(p: Params, ins: seq<Input>, t: nat)
    requires p.Valid() && t <= |ins|
  {
    forall j :: 0 <= j < t && ins[j].sleep ==> After(p, ins, j).arm == 0
  }

  /** The number of iterations is counted and never used. */
  lemma StepIgnoresIterations(p: Params, s: State, k: nat, input: Input)
    requires Valid(p, s)
    ensures Valid(p, s.(iterations := k))
    ensures var r := Step(p, s, input); Step(p, s.(iterations := k), input) == r.(iterations := k + 1)
  {
    var u := s.(iterations := k);
    ValidWithIterations(p, s, k);
    if !input.sleep && s.mode != RoundRobin {
      hide Valid, Counted, Pull, NextArm, Evaluated, Sum;
      var e, f := Evaluated(p, s, input), Evaluated(p, u, input);
      EvaluationIgnoresIterations(p, s, k, input);
      SameChoice(p, e, f, input);
      PullIgnoresIterations(p, e, k, NextArm(p, e, input));
    }
  }

  lemma ValidWithIterations(p: Params, s: State, k: nat)
    requires Valid(p, s)
    ensures Valid(p, s.(iterations := k))
  {
  }

  lemma EvaluationIgnoresIterations(p: Params, s: State, k: nat, input: Input)
    requires Valid(p, s) && Valid(p, s.(iterations := k)) && s.mode != RoundRobin
    ensures Evaluated(p, s.(iterations := k), input) == Evaluated(p, s, input).(iterations := k)
  {
    hide Sum, Folded, Over, NormaliseFirst;
  }

  lemma PullIgnoresIterations(p: Params, s: State, k: nat, arm: nat)
    requires Shaped(p, s) && arm < p.n
    ensures Pull(p, s.(iterations := k), arm) == Pull(p, s, arm).(iterations := k + 1)
  {
    hide Times;
  }

  lemma SameChoice(p: Params, e: State, f: State, input: Input)
    requires p.Valid() && Counted(p, e) && f == e.(iterations := f.iterations)
    ensures Counted(p, f) && NextArm(p, e, input) == NextArm(p, f, input)
  {
    hide ArgMax, Potential;
    assert Potentials(p, e) == Potentials(p, f);
  }

  lemma {:induction false} AfterPrefix(p: Params, ins: seq<Input>, more: seq<Input>, t: nat)
    requires p.Valid() && t <= |ins|
    ensures After(p, ins + more, t) == After(p, ins, t)
  {
    if t > 0 {
      hide Step;
      AfterPrefix(p, ins, more, t - 1);
    }
  }

  /** If the bandit sleeps only while arm 0 runs, sleeping leaves no trace but in the number of
      iterations. */
  lemma {:induction false} SleepLeavesNoTrace(p: Params, ins: seq<Input>, t: nat)
    requires p.Valid() && t <= |ins| && SleepsAtArmZero(p, ins, t)
    ensures var w := Waking(ins, t);
      After(p, ins, t) == After(p, w, |w|).(iterations := After(p, ins, t).iterations)
  {
    hide After, Step, Valid;
    if t == 0 {
      AfterNone(p, ins);
      AfterNone(p, []);
    } else {
      SleepLeavesNoTrace(p, ins, t - 1);
      AfterNext(p, ins, t);
      var s, input, w := After(p, ins, t - 1), ins[t - 1], Waking(ins, t - 1);
      if input.sleep {
        SleepOnly(p, s, input);
      } else {
        AfterNext(p, w + [input], |w| + 1);
        AfterPrefix(p, w, [input], |w|);
        StepIgnoresIterations(p, After(p, w, |w|), s.iterations, input);
      }
    }
  }

  lemma SleepOnly(p: Params, s: State, input: Input)
    requires Valid(p, s) && input.sleep && s.arm == 0
    ensures Step(p, s, input) == s.(iterations := s.iterations + 1)
  {
  }

  /** After every run that sleeps only while arm 0 runs, and unless the first IPCs add up to zero,
      each arm's reward times its count (times the normalisation, which is 1 unless rewards are
      normalised once) is the discounted sum of all rewards observed for it in waking ticks; the arm
      in progress uses its count without the pending pull. So the incremental update computes the
      discounted mean, and the plain mean when the discount is 1. The only exceptions are arms that
      the normalisation misses: there it holds if and only if the average is 1 or the arm's first
      reward is 0. */
  lemma RewardsAreDiscountedMeans(p: Params, ins: seq<Input>, t: nat, i: nat)
    requires p.Valid() && t <= |ins| && i < p.n && SleepsAtArmZero(p, ins, t) && Awake(ins, t) >= 1
    requires var w := Waking(ins, t); p.once && |w| > p.n ==> Sum(FirstRewards(w, p.n)) != 0.0
    ensures var w, s := Waking(ins, t), After(p, ins, t);
      ArmMass(s, i) == DiscountedSum(Observed(p, w, |w|), i, p.Discount(), |Pulls(p, w, |w|)|)
      <==> (|w| <= p.n || Alike(p, i, FirstAverage(p, w), w[i + 1].reward))
  {
    hide After, Mass, DiscountedSum, Sum, Alike, FirstRewards;
    var w := Waking(ins, t);
    SleepLeavesNoTrace(p, ins, t);
    MeansWithoutSleep(p, w, |w|, i);
  }
}
