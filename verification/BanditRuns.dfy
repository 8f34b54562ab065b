/** Whole runs of the user-space bandit: which arms are pulled, and the counts in closed form. */
module BanditRuns {
  import opened RealSums
  import opened Bandit

  /** State after the first t ticks. */
  function After(p: Params, ins: seq<Input>, t: nat): (r: State)
    requires p.Valid() && t <= |ins|
    ensures Valid(p, r)
  {
    if t == 0 then
      InitialIsValid(p);
      Initial(p)
    else
      StepKeepsValid(p, After(p, ins, t - 1), ins[t - 1]);
      Step(p, After(p, ins, t - 1), ins[t - 1])
  }

  /** Ticks among the first t in which the filter did not ask for sleep. */
  function Awake(ins: seq<Input>, t: nat): nat
    requires t <= |ins|
  {
    if t == 0 then 0 else Awake(ins, t - 1) + if ins[t - 1].sleep then 0 else 1
  }

  // ----- Round robin -----

  /** Whatever ticks are slept through, the k-th waking tick of round robin pulls arm k - 1; after
      n of them every arm has been pulled exactly once and the main loop follows. */
  lemma {:induction false} RoundRobinPullsEachArmOnce(p: Params, ins: seq<Input>, t: nat)
    requires p.Valid() && t <= |ins|
    ensures var a, s := Awake(ins, t), After(p, ins, t);
      && (a < p.n ==> s.mode == RoundRobin && s.rr == a)
      && (a == p.n ==> s.mode == Transition)
      && (a > p.n ==> s.mode == MainLoop)
      && (forall i :: 0 <= i < p.n && a <= p.n ==> s.nums[i] == if i < a then 1.0 else 0.0)
      && (t > 0 && !ins[t - 1].sleep && a <= p.n ==> s.arm == a - 1)
  {
    if t > 0 {
      RoundRobinPullsEachArmOnce(p, ins, t - 1);
      var s, input := After(p, ins, t - 1), ins[t - 1];
      if !input.sleep && s.mode != RoundRobin {
        hide Pull;
        var e := Evaluated(p, s, input);
        PullKeepsRest(p, e, NextArm(p, e, input));
      }
    }
  }

  // ----- Closed form of the counts -----

  function Pow(g: real, k: nat): real {
    if k == 0 then 1.0 else Times(Pow(g, k - 1), g)
  }

  function Geometric(g: real, k: nat): real {
    if k == 0 then 0.0 else Geometric(g, k - 1) + Pow(g, k - 1)
  }

  /** The sum of g^(k-1-j) over the positions j at which arm i was pulled. */
  function PullWeight(pulls: seq<nat>, i: nat, g: real): real {
    if pulls == [] then 0.0
    else (if pulls[0] == i then Pow(g, |pulls| - 1) else 0.0) + PullWeight(pulls[1..], i, g)
  }

  lemma {:induction false} PullWeightAppend(pulls: seq<nat>, a: nat, i: nat, g: real)
    ensures PullWeight(pulls + [a], i, g) == Times(PullWeight(pulls, i, g), g) + if a == i then 1.0 else 0.0
  {
    hide Times;
    TimesLaws(0.0, 0.0, g);
    if pulls == [] {
      assert pulls + [a] == [a];
      assert [a][1..] == [];
      assert PullWeight([a], i, g) == (if a == i then Pow(g, 0) else 0.0) + PullWeight([], i, g);
    } else {
      assert (pulls + [a])[1..] == pulls[1..] + [a];
      PullWeightAppend(pulls[1..], a, i, g);
      TimesLaws(if pulls[0] == i then Pow(g, |pulls| - 1) else 0.0, PullWeight(pulls[1..], i, g), g);
    }
  }

  lemma {:induction false} GeometricNext(g: real, k: nat)
    ensures Geometric(g, k + 1) == Times(Geometric(g, k), g) + 1.0
  {
    hide Times;
    TimesLaws(0.0, 0.0, g);
    if k > 0 {
      GeometricNext(g, k - 1);
      TimesLaws(Geometric(g, k - 1), Pow(g, k - 1), g);
    }
  }

  /** The arms pulled by waking ticks after round robin, in order. */
  function Pulls(p: Params, ins: seq<Input>, t: nat): (r: seq<nat>)
    requires p.Valid() && t <= |ins|
    ensures |r| == if Awake(ins, t) <= p.n then 0 else Awake(ins, t) - p.n
  {
    if t == 0 then []
    else if ins[t - 1].sleep || Awake(ins, t) <= p.n then Pulls(p, ins, t - 1)
    else Pulls(p, ins, t - 1) + [After(p, ins, t).arm]
  }

  /** Booking a pull multiplies every count and the total by the discount and adds one. */
  lemma PullEffect(p: Params, s: State, arm: nat)
    requires p.Valid() && Shaped(p, s) && arm < p.n
    ensures var r, g := Pull(p, s, arm), p.Discount();
      && Shaped(p, r) && r.total == Times(s.total, g) + 1.0 && r.arm == arm
      && forall i :: 0 <= i < p.n ==> r.nums[i] == Times(s.nums[i], g) + if i == arm then 1.0 else 0.0
  {
    hide Times;
    TimesLaws(s.total, 0.0, 1.0);
    forall i | 0 <= i < p.n ensures Times(s.nums[i], 1.0) == s.nums[i] {
      TimesLaws(s.nums[i], 0.0, 1.0);
    }
  }

  /** After round robin and k pulls, sleeping ticks anywhere, the count of arm i is g^k plus the
      discounted pulls of i, and the total is n * g^k plus the geometric sum; g is 1 for
      epsilon-greedy and UCB. */
  lemma {:induction false} CountsClosedForm(p: Params, ins: seq<Input>, t: nat)
    requires p.Valid() && t <= |ins| && Awake(ins, t) >= p.n
    ensures var s, pulls, g := After(p, ins, t), Pulls(p, ins, t), p.Discount();
      && s.total == Times(p.n as real, Pow(g, |pulls|)) + Geometric(g, |pulls|)
      && forall i :: 0 <= i < p.n ==> s.nums[i] == Pow(g, |pulls|) + PullWeight(pulls, i, g)
  {
    hide Times, Step, Sum;
    var s, pulls, g := After(p, ins, t), Pulls(p, ins, t), p.Discount();
    RoundRobinPullsEachArmOnce(p, ins, t);
    if Awake(ins, t) == p.n {
      SumConstant(s.nums, 1.0);
      TimesLaws(p.n as real, 0.0, 1.0);
    } else {
      RoundRobinPullsEachArmOnce(p, ins, t - 1);
      CountsClosedForm(p, ins, t - 1);
      var before := After(p, ins, t - 1);
      if ins[t - 1].sleep {
        SleepKeepsCounts(p, before, ins[t - 1]);
      } else {
        assert pulls == Pulls(p, ins, t - 1) + [s.arm];
        ClosedFormTick(p, before, ins[t - 1], Pulls(p, ins, t - 1));
      }
    }
  }

  lemma ClosedFormTick(p: Params, before: State, input: Input, pulls: seq<nat>)
    requires Valid(p, before) && !input.sleep && before.mode != RoundRobin
    requires var g := p.Discount();
      && before.total == Times(p.n as real, Pow(g, |pulls|)) + Geometric(g, |pulls|)
      && forall i :: 0 <= i < p.n ==> before.nums[i] == Pow(g, |pulls|) + PullWeight(pulls, i, g)
    ensures var s, g, k := Step(p, before, input), p.Discount(), |pulls| + 1;
      && Shaped(p, s) && s.total == Times(p.n as real, Pow(g, k)) + Geometric(g, k)
      && forall i :: 0 <= i < p.n ==> s.nums[i] == Pow(g, k) + PullWeight(pulls + [s.arm], i, g)
  {
    hide Times, Step, Sum, Counted;
    var s, g, k := Step(p, before, input), p.Discount(), |pulls| + 1;
    MainTick(p, before, input);
    GeometricNext(g, |pulls|);
    TimesShift(p.n as real, Pow(g, |pulls|), Geometric(g, |pulls|), g);
    forall i | 0 <= i < p.n ensures s.nums[i] == Pow(g, k) + PullWeight(pulls + [s.arm], i, g) {
      PullWeightAppend(pulls, s.arm, i, g);
      TimesLaws(Pow(g, |pulls|), PullWeight(pulls, i, g), g);
    }
  }

  lemma TimesShift(n: real, a: real, b: real, g: real)
    ensures Times(Times(n, a) + b, g) == Times(n, Times(a, g)) + Times(b, g)
  {
  }

  lemma SleepKeepsCounts(p: Params, s: State, input: Input)
    requires Valid(p, s) && input.sleep
    ensures var r := Step(p, s, input); r.nums == s.nums && r.total == s.total && r.mode == s.mode
  {
  }

  /** Effect of a waking main-loop tick on the counts. */
  lemma MainTick(p: Params, s: State, input: Input)
    requires Valid(p, s) && !input.sleep && s.mode != RoundRobin
    ensures var r, g := Step(p, s, input), p.Discount();
      && Shaped(p, r) && r.mode == MainLoop && r.total == Times(s.total, g) + 1.0
      && (forall i :: 0 <= i < p.n ==> r.nums[i] == Times(s.nums[i], g) + if i == r.arm then 1.0 else 0.0)
      && r.rewards == Evaluated(p, s, input).rewards && r.avg == Evaluated(p, s, input).avg
      && r.fault == Evaluated(p, s, input).fault
  {
    hide Pull, Times, NextArm;
    var e := Evaluated(p, s, input);
    PullEffect(p, e, NextArm(p, e, input));
    PullKeepsRest(p, e, NextArm(p, e, input));
  }
}
