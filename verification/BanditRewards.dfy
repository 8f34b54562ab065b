/** Whole runs of the user-space bandit: rewards as discounted means, the stored IPCs, and when the
    normalisation divides by zero. */
module BanditRewards {
  import opened RealSums
  import opened Bandit
  import opened BanditRuns

  // ----- Rewards are discounted means -----

  datatype Observation = Observation(arm: nat, reward: real)

  /** A tick evaluates the arm that ran unless it sleeps or is the first of round robin. */
  predicate Evaluates(s: State, input: Input) {
    !input.sleep && (s.mode == RoundRobin ==> s.rr > 0)
  }

  /** What the evaluations of the first t ticks saw, in order. */
  function Observed(p: Params, ins: seq<Input>, t: nat): seq<Observation>
    requires p.Valid() && t <= |ins|
  {
    if t == 0 then []
    else
      var s, input := After(p, ins, t - 1), ins[t - 1];
      Observed(p, ins, t - 1) + if Evaluates(s, input) then [Observation(s.arm, input.reward)] else []
  }

  /** The rewards observed for arm i, each discounted once per pull booked after it; k pulls have
      been booked in all. */
  function DiscountedSum(obs: seq<Observation>, i: nat, g: real, k: nat): real {
    if obs == [] then 0.0
    else (if obs[0].arm == i then Times(obs[0].reward, Pow(g, if |obs| < k then |obs| else k)) else 0.0)
         + DiscountedSum(obs[1..], i, g, k)
  }

  function Seen(o: Observation, i: nat): real {
    if o.arm == i then o.reward else 0.0
  }

  lemma {:induction false} DiscountedSumRoundRobin(obs: seq<Observation>, o: Observation, i: nat, g: real)
    ensures DiscountedSum(obs + [o], i, g, 0) == DiscountedSum(obs, i, g, 0) + Seen(o, i)
  {
    hide Times;
    TimesLaws(o.reward, 0.0, 1.0);
    if obs == [] {
      assert obs + [o] == [o];
      assert [o][1..] == [];
      assert DiscountedSum([o], i, g, 0) ==
        (if o.arm == i then Times(o.reward, Pow(g, 0)) else 0.0) + DiscountedSum([], i, g, 0);
    } else {
      assert (obs + [o])[1..] == obs[1..] + [o];
      DiscountedSumRoundRobin(obs[1..], o, i, g);
    }
  }

  lemma {:induction false} DiscountedSumMain(obs: seq<Observation>, o: Observation, i: nat, g: real, k: nat)
    ensures DiscountedSum(obs + [o], i, g, k + 1) == Times(DiscountedSum(obs, i, g, k) + Seen(o, i), g)
  {
    hide Times;
    TimesLaws(0.0, 0.0, g);
    if obs == [] {
      assert obs + [o] == [o];
      assert [o][1..] == [];
      assert Pow(g, 1) == Times(Pow(g, 0), g);
      assert DiscountedSum([o], i, g, k + 1) ==
        (if o.arm == i then Times(o.reward, Pow(g, 1)) else 0.0) + DiscountedSum([], i, g, k + 1);
    } else {
      assert (obs + [o])[1..] == obs[1..] + [o];
      DiscountedSumMain(obs[1..], o, i, g, k);
      var e := if |obs| < k then |obs| else k;
      var head := if obs[0].arm == i then Times(obs[0].reward, Pow(g, e)) else 0.0;
      TimesNested(obs[0].reward, Pow(g, e), g);
      TimesLaws(head, DiscountedSum(obs[1..], i, g, k) + Seen(o, i), g);
      assert Pow(g, e + 1) == Times(Pow(g, e), g);
    }
  }

  lemma TimesNested(a: real, b: real, g: real)
    ensures Times(a, Times(b, g)) == Times(Times(a, b), g)
  {
  }

  /** A mean reward, undone: times its count and times the normalisation. */
  function Mass(reward: real, count: real, avg: real): real {
    reward * count * avg
  }

  lemma MassLaws(x: real, c: real, a: real, g: real)
    ensures Mass(x, Times(c, g), a) == Times(Mass(x, c, a), g)
    ensures Mass(x, 0.0, a) == 0.0 && Mass(0.0, c, a) == 0.0
    ensures Mass(x, 1.0, 1.0) == x
  {
  }

  lemma MassNormalised(x: real, c: real, a: real)
    requires a != 0.0
    ensures Mass(Over(x, a), c, a) == Mass(x, c, 1.0)
  {
    assert (x / a) * a == x;
    assert (x / a) * c * a == ((x / a) * a) * c;
  }

  lemma MassUnnormalised(x: real, a: real)
    ensures Mass(x, 1.0, a) == x <==> a == 1.0 || x == 0.0
  {
    assert x * a - x == x * (a - 1.0);
  }

  lemma MassFolded(mean: real, num: real, reward: real, a: real)
    requires num > 0.0 && a != 0.0
    ensures Mass(Folded(mean, num, Over(reward, a)), num, a) == Mass(mean, num - 1.0, a) + reward
  {
    var x := reward / a;
    assert x * a == reward;
    assert Folded(mean, num, x) * num == mean * (num - 1.0) + x;
    assert (mean * (num - 1.0) + x) * a == mean * (num - 1.0) * a + x * a;
  }

  /** One when the arm is the selected one, whose count already includes the pull in progress. */
  function Pending(s: State, i: nat): real {
    if i == s.arm then 1.0 else 0.0
  }

  /** The reward of arm i has the normalisation that later rewards of the arm will have. */
  predicate Alike(p: Params, i: nat, avg: real, raw: real) {
    !p.once || i < p.coreLast || avg == 1.0 || raw == 0.0
  }

  /** Evaluation adds the observed reward to the mass of the arm that ran and turns its pending
      pull into a counted one: always in the main loop, and at the transition exactly for the arms
      whose stored reward gets the normalisation of the later ones. */
  lemma EvaluatedMass(p: Params, s: State, input: Input, i: nat)
    requires Valid(p, s) && s.mode != RoundRobin && i < p.n && !Evaluated(p, s, input).fault
    ensures var e := Evaluated(p, s, input);
      Mass(e.rewards[i], s.nums[i], e.avg) ==
        Mass(s.rewards[i], s.nums[i] - Pending(s, i), s.avg) + Seen(Observation(s.arm, input.reward), i)
      <==> (s.mode == MainLoop || Alike(p, i, e.avg, EvaluateRaw(s, input.reward).rewards[i]))
  {
    hide Mass, Folded, Sum, Times, Over;
    var e := Evaluated(p, s, input);
    MassLaws(s.rewards[i], 0.0, 1.0, 1.0);
    MassLaws(input.reward, 0.0, 1.0, 1.0);
    if s.mode == Transition {
      var raw := EvaluateRaw(s, input.reward);
      assert raw.rewards[i] ==
        Mass(s.rewards[i], s.nums[i] - Pending(s, i), s.avg) + Seen(Observation(s.arm, input.reward), i);
      MassLaws(raw.rewards[i], 0.0, 1.0, 1.0);
      MassNormalised(raw.rewards[i], s.nums[i], e.avg);
      MassUnnormalised(raw.rewards[i], e.avg);
    } else {
      MassFolded(s.rewards[s.arm], s.nums[s.arm], input.reward, s.avg);
    }
  }

  /** A pull after an evaluation multiplies the mass by the discount. */
  lemma PullMass(p: Params, s: State, input: Input, i: nat)
    requires Valid(p, s) && !input.sleep && s.mode != RoundRobin && i < p.n
    ensures var r, e := Step(p, s, input), Evaluated(p, s, input);
      && Shaped(p, r)
      && Mass(r.rewards[i], r.nums[i] - Pending(r, i), r.avg)
        == Times(Mass(e.rewards[i], s.nums[i], e.avg), p.Discount())
  {
    hide Mass, Step, Times, Evaluated;
    MainTick(p, s, input);
    var r := Step(p, s, input);
    MassLaws(r.rewards[i], s.nums[i], r.avg, p.Discount());
  }

  lemma {:induction false} AwakeAll(ins: seq<Input>, t: nat)
    requires t <= |ins| && forall i :: 0 <= i < t ==> !ins[i].sleep
    ensures Awake(ins, t) == t
  {
    if t > 0 {
      AwakeAll(ins, t - 1);
    }
  }

  /** Round-robin ticks: each adds its observation undiscounted. */
  lemma RoundRobinMass(p: Params, s: State, input: Input, i: nat)
    requires Valid(p, s) && !input.sleep && s.mode == RoundRobin && i < p.n
    requires s.rr > 0 && s.arm == s.rr - 1
    ensures var r := Step(p, s, input);
      Mass(r.rewards[i], r.nums[i] - Pending(r, i), r.avg) ==
        Mass(s.rewards[i], s.nums[i] - Pending(s, i), s.avg) + Seen(Observation(s.arm, input.reward), i)
  {
    hide Mass, Sum;
    MassLaws(s.rewards[i], 0.0, 1.0, 1.0);
    MassLaws(input.reward, 0.0, 1.0, 1.0);
  }

  lemma NothingObserved(i: nat, g: real)
    ensures DiscountedSum([], i, g, 0) == 0.0
  {
  }

  lemma FirstTickMass(p: Params, input: Input, i: nat)
    requires p.Valid() && !input.sleep && i < p.n
    ensures var r := Step(p, (InitialIsValid(p); Initial(p)), input);
      Shaped(p, r) && Mass(r.rewards[i], r.nums[i] - Pending(r, i), r.avg) == 0.0
  {
    InitialIsValid(p);
    var r := Step(p, Initial(p), input);
    MassLaws(0.0, r.nums[i] - Pending(r, i), r.avg, 1.0);
  }

  /** The stored reward of arm i, undone, is the discounted sum of its observed rewards. */
  ghost predicate MeansHold(p: Params, ins: seq<Input>, t: nat, i: nat)
    requires p.Valid() && t <= |ins| && i < p.n
  {
    var s := After(p, ins, t);
    Mass(s.rewards[i], s.nums[i] - Pending(s, i), s.avg) ==
      DiscountedSum(Observed(p, ins, t), i, p.Discount(), |Pulls(p, ins, t)|)
  }

  /** The last of t waking ticks: what it adds to the run. */
  lemma LastTick(p: Params, ins: seq<Input>, t: nat)
    requires p.Valid() && 2 <= t <= |ins| && forall j :: 0 <= j < t ==> !ins[j].sleep
    ensures var s := After(p, ins, t - 1);
      && After(p, ins, t) == Step(p, s, ins[t - 1])
      && Observed(p, ins, t) == Observed(p, ins, t - 1) + [Observation(s.arm, ins[t - 1].reward)]
      && (if s.mode == RoundRobin
          then s.rr > 0 && s.arm == s.rr - 1 && |Pulls(p, ins, t)| == |Pulls(p, ins, t - 1)| == 0
          else |Pulls(p, ins, t)| == |Pulls(p, ins, t - 1)| + 1)
  {
    AwakeAll(ins, t);
    AwakeAll(ins, t - 1);
    RoundRobinPullsEachArmOnce(p, ins, t - 1);
    hide Step, Awake;
  }

  /** One more tick: a round-robin or main-loop tick carries the claim over unchanged; at the
      transition it survives exactly for the arms that are normalised alike. */
  lemma MeansStep(p: Params, ins: seq<Input>, t: nat, i: nat)
    requires p.Valid() && 2 <= t <= |ins| && i < p.n
    requires (forall j :: 0 <= j < t ==> !ins[j].sleep) && !After(p, ins, t).fault
    ensures var s := After(p, ins, t - 1);
      && (s.mode != Transition ==> (MeansHold(p, ins, t, i) <==> MeansHold(p, ins, t - 1, i)))
      && (s.mode == Transition && MeansHold(p, ins, t - 1, i) ==>
        (MeansHold(p, ins, t, i) <==>
          Alike(p, i, After(p, ins, t).avg, EvaluateRaw(s, ins[t - 1].reward).rewards[i])))
  {
    hide Mass, Step, Times, Sum, Seen, DiscountedSum, Pow, Counted, Awake, After, Observed, Pulls, Pending;
    hide Evaluated, Alike;
    LastTick(p, ins, t);
    var s, input := After(p, ins, t - 1), ins[t - 1];
    var obs, o := Observed(p, ins, t - 1), Observation(s.arm, input.reward);
    if s.mode == RoundRobin {
      RoundRobinMass(p, s, input, i);
      DiscountedSumRoundRobin(obs, o, i, p.Discount());
    } else {
      MainTick(p, s, input);
      EvaluatedMass(p, s, input, i);
      PullMass(p, s, input, i);
      DiscountedSumMain(obs, o, i, p.Discount(), |Pulls(p, ins, t - 1)|);
      var e := Evaluated(p, s, input);
      TimesCancel(Mass(e.rewards[i], s.nums[i], e.avg),
        DiscountedSum(obs, i, p.Discount(), |Pulls(p, ins, t - 1)|) + Seen(o, i), p.Discount());
    }
  }

  lemma TimesCancel(a: real, b: real, g: real)
    requires g > 0.0
    ensures Times(a, g) == Times(b, g) <==> a == b
  {
    assert a * g - b * g == (a - b) * g;
  }

  // ----- Stored IPCs and the fault -----

  /** The IPCs measured for arms 0 .. n - 1 by the first evaluations. */
  function FirstRewards(ins: seq<Input>, n: nat): (r: seq<real>)
    requires n < |ins|
    ensures |r| == n
  {
    seq(n, i requires 0 <= i < n => ins[i + 1].reward)
  }

  /** The first average IPC, by which rewards are normalised once. */
  function FirstAverage(p: Params, ins: seq<Input>): real
    requires p.n < |ins|
  {
    Over(Sum(FirstRewards(ins, p.n)), p.n as real)
  }

  /** Without sleep the first t ticks of round robin have stored the rewards of the arms evaluated
      so far. */
  lemma {:induction false} RoundRobinStores(p: Params, ins: seq<Input>, t: nat)
    requires p.Valid() && t <= |ins| && t <= p.n && forall j :: 0 <= j < t ==> !ins[j].sleep
    ensures var s := After(p, ins, t);
      forall i :: 0 <= i < p.n ==>
        s.rewards[i] == (if i + 1 < t then ins[i + 1].reward else 0.0)
        && s.ipcs[i] == (if i + 1 < t then ins[i + 1].reward else 1.0)
  {
    hide After, Awake, Sum, Valid, Counted, Step;
    AfterNone(p, ins);
    if t > 0 {
      RoundRobinStores(p, ins, t - 1);
      AwakeAll(ins, t - 1);
      RoundRobinPullsEachArmOnce(p, ins, t - 1);
      AfterNext(p, ins, t);
      RoundRobinTables(p, After(p, ins, t - 1), ins[t - 1]);
    }
  }

  lemma RoundRobinTables(p: Params, s: State, input: Input)
    requires Valid(p, s) && s.mode == RoundRobin && !input.sleep
    ensures var r := Step(p, s, input);
      r.rewards == (if s.rr == 0 then s.rewards else s.rewards[s.arm := input.reward])
      && r.ipcs == (if s.rr == 0 then s.ipcs else s.ipcs[s.arm := input.reward])
  {
  }

  /** What the transition finds in the tables, without sleep. */
  lemma TransitionTables(p: Params, ins: seq<Input>)
    requires p.Valid() && p.n < |ins| && forall j :: 0 <= j <= p.n ==> !ins[j].sleep
    ensures var s := After(p, ins, p.n);
      && s.mode == Transition
      && s.ipcs[s.arm := ins[p.n].reward] == FirstRewards(ins, p.n)
      && EvaluateRaw(s, ins[p.n].reward).rewards == FirstRewards(ins, p.n)
  {
    hide After, Valid, Counted, Sum;
    RoundRobinStores(p, ins, p.n);
    TransitionArm(p, ins);
    var s := After(p, ins, p.n);
    TableFilled(s.ipcs, ins, p.n, 1.0);
    TableFilled(s.rewards, ins, p.n, 0.0);
  }

  lemma TransitionArm(p: Params, ins: seq<Input>)
    requires p.Valid() && p.n < |ins| && forall j :: 0 <= j <= p.n ==> !ins[j].sleep
    ensures var s := After(p, ins, p.n); s.mode == Transition && s.arm == p.n - 1 && Shaped(p, s)
  {
    hide After, Awake, Valid, Counted, Sum;
    AwakeAll(ins, p.n);
    RoundRobinPullsEachArmOnce(p, ins, p.n);
    AfterNext(p, ins, p.n + 1);
  }

  lemma TableFilled(table: seq<real>, ins: seq<Input>, n: nat, initial: real)
    requires 1 <= n < |ins| && |table| == n
    requires forall i :: 0 <= i < n ==> table[i] == if i + 1 < n then ins[i + 1].reward else initial
    ensures table[n - 1 := ins[n].reward] == FirstRewards(ins, n)
  {
  }

  lemma LaterTicksKeepFault(p: Params, s: State, input: Input)
    requires Valid(p, s)
    ensures var r := Step(p, s, input);
      && (s.mode != Transition || input.sleep ==> r.fault == s.fault && r.avg == s.avg)
      && (s.mode == MainLoop || (s.mode == Transition && !input.sleep) ==> r.mode == MainLoop)
  {
    if !input.sleep && s.mode != RoundRobin {
      hide Pull, NextArm, Normalise;
      var e := Evaluated(p, s, input);
      PullKeepsRest(p, e, NextArm(p, e, input));
    }
  }

  lemma NoFaultBeforeMainLoop(p: Params, s: State)
    requires Valid(p, s) && s.mode != MainLoop
    ensures !s.fault
  {
  }

  /** Tick u is the transition, and the IPCs stored by then add up to zero. */
  ghost predicate FaultsAt(p: Params, ins: seq<Input>, u: nat)
    requires p.Valid() && u < |ins|
  {
    var s := After(p, ins, u);
    p.once && s.mode == Transition && !ins[u].sleep && Sum(s.ipcs[s.arm := ins[u].reward]) == 0.0
  }

  /** Over every run, sleeping ticks anywhere, a division by zero has happened if and only if
      rewards are normalised and the IPCs stored at the transition added up to zero. */
  lemma {:induction false} FaultIffStoredIpcsCancel(p: Params, ins: seq<Input>, t: nat)
    requires p.Valid() && t <= |ins|
    ensures After(p, ins, t).fault <==> exists u :: 0 <= u < t && FaultsAt(p, ins, u)
  {
    hide Step, Sum, After, Valid, Counted;
    AfterNone(p, ins);
    if t > 0 {
      FaultIffStoredIpcsCancel(p, ins, t - 1);
      AfterNext(p, ins, t);
      var s := After(p, ins, t - 1);
      LaterTicksKeepFault(p, s, ins[t - 1]);
      if s.mode != MainLoop {
        NoFaultBeforeMainLoop(p, s);
      }
      if s.mode == Transition && !ins[t - 1].sleep {
        NormalisationFaultsIff(p, s, ins[t - 1]);
        assert FaultsAt(p, ins, t - 1) <==> After(p, ins, t).fault;
      }
    }
  }

  lemma {:induction false} FaultIffFirstSumZero(p: Params, ins: seq<Input>, t: nat)
    requires p.Valid() && p.n < t <= |ins| && forall j :: 0 <= j < t ==> !ins[j].sleep
    ensures var s := After(p, ins, t);
      && (s.fault <==> p.once && Sum(FirstRewards(ins, p.n)) == 0.0)
      && s.mode == MainLoop
      && (p.once ==> s.avg == FirstAverage(p, ins))
  {
    hide Sum, FirstRewards, Step, After, Over, Valid, Counted;
    var s := After(p, ins, t - 1);
    AfterNext(p, ins, t);
    LaterTicksKeepFault(p, s, ins[t - 1]);
    if t == p.n + 1 {
      TransitionTables(p, ins);
      NormalisationFaultsIff(p, s, ins[p.n]);
      TransitionAverage(p, s, ins[p.n]);
    } else {
      FaultIffFirstSumZero(p, ins, t - 1);
    }
  }

  /** Without sleep: if and only if rewards are normalised and the first n measured IPCs add up to
      zero, which for IPCs that are not negative means that all of them are zero. */
  lemma FaultIffFirstRewardsCancel(p: Params, ins: seq<Input>, t: nat)
    requires p.Valid() && p.n < t <= |ins| && forall j :: 0 <= j < t ==> !ins[j].sleep
    ensures var first := FirstRewards(ins, p.n);
      && (After(p, ins, t).fault <==> p.once && Sum(first) == 0.0)
      && ((forall i :: 0 <= i < p.n ==> first[i] >= 0.0) ==>
        (After(p, ins, t).fault <==> p.once && forall i :: 0 <= i < p.n ==> first[i] == 0.0))
  {
    hide Sum, FirstRewards, After;
    FaultIffFirstSumZero(p, ins, t);
    if forall i :: 0 <= i < p.n ==> FirstRewards(ins, p.n)[i] >= 0.0 {
      SumZeroIff(FirstRewards(ins, p.n));
    }
  }

  lemma NothingObservedYet(p: Params, ins: seq<Input>)
    requires p.Valid() && 1 <= |ins|
    ensures Observed(p, ins, 1) == []
  {
  }

  lemma AfterNone(p: Params, ins: seq<Input>)
    requires p.Valid()
    ensures After(p, ins, 0) == Initial(p)
  {
  }

  lemma AfterNext(p: Params, ins: seq<Input>, t: nat)
    requires p.Valid() && 0 < t <= |ins|
    ensures After(p, ins, t) == Step(p, After(p, ins, t - 1), ins[t - 1])
    ensures Shaped(p, After(p, ins, t - 1)) && Shaped(p, After(p, ins, t))
  {
    hide Step;
  }

  lemma FirstRewardsAt(ins: seq<Input>, n: nat)
    requires n < |ins|
    ensures forall i :: 0 <= i < n ==> FirstRewards(ins, n)[i] == ins[i + 1].reward
  {
  }

  lemma TransitionAverage(p: Params, s: State, input: Input)
    requires Valid(p, s) && s.mode == Transition && !input.sleep
    ensures p.once ==> Step(p, s, input).avg == Over(Sum(s.ipcs[s.arm := input.reward]), p.n as real)
  {
    hide Pull, NextArm, Sum;
    var e := Evaluated(p, s, input);
    PullKeepsRest(p, e, NextArm(p, e, input));
  }

  // ----- Rewards over whole runs -----

  /** Without sleep, and unless the first IPCs add up to zero, after every run each arm's reward
      times its count (times the normalisation, which is 1 unless rewards are normalised once) is
      the discounted sum of all rewards observed for it; the arm in progress uses its count without
      the pending pull. So the incremental update computes the discounted mean, and the plain mean
      when the discount is 1. The only exceptions are arms that the normalisation misses: there it
      holds if and only if the average is 1 or the arm's first reward is 0. */
  lemma {:induction false} MeansWithoutSleep(p: Params, ins: seq<Input>, t: nat, i: nat)
    requires p.Valid() && 1 <= t <= |ins| && i < p.n && forall j :: 0 <= j < t ==> !ins[j].sleep
    requires p.once && t > p.n ==> Sum(FirstRewards(ins, p.n)) != 0.0
    ensures MeansHold(p, ins, t, i) <==> (t <= p.n || Alike(p, i, FirstAverage(p, ins), ins[i + 1].reward))
  {
    hide Mass, Step, Times, Sum, Seen, DiscountedSum, Pow, Counted, FirstRewards, Alike, After, MeansHold;
    if t == 1 {
      FirstMeans(p, ins, i);
    } else {
      MeansWithoutSleep(p, ins, t - 1, i);
      ModeAt(p, ins, t - 1);
      NoFaultYet(p, ins, t);
      MeansStep(p, ins, t, i);
      if t == p.n + 1 {
        TransitionTables(p, ins);
        FirstRewardsAt(ins, p.n);
        FaultIffFirstSumZero(p, ins, t);
        AlikeWithoutOnce(p, i, After(p, ins, t).avg, FirstAverage(p, ins), ins[i + 1].reward);
      }
    }
  }

  lemma FirstMeans(p: Params, ins: seq<Input>, i: nat)
    requires p.Valid() && 1 <= |ins| && i < p.n && !ins[0].sleep
    ensures MeansHold(p, ins, 1, i)
  {
    hide Mass, Step, Times, Sum, DiscountedSum, Pow, Counted;
    AwakeAll(ins, 1);
    AfterNone(p, ins);
    NothingObservedYet(p, ins);
    assert Pulls(p, ins, 1) == [];
    FirstTickMass(p, ins[0], i);
    NothingObserved(i, p.Discount());
  }

  lemma AlikeWithoutOnce(p: Params, i: nat, a: real, b: real, raw: real)
    ensures !p.once || a == b ==> (Alike(p, i, a, raw) <==> Alike(p, i, b, raw))
  {
  }

  /** Without sleep the mode depends on the number of ticks alone. */
  lemma ModeAt(p: Params, ins: seq<Input>, t: nat)
    requires p.Valid() && t <= |ins| && forall j :: 0 <= j < t ==> !ins[j].sleep
    ensures After(p, ins, t).mode == if t < p.n then RoundRobin else if t == p.n then Transition else MainLoop
  {
    AwakeAll(ins, t);
    RoundRobinPullsEachArmOnce(p, ins, t);
  }

  lemma NoFaultYet(p: Params, ins: seq<Input>, t: nat)
    requires p.Valid() && t <= |ins| && forall j :: 0 <= j < t ==> !ins[j].sleep
    requires p.once && t > p.n ==> Sum(FirstRewards(ins, p.n)) != 0.0
    ensures !After(p, ins, t).fault
  {
    ModeAt(p, ins, t);
    if t > p.n {
      FaultIffFirstSumZero(p, ins, t);
    }
  }

  // ----- The stored IPC is the latest one -----

  /** The latest reward observed for arm i, or the initial 1. */
  function Latest(obs: seq<Observation>, i: nat): real {
    if obs == [] then 1.0
    else if obs[|obs| - 1].arm == i then obs[|obs| - 1].reward
    else Latest(obs[..|obs| - 1], i)
  }

  /** The code never averages the IPC of an arm, though one of its branches would: over every run,
      sleeping ticks anywhere, the stored IPC is the latest one observed. */
  lemma {:induction false} StoredIpcIsLatest(p: Params, ins: seq<Input>, t: nat, i: nat)
    requires p.Valid() && t <= |ins| && i < p.n
    ensures After(p, ins, t).ipcs[i] == Latest(Observed(p, ins, t), i)
  {
    hide After, Sum, Step, Valid, Counted, Evaluates;
    if t == 0 {
      AfterNone(p, ins);
    } else {
      AfterNext(p, ins, t);
      StoredIpcIsLatest(p, ins, t - 1, i);
      var s, input := After(p, ins, t - 1), ins[t - 1];
      EvaluationStores(p, s, input);
      var obs := Observed(p, ins, t - 1);
      if Evaluates(s, input) {
        assert (obs + [Observation(s.arm, input.reward)])[..|obs|] == obs;
      } else {
        assert obs + [] == obs;
      }
    }
  }

  lemma EvaluationStores(p: Params, s: State, input: Input)
    requires Valid(p, s)
    ensures Step(p, s, input).ipcs == if Evaluates(s, input) then s.ipcs[s.arm := input.reward] else s.ipcs
  {
    if !input.sleep && s.mode != RoundRobin {
      hide Pull, NextArm;
      var e := Evaluated(p, s, input);
      PullKeepsRest(p, e, NextArm(p, e, input));
    }
  }
}
