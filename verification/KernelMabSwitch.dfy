/** How long an arm can stay: the passive arms' bonus overtakes any bounded score, as far as the
    residue the comparison starts from lets it. */
module KernelMabSwitch {
  import opened Words
  import opened KernelMab
  import opened KernelMabRuns
  import opened KernelMabRounds
  import KernelMabSelect

  // ----- One tuning call -----

  /** The cores as the arm comparison of a tuning call sees them. */
  function TunedCores(cfg: Config, s: State, t: Tick): (r: seq<Core>)
    requires Valid(cfg, s) && ValidTick(cfg, t)
    ensures ValidCores(cfg, r)
  {
    var w := Woken(cfg, Sampled(cfg, s, t), t.core);
    w.cores[t.core := TuneCore(w.cores[t.core], w.modules[cfg.ModuleOf(t.core)].activeArm, t.aggr)]
  }

  /** Effect of an active call in a module that has finished its scan. */
  lemma TuningCall(cfg: Config, s: State, t: Tick)
    requires Valid(cfg, s) && ValidTick(cfg, t) && ActivityOf(s, t) == Active
    requires s.modules[cfg.ModuleOf(t.core)].init == Done
    ensures var m, r := cfg.ModuleOf(t.core), Step(cfg, s, t);
      && r.modules[m].init == Done && r.modules[m].idle == 0
      && r.cores[t.core].score == TunedCores(cfg, s, t)[t.core].score
      && (forall i :: 0 <= i < |s.cores| && i != t.core ==> r.cores[i] == s.cores[i])
      && (!Leads(cfg, s, t) ==> r.modules[m].activeArm == s.modules[m].activeArm)
      && (Leads(cfg, s, t) ==>
            var scores := ModuleScores(cfg, TunedCores(cfg, s, t), m);
            r.modules[m].activeArm == SelectArm(scores, t.residue, s.modules[m].activeArm))
  {
    hide ModuleScores, SelectArm, TuneCore, TouchesOnly, CoresTouched, InitStep;
  }

  /** Effect of an idle call. */
  lemma IdleCall(cfg: Config, s: State, t: Tick)
    requires Valid(cfg, s) && ValidTick(cfg, t) && ActivityOf(s, t) == Idle
    ensures var m, r := cfg.ModuleOf(t.core), Step(cfg, s, t);
      && r.cores[t.core].score == s.cores[t.core].score
      && r.cores[t.core].idle == s.cores[t.core].idle + 1
      && (forall i :: 0 <= i < |s.cores| && i != t.core ==> r.cores[i] == s.cores[i])
      && r.modules[m].activeArm == s.modules[m].activeArm
      && (if IdleVerdict(cfg, s, Work(t), m)
          then r.modules[m].idle == s.modules[m].idle + 1
               && (s.modules[m].idle < IDLE_THRESHOLD ==> r.modules[m].init == s.modules[m].init)
          else r.modules[m] == s.modules[m])
  {
  }

  // ----- Averages between bounds -----

  lemma OneMore(n: nat, x: nat)
    ensures (n + 1) * x == n * x + x
  {
  }

  lemma {:induction false} SumBounds(cfg: Config, cores: seq<Core>, arm: nat, i: nat, end: nat, lo: nat, hi: nat)
    requires ValidCores(cfg, cores) && arm < |cfg.arms| && i <= end <= |cores|
    requires forall c :: i <= c < end && Counts(cfg, cores, c) ==> lo <= cores[c].score[arm] <= hi
    ensures ScoreCount(cfg, cores, i, end) * lo <= ScoreSum(cfg, cores, arm, i, end)
    ensures ScoreSum(cfg, cores, arm, i, end) <= ScoreCount(cfg, cores, i, end) * hi
    decreases end - i
  {
    if i < end {
      SumBounds(cfg, cores, arm, i + 1, end, lo, hi);
      var n, rest := ScoreCount(cfg, cores, i + 1, end), ScoreSum(cfg, cores, arm, i + 1, end);
      OneMore(n, lo);
      OneMore(n, hi);
      if Counts(cfg, cores, i) {
        assert ScoreCount(cfg, cores, i, end) == n + 1;
        assert ScoreSum(cfg, cores, arm, i, end) == cores[i].score[arm] + rest;
      } else {
        assert ScoreCount(cfg, cores, i, end) == n;
        assert ScoreSum(cfg, cores, arm, i, end) == rest;
      }
    }
  }

  lemma {:induction false} SomeoneCounts(cfg: Config, cores: seq<Core>, i: nat, end: nat, c: nat)
    requires i <= c < end <= |cfg.enabled| == |cores| && Counts(cfg, cores, c)
    ensures ScoreCount(cfg, cores, i, end) > 0
    decreases end - i
  {
    if c != i {
      SomeoneCounts(cfg, cores, i + 1, end, c);
    }
  }

  lemma CancelFactor(n: nat, a: nat, b: nat)
    requires n * a < n * b
    ensures a < b
  {
    assert n * b - n * a == n * (b - a);
  }

  lemma QuotientBounds(sum: nat, n: nat, lo: nat, hi: nat)
    requires n > 0 && n * lo <= sum <= n * hi
    ensures lo <= sum / n <= hi
  {
    var q := sum / n;
    assert sum == n * q + sum % n;
    OneMore(q, n);
    OneMore(hi, n);
    CancelFactor(n, lo, q + 1);
    CancelFactor(n, q, hi + 1);
  }

  lemma AverageBounds(cfg: Config, cores: seq<Core>, m: nat, arm: nat, c: nat, lo: nat, hi: nat)
    requires ValidCores(cfg, cores) && m < cfg.modules && arm < |cfg.arms|
    requires cfg.Start(m) <= c < cfg.Start(m) + CORES_PER_MODULE && Counts(cfg, cores, c)
    requires forall i :: cfg.Start(m) <= i < cfg.Start(m) + CORES_PER_MODULE && Counts(cfg, cores, i) ==>
      lo <= cores[i].score[arm] <= hi
    ensures lo <= ModuleScore(cfg, cores, m, arm) <= hi
  {
    var i, end := cfg.Start(m), cfg.Start(m) + CORES_PER_MODULE;
    SumBounds(cfg, cores, arm, i, end, lo, hi);
    SomeoneCounts(cfg, cores, i, end, c);
    QuotientBounds(ScoreSum(cfg, cores, arm, i, end), ScoreCount(cfg, cores, i, end), lo, hi);
  }

  // ----- A steady module -----

  /** What a steady workload means for one module: which cores are active, the arm that runs and a
      passive rival, the highest score the cores reach with the running arm, the highest residue a
      leader's comparison finds, and the bonus of the passive arms. */
  datatype Load = Load(m: nat, active: seq<bool>, arm: nat, rival: nat, best: nat, residue: nat, aggr: u32) {
    /** What the rival has to exceed: a rival below the running arm has to beat the residue too. */
    function Target(): nat {
      if rival < arm && residue > best then residue else best
    }
  }

  ghost predicate ValidLoad(cfg: Config, l: Load) {
    && cfg.Valid() && l.m < cfg.modules && |l.active| == |cfg.enabled| && l.aggr >= 1
    && l.arm < |cfg.arms| && l.rival < |cfg.arms| && l.arm != l.rival
    && exists c :: IsMember(cfg, l, c)
  }

  /** An active core of the module. */
  ghost predicate IsMember(cfg: Config, l: Load, c: nat) {
    && cfg.Start(l.m) <= c < cfg.Start(l.m) + CORES_PER_MODULE
    && c < |cfg.enabled| == |l.active| && cfg.enabled[c] && l.active[c]
  }

  /** The call behaves as the load says. */
  ghost predicate Expected(cfg: Config, s: State, t: Tick, l: Load)
    requires Valid(cfg, s) && ValidTick(cfg, t) && |l.active| == |cfg.enabled|
  {
    cfg.ModuleOf(t.core) == l.m ==>
      && t.aggr == l.aggr
      && (if l.active[t.core] then ActivityOf(s, t) == Active else ActivityOf(s, t) == Idle)
      && (l.active[t.core] ==> ComputeScore(PmuUpdate(s.cores[t.core], t.cycles, t.instr)) <= l.best)
      && (l.rival < l.arm && Leads(cfg, s, t) ==> t.residue <= l.residue)
  }

  ghost predicate InModule(cfg: Config, l: Load, c: nat) {
    cfg.Start(l.m) <= c < cfg.Start(l.m) + CORES_PER_MODULE
  }

  /** After n calls of a round the arm still runs. The module's idle count has only what its first
      core can have added before an active core ran. */
  ghost predicate ArmRuns(cfg: Config, s: State, l: Load, ts: seq<Tick>, n: nat)
    requires Valid(cfg, s) && ValidLoad(cfg, l) && n <= |ts|
  {
    var mod := s.modules[l.m];
    && mod.init == Done && mod.activeArm == l.arm && mod.idle <= 1
    && (mod.idle == 1 ==> forall c: nat :: Ticked(ts, n, c) ==> !IsMember(cfg, l, c))
    && (mod.idle == 1 ==> exists c: nat :: Ticked(ts, n, c) && InModule(cfg, l, c))
  }

  /** The active cores are the counting ones; their running arm is within the best score and their
      rival lies between lo and hi, plus one bonus if the core has run in this round. */
  ghost predicate ScoresClimb(cfg: Config, s: State, l: Load, ts: seq<Tick>, n: nat, lo: nat, hi: nat)
    requires Valid(cfg, s) && ValidLoad(cfg, l) && n <= |ts|
  {
    && (forall c: nat :: InModule(cfg, l, c) && cfg.enabled[c] ==> (s.cores[c].idle == 0 <==> l.active[c]))
    && (forall c: nat :: IsMember(cfg, l, c) ==>
          && s.cores[c].score[l.arm] <= l.best
          && lo + Bonus(l, ts, n, c) <= s.cores[c].score[l.rival] <= hi + Bonus(l, ts, n, c))
  }

  ghost function Bonus(l: Load, ts: seq<Tick>, n: nat, c: nat): nat
    requires n <= |ts|
  {
    if Ticked(ts, n, c) then l.aggr else 0
  }

  ghost predicate Steady(cfg: Config, s: State, l: Load, ts: seq<Tick>, n: nat, lo: nat, hi: nat)
    requires Valid(cfg, s) && ValidLoad(cfg, l) && n <= |ts|
  {
    ArmRuns(cfg, s, l, ts, n) && ScoresClimb(cfg, s, l, ts, n, lo, hi)
  }

  ghost predicate Ascending(ts: seq<Tick>) {
    forall i, j :: 0 <= i < j < |ts| ==> ts[i].core < ts[j].core
  }

  // ----- One call in a steady module -----

  /** Calls outside the module leave it alone. */
  lemma ForeignCall(cfg: Config, s: State, l: Load, ts: seq<Tick>, n: nat, lo: nat, hi: nat)
    requires Valid(cfg, s) && ValidLoad(cfg, l) && ValidTicks(cfg, ts) && n < |ts|
    requires Steady(cfg, s, l, ts, n, lo, hi) && cfg.ModuleOf(ts[n].core) != l.m
    ensures Steady(cfg, Step(cfg, s, ts[n]), l, ts, n + 1, lo, hi)
  {
    hide Step;
    TickedNext(ts, n);
    assert TouchesOnly(cfg, s, Step(cfg, s, ts[n]), ts[n].core);
    assert !InModule(cfg, l, ts[n].core);
  }

  lemma IdleCallSteady(cfg: Config, s: State, l: Load, ts: seq<Tick>, n: nat, lo: nat, hi: nat)
    requires Valid(cfg, s) && ValidLoad(cfg, l) && ValidTicks(cfg, ts) && Ascending(ts) && n < |ts|
    requires Steady(cfg, s, l, ts, n, lo, hi) && Expected(cfg, s, ts[n], l)
    requires cfg.ModuleOf(ts[n].core) == l.m && !l.active[ts[n].core]
    ensures Steady(cfg, Step(cfg, s, ts[n]), l, ts, n + 1, lo, hi)
  {
    hide Step, ActivityOf;
    var t := ts[n];
    TickedNext(ts, n);
    IdleCall(cfg, s, t);
    if IdleVerdict(cfg, s, Work(t), l.m) {
      forall c: nat | Ticked(ts, n, c) ensures !InModule(cfg, l, c) {
        var i :| 0 <= i < n && ts[i].core == c;
        assert ValidTick(cfg, ts[i]);
      }
      assert s.modules[l.m].idle == 0;
      assert Ticked(ts, n + 1, t.core) && InModule(cfg, l, t.core);
    }
    assert ScoresClimb(cfg, Step(cfg, s, t), l, ts, n + 1, lo, hi);
  }

  lemma ActiveCallClimbs(cfg: Config, s: State, l: Load, ts: seq<Tick>, n: nat, lo: nat, hi: nat)
    requires Valid(cfg, s) && ValidLoad(cfg, l) && ValidTicks(cfg, ts) && DistinctCores(ts) && n < |ts|
    requires Steady(cfg, s, l, ts, n, lo, hi) && Expected(cfg, s, ts[n], l) && hi + l.aggr < U32_SIZE
    requires cfg.ModuleOf(ts[n].core) == l.m && l.active[ts[n].core]
    ensures ScoresClimb(cfg, Step(cfg, s, ts[n]), l, ts, n + 1, lo, hi)
    ensures Step(cfg, s, ts[n]).modules[l.m].activeArm == l.arm ==> ArmRuns(cfg, Step(cfg, s, ts[n]), l, ts, n + 1)
  {
    hide Step, ActivityOf, Leads, ModuleScores, SelectArm, TunedCores, ComputeScore, PmuUpdate, Add32, Ticked;
    var t := ts[n];
    TickedNext(ts, n);
    TuningCall(cfg, s, t);
    StepOwnCore(cfg, s, t);
    TunedCore(cfg, s, t);
    NotYetTicked(ts, n);
    assert IsMember(cfg, l, t.core);
    AddFits(s.cores[t.core].score[l.rival], l.aggr);
    assert ScoresClimb(cfg, Step(cfg, s, t), l, ts, n + 1, lo, hi);
    hide ScoresClimb;
  }

  lemma NotYetTicked(ts: seq<Tick>, n: nat)
    requires DistinctCores(ts) && n < |ts|
    ensures !Ticked(ts, n, ts[n].core)
  {
  }

  lemma AddFits(a: u32, b: u32)
    requires a + b < U32_SIZE
    ensures Add32(a, b) == a + b
  {
  }

  // ----- The leader's comparison -----

  ghost predicate LowestMember(cfg: Config, l: Load, c: nat) {
    IsMember(cfg, l, c) && forall i: nat :: IsMember(cfg, l, i) ==> c <= i
  }

  lemma LowestMemberLeads(cfg: Config, s: State, l: Load, ts: seq<Tick>, n: nat, lo: nat, hi: nat)
    requires Valid(cfg, s) && ValidLoad(cfg, l) && ValidTicks(cfg, ts) && n < |ts|
    requires Steady(cfg, s, l, ts, n, lo, hi) && Expected(cfg, s, ts[n], l) && LowestMember(cfg, l, ts[n].core)
    ensures Leads(cfg, s, ts[n])
  {
    hide Step, ActivityOf;
    var t := ts[n];
    assert cfg.ModuleOf(t.core) == l.m;
    var w := Woken(cfg, Sampled(cfg, s, t), t.core);
    assert Counts(cfg, w.cores, t.core);
    assert forall i: nat :: InModule(cfg, l, i) && Counts(cfg, w.cores, i) ==> IsMember(cfg, l, i);
  }

  /** Once the rival is above what it has to exceed, the leader's comparison leaves the running arm. */
  lemma LeaderSwitches(cfg: Config, s: State, l: Load, ts: seq<Tick>, n: nat, lo: nat, hi: nat)
    requires Valid(cfg, s) && ValidLoad(cfg, l) && ValidTicks(cfg, ts) && DistinctCores(ts) && n < |ts|
    requires Steady(cfg, s, l, ts, n, lo, hi) && Expected(cfg, s, ts[n], l) && hi + l.aggr < U32_SIZE
    requires LowestMember(cfg, l, ts[n].core) && lo > l.Target()
    ensures Step(cfg, s, ts[n]).modules[l.m].activeArm != l.arm
  {
    hide Step, Leads, ActivityOf, SelectArm, ModuleScore;
    var t := ts[n];
    LowestMemberLeads(cfg, s, l, ts, n, lo, hi);
    TuningCall(cfg, s, t);
    var x := TunedCores(cfg, s, t);
    TunedScores(cfg, s, l, ts, n, lo, hi);
    AverageBounds(cfg, x, l.m, l.arm, t.core, 0, l.best);
    AverageBounds(cfg, x, l.m, l.rival, t.core, lo, U32_SIZE - 1);
    var scores := ModuleScores(cfg, x, l.m);
    assert scores[l.arm] <= l.best && scores[l.rival] >= lo;
    KernelMabSelect.SelectionLeavesIff(scores, t.residue, l.arm);
  }

  lemma TunedScores(cfg: Config, s: State, l: Load, ts: seq<Tick>, n: nat, lo: nat, hi: nat)
    requires Valid(cfg, s) && ValidLoad(cfg, l) && ValidTicks(cfg, ts) && DistinctCores(ts) && n < |ts|
    requires Steady(cfg, s, l, ts, n, lo, hi) && Expected(cfg, s, ts[n], l) && hi + l.aggr < U32_SIZE
    requires IsMember(cfg, l, ts[n].core)
    ensures var x := TunedCores(cfg, s, ts[n]);
      && Counts(cfg, x, ts[n].core)
      && forall i: nat :: InModule(cfg, l, i) && Counts(cfg, x, i) ==>
        x[i].score[l.arm] <= l.best && lo <= x[i].score[l.rival]
  {
    hide Step, ActivityOf, TunedCores, ComputeScore;
    var t := ts[n];
    var x := TunedCores(cfg, s, t);
    assert !Ticked(ts, n, t.core) && cfg.ModuleOf(t.core) == l.m;
    TunedCore(cfg, s, t);
    forall i: nat | InModule(cfg, l, i) && Counts(cfg, x, i)
      ensures IsMember(cfg, l, i) && x[i].score[l.arm] <= l.best && lo <= x[i].score[l.rival]
    {
    }
  }

  /** What the comparison sees: the caller refreshed, the others as they are. */
  lemma TunedCore(cfg: Config, s: State, t: Tick)
    requires Valid(cfg, s) && ValidTick(cfg, t)
    ensures var x, o, arm := TunedCores(cfg, s, t), s.cores[t.core], s.modules[cfg.ModuleOf(t.core)].activeArm;
      && x[t.core].idle == 0
      && x[t.core].score[arm] == ComputeScore(PmuUpdate(o, t.cycles, t.instr))
      && (forall i :: 0 <= i < |o.score| && i != arm ==> x[t.core].score[i] == Add32(o.score[i], t.aggr))
      && x[t.core].lastScore == o.lastScore[arm := o.score[arm]]
      && forall i :: 0 <= i < |s.cores| && i != t.core ==> x[i] == s.cores[i]
  {
    hide TouchesOnly, CoresTouched;
  }

  // ----- Rounds -----

  ghost predicate ExpectedRound(cfg: Config, s: State, ts: seq<Tick>, l: Load)
    requires Valid(cfg, s) && ValidTicks(cfg, ts) && |l.active| == |cfg.enabled|
  {
    forall i :: 0 <= i < |ts| ==> Expected(cfg, After(cfg, s, ts, i), ts[i], l)
  }

  lemma ExpectedAt(cfg: Config, s: State, ts: seq<Tick>, l: Load, i: nat)
    requires Valid(cfg, s) && ValidTicks(cfg, ts) && |l.active| == |cfg.enabled|
    requires ExpectedRound(cfg, s, ts, l) && i < |ts|
    ensures Expected(cfg, After(cfg, s, ts, i), ts[i], l)
  {
    hide After, Expected;
  }

  /** A call keeps the module steady or switches its arm; once the rival is above what it has
      to exceed, the lowest active core's call switches. */
  lemma SteadyCall(cfg: Config, s: State, l: Load, ts: seq<Tick>, n: nat, lo: nat, hi: nat, first: nat)
    requires Valid(cfg, s) && ValidLoad(cfg, l) && IsRound(cfg, ts) && Ascending(ts) && n < |ts|
    requires Steady(cfg, s, l, ts, n, lo, hi) && Expected(cfg, s, ts[n], l) && hi + l.aggr < U32_SIZE
    requires LowestMember(cfg, l, first)
    ensures var r := Step(cfg, s, ts[n]);
      || r.modules[l.m].activeArm != l.arm
      || (Steady(cfg, r, l, ts, n + 1, lo, hi) && (lo > l.Target() ==> ts[n].core != first))
  {
    hide Step, ArmRuns, ScoresClimb, TouchesOnly, ActivityOf;
    var t := ts[n];
    if cfg.ModuleOf(t.core) != l.m {
      ForeignCall(cfg, s, l, ts, n, lo, hi);
    } else if l.active[t.core] {
      ActiveCallClimbs(cfg, s, l, ts, n, lo, hi);
      if lo > l.Target() && t.core == first {
        LeaderSwitches(cfg, s, l, ts, n, lo, hi);
      }
    } else {
      IdleCallSteady(cfg, s, l, ts, n, lo, hi);
    }
  }

  /** A round either switches after some call n, or keeps the module steady to its end; with the
      rival above what it has to exceed, it switches. */
  lemma {:induction false} SteadyRound(
    cfg: Config, s: State, l: Load, ts: seq<Tick>, i: nat, lo: nat, hi: nat, first: nat) returns (n: nat)
    requires Valid(cfg, s) && ValidLoad(cfg, l) && IsRound(cfg, ts) && Ascending(ts) && i <= |ts|
    requires Steady(cfg, After(cfg, s, ts, i), l, ts, i, lo, hi) && ExpectedRound(cfg, s, ts, l)
    requires hi + l.aggr < U32_SIZE && LowestMember(cfg, l, first) && (lo > l.Target() ==> !Ticked(ts, i, first))
    ensures n <= |ts|
    ensures || After(cfg, s, ts, n).modules[l.m].activeArm != l.arm
            || (n == |ts| && Steady(cfg, After(cfg, s, ts, n), l, ts, n, lo, hi) && lo <= l.Target())
    decreases |ts| - i
  {
    hide Step, ExpectedRound, Steady, Expected, TouchesOnly;
    if i == |ts| {
      n := i;
    } else {
      ExpectedAt(cfg, s, ts, l, i);
      SteadyCall(cfg, After(cfg, s, ts, i), l, ts, i, lo, hi, first);
      if After(cfg, s, ts, i + 1).modules[l.m].activeArm != l.arm {
        n := i + 1;
      } else {
        TickedNext(ts, i);
        n := SteadyRound(cfg, s, l, ts, i + 1, lo, hi, first);
      }
    }
  }

  /** A full round without a switch raises both bounds by one bonus. */
  lemma SteadyNextRound(cfg: Config, s: State, l: Load, ts: seq<Tick>, next: seq<Tick>, lo: nat, hi: nat)
    requires Valid(cfg, s) && ValidLoad(cfg, l) && IsRound(cfg, ts) && Steady(cfg, s, l, ts, |ts|, lo, hi)
    ensures Steady(cfg, s, l, next, 0, lo + l.aggr, hi + l.aggr)
  {
    var c :| IsMember(cfg, l, c);
    assert Ticked(ts, |ts|, c);
  }

  lemma {:induction false} SomeLowestMember(cfg: Config, l: Load, c: nat) returns (r: nat)
    requires ValidLoad(cfg, l) && IsMember(cfg, l, c)
    ensures LowestMember(cfg, l, r)
    decreases c
  {
    if i: nat :| IsMember(cfg, l, i) && i < c {
      r := SomeLowestMember(cfg, l, i);
    } else {
      r := c;
    }
  }

  ghost predicate SteadyRounds(cfg: Config, s: State, rs: seq<seq<Tick>>, l: Load)
    requires Valid(cfg, s) && ValidLoad(cfg, l) && AllRounds(cfg, rs)
  {
    && (forall i :: 0 <= i < |rs| ==> Ascending(rs[i]))
    && (forall i :: 0 <= i < |rs| ==> ExpectedRound(cfg, AfterRounds(cfg, s, rs, i), rs[i], l))
  }

  lemma TryRound(cfg: Config, s: State, l: Load, ts: seq<Tick>, lo: nat, hi: nat) returns (n: nat)
    requires Valid(cfg, s) && ValidLoad(cfg, l) && IsRound(cfg, ts) && Ascending(ts)
    requires Steady(cfg, s, l, ts, 0, lo, hi) && ExpectedRound(cfg, s, ts, l) && hi + l.aggr < U32_SIZE
    ensures n <= |ts|
    ensures || After(cfg, s, ts, n).modules[l.m].activeArm != l.arm
            || (n == |ts| && Steady(cfg, After(cfg, s, ts, n), l, ts, n, lo, hi) && lo <= l.Target())
  {
    hide Step, ExpectedRound, Steady, Ascending, IsRound, TouchesOnly;
    var c: nat :| IsMember(cfg, l, c);
    var first := SomeLowestMember(cfg, l, c);
    n := SteadyRound(cfg, s, l, ts, 0, lo, hi, first);
  }

  lemma SteadyRoundAt(cfg: Config, s: State, rs: seq<seq<Tick>>, l: Load, k: nat)
    requires Valid(cfg, s) && ValidLoad(cfg, l) && AllRounds(cfg, rs) && SteadyRounds(cfg, s, rs, l) && k < |rs|
    ensures IsRound(cfg, rs[k]) && Ascending(rs[k])
    ensures ExpectedRound(cfg, AfterRounds(cfg, s, rs, k), rs[k], l)
  {
    hide AfterRounds, Ascending, ExpectedRound;
  }

  lemma {:induction false} SwitchFromRound(
    cfg: Config, s: State, rs: seq<seq<Tick>>, l: Load, k: nat, lo: nat, hi: nat) returns (j: nat, n: nat)
    requires Valid(cfg, s) && ValidLoad(cfg, l) && AllRounds(cfg, rs) && SteadyRounds(cfg, s, rs, l) && k < |rs|
    requires Steady(cfg, AfterRounds(cfg, s, rs, k), l, rs[k], 0, lo, hi)
    requires Enough(|rs| - k, l.aggr, lo, hi, l.Target())
    ensures k <= j < |rs| && n <= |rs[j]|
    ensures After(cfg, AfterRounds(cfg, s, rs, j), rs[j], n).modules[l.m].activeArm != l.arm
    decreases |rs| - k
  {
    hide Step, ExpectedRound, Steady, Ascending, DistinctCores, Ticked, TouchesOnly, SteadyRounds, Enough;
    var start, ts := AfterRounds(cfg, s, rs, k), rs[k];
    SteadyRoundAt(cfg, s, rs, l, k);
    RoundsLeft(|rs| - k, l.aggr, lo, hi, l.Target());
    j := k;
    n := TryRound(cfg, start, l, ts, lo, hi);
    if After(cfg, start, ts, n).modules[l.m].activeArm == l.arm {
      SteadyNextRound(cfg, After(cfg, start, ts, |ts|), l, ts, rs[k + 1], lo, hi);
      assert After(cfg, start, ts, |ts|) == AfterRounds(cfg, s, rs, k + 1);
      j, n := SwitchFromRound(cfg, s, rs, l, k + 1, lo + l.aggr, hi + l.aggr);
    }
  }

  /** `left` more rounds lift lo above the best score before hi can wrap. */
  predicate Enough(left: nat, aggr: u32, lo: nat, hi: nat, best: nat) {
    left >= 1 && lo + (left - 1) * aggr > best && hi + left * aggr < U32_SIZE
  }

  lemma RoundsLeft(left: nat, aggr: u32, lo: nat, hi: nat, best: nat)
    requires Enough(left, aggr, lo, hi, best)
    ensures hi + aggr < U32_SIZE
    ensures lo <= best ==> left >= 2 && Enough(left - 1, aggr, lo + aggr, hi + aggr, best)
  {
    OneMore(left - 1, aggr);
    Nonnegative(left - 1, aggr);
    if left >= 2 {
      OneMore(left - 2, aggr);
    }
  }

  /** With aggressiveness at least 1, a fixed set of active cores ticking in ascending order, scores
      of the running arm within B and no 32-bit wrap of a rival, the module leaves the running arm
      within floor(B / aggr) + 2 rounds if the rival is above it, as it always is while arm 0 runs;
      a rival below it needs floor(max(B, R) / aggr) + 2 rounds when the residue of the leader's
      comparisons is within R. */
  lemma SwitchWithinBound(cfg: Config, s: State, rs: seq<seq<Tick>>, l: Load, hi: nat) returns (j: nat, n: nat)
    requires Valid(cfg, s) && ValidLoad(cfg, l) && AllRounds(cfg, rs) && SteadyRounds(cfg, s, rs, l)
    requires |rs| == l.Target() / l.aggr + 2 && hi + |rs| * l.aggr < U32_SIZE
    requires Steady(cfg, s, l, rs[0], 0, 0, hi)
    ensures j < |rs| && n <= |rs[j]|
    ensures After(cfg, AfterRounds(cfg, s, rs, j), rs[j], n).modules[l.m].activeArm != l.arm
  {
    hide Step, SteadyRounds, ArmRuns, ScoresClimb;
    var target := l.Target();
    var q := target / l.aggr;
    assert target == l.aggr * q + target % l.aggr;
    OneMore(q, l.aggr);
    j, n := SwitchFromRound(cfg, s, rs, l, 0, 0, hi);
  }
}
