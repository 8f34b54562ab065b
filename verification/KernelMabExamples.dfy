/** Runs of the kernel bandit from module load on: a steady workload, a run that never leaves an arm,
    and a run that divides by zero. */
module KernelMabExamples {
  import opened Words
  import opened KernelMab
  import opened KernelMabRuns
  import opened KernelMabRounds
  import opened KernelMabSelect
  import opened KernelMabSwitch
  import opened KernelMabStuck

  const FIRST_SCORE := 488
  const LIMIT := 1_000_000_000_000

  // ----- A machine with two arms, after module load -----

  function Machine(enabled: seq<bool>): Config
    requires |enabled| == 4
  {
    var bank: Bank := [0, 0, 0, 0, 0, 0, 0];
    Config(0, enabled, 1, [bank, bank])
  }

  function AtLoad(): State {
    var bank: Bank := [0, 0, 0, 0, 0, 0, 0];
    var core := Core(0, 0, 0, 0, bank, false, [0, 0], [0, 0], 0, 0);
    State([core, core, core, core], [Module(0, NotStarted, 0)], [bank], false)
  }

  lemma AtLoadIsLoaded(enabled: seq<bool>)
    requires |enabled| == 4
    ensures Loaded(Machine(enabled), AtLoad())
  {
  }

  /** The k-th call of a core that runs at half a million cycles per millisecond. */
  function Paced(core: nat, k: nat, instr: u64, residue: u32): Tick
    requires k < LIMIT
  {
    Tick(core, 1 + 1_000_000 * k, 500_000 * k, instr, 1, residue)
  }

  /** Core c as its k-th call leaves it. */
  ghost predicate At(s: State, c: nat, k: nat, instr: u64) {
    && c < |s.cores|
    && s.cores[c].cycles == 500_000 * k && s.cores[c].timeOld == 1 + 1_000_000 * k
    && s.cores[c].instr == instr && s.cores[c].idle == 0
  }

  lemma SubExact(a: u64, b: u64)
    requires b <= a
    ensures Sub64(a, b) == a - b
  {
  }

  /** From the second call on the verdict is active; the score is the instructions over 488. */
  lemma PacedVerdict(s: State, c: nat, k: nat, before: u64, instr: u64, residue: u32)
    requires k + 1 < LIMIT && At(s, c, k, before) && before <= instr
    ensures var t := Paced(c, k + 1, instr, residue);
      && ActivityOf(s, t) == Active
      && ComputeScore(PmuUpdate(s.cores[c], t.cycles, t.instr)) == (instr - before) / 488 % U32_SIZE
  {
    hide Sub64;
    var t := Paced(c, k + 1, instr, residue);
    var updated := PmuUpdate(s.cores[c], t.cycles, t.instr);
    SubExact(t.cycles, s.cores[c].cycles);
    SubExact(t.now, s.cores[c].timeOld);
    SubExact(instr, before);
    assert CycleDelta(updated) == 500_000 && Divisor(updated) == 488;
    assert Sub64(t.now, updated.timeOld) == 1_000_000;
  }

  lemma PacedStep(cfg: Config, s: State, c: nat, k: nat, before: u64, instr: u64, residue: u32)
    requires Valid(cfg, s) && k + 1 < LIMIT && At(s, c, k, before) && before <= instr
    requires c < |cfg.enabled| && cfg.enabled[c]
    ensures At(Step(cfg, s, Paced(c, k + 1, instr, residue)), c, k + 1, instr)
  {
    PacedVerdict(s, c, k, before, instr, residue);
    hide Step, ActivityOf;
    StepOwnCore(cfg, s, Paced(c, k + 1, instr, residue));
  }

  /** The first call only sets the clock. */
  lemma SeedStep(cfg: Config, s: State, c: nat, residue: u32)
    requires Valid(cfg, s) && c < |cfg.enabled| && cfg.enabled[c]
    requires s.cores[c].timeOld == 0 && s.cores[c].idle == 0
    ensures var r := Step(cfg, s, Paced(c, 0, 0, residue));
      && At(r, c, 0, 0) && r.modules == s.modules && r.fault == s.fault
      && r.cores[c].score == s.cores[c].score
      && forall i :: 0 <= i < |s.cores| && i != c ==> r.cores[i] == s.cores[i]
  {
    hide TouchesOnly, CoresTouched;
    assert ActivityOf(s, Paced(c, 0, 0, residue)) == Unknown;
  }

  /** The lowest enabled core leads whenever it is active. */
  lemma CoreZeroLeads(cfg: Config, s: State, t: Tick)
    requires Valid(cfg, s) && cfg.first == 0 && cfg.modules == 1 && |cfg.enabled| == 4 && cfg.enabled[0]
    requires t.core == 0 && ActivityOf(s, t) == Active
    ensures Leads(cfg, s, t)
  {
    hide ActivityOf, TouchesOnly, CoresTouched;
    var w := Woken(cfg, Sampled(cfg, s, t), 0);
    assert Counts(cfg, w.cores, 0);
  }

  // ----- One core, from load through the scan -----

  const ALONE: seq<bool> := [true, false, false, false]

  /** Its calls: nothing is retired but `kick` instructions, before the fourth call. */
  function LoneTick(k: nat, kick: u64, residue: u32): Tick
    requires k < LIMIT
  {
    Paced(0, k, if k < 3 then 0 else kick, residue)
  }

  function LoneTicks(n: nat, kick: u64, residue: u32): (r: seq<Tick>)
    requires n <= LIMIT
    ensures |r| == n && forall k :: 0 <= k < n ==> r[k] == LoneTick(k, kick, residue)
  {
    seq(n, k requires 0 <= k < n => LoneTick(k, kick, residue))
  }

  lemma LoneIsValid(n: nat, kick: u64, residue: u32)
    requires n <= LIMIT
    ensures Valid(Machine(ALONE), AtLoad()) && ValidTicks(Machine(ALONE), LoneTicks(n, kick, residue))
  {
    AtLoadIsLoaded(ALONE);
  }

  /** The state of the lone core after n calls from load. */
  function LoneRun(n: nat, kick: u64, residue: u32): (r: State)
    requires n <= LIMIT
    ensures Valid(Machine(ALONE), r)
  {
    if n == 0 then
      AtLoadIsLoaded(ALONE);
      AtLoad()
    else Step(Machine(ALONE), LoneRun(n - 1, kick, residue), LoneTick(n - 1, kick, residue))
  }

  lemma LoneRunNext(n: nat, kick: u64, residue: u32)
    requires n < LIMIT
    ensures LoneRun(n + 1, kick, residue) == Step(Machine(ALONE), LoneRun(n, kick, residue), LoneTick(n, kick, residue))
  {
    hide Step, LoneTick;
  }

  lemma {:induction false} LoneRunIsAfter(n: nat, k: nat, kick: u64, residue: u32)
    requires k <= n <= LIMIT
    ensures Valid(Machine(ALONE), AtLoad()) && ValidTicks(Machine(ALONE), LoneTicks(n, kick, residue))
    ensures After(Machine(ALONE), AtLoad(), LoneTicks(n, kick, residue), k) == LoneRun(k, kick, residue)
  {
    hide Step;
    LoneIsValid(n, kick, residue);
    if k > 0 {
      LoneRunIsAfter(n, k - 1, kick, residue);
    }
  }

  /** With one core the module average is that core's score. */
  lemma LoneAverage(s: State, t: Tick)
    requires Valid(Machine(ALONE), s) && t.core == 0
    ensures Average(Machine(ALONE), s, t) == ComputeScore(PmuUpdate(s.cores[0], t.cycles, t.instr))
  {
    hide ComputeScore, ModuleScore, TouchesOnly, CoresTouched;
    var cfg := Machine(ALONE);
    var w := Woken(cfg, Sampled(cfg, s, t), 0);
    var score := ComputeScore(PmuUpdate(s.cores[0], t.cycles, t.instr));
    var arm := w.modules[0].activeArm;
    SameScore(w.cores[0], PmuUpdate(s.cores[0], t.cycles, t.instr));
    var recorded := RecordScores(cfg, w.cores, arm, 0, 4);
    hide RecordScores;
    assert Counts(cfg, recorded, 0) && recorded[0].score[arm] == score;
    AverageBounds(cfg, recorded, 0, arm, 0, score, score);
  }

  lemma SameScore(a: Core, b: Core)
    requires a.cycles == b.cycles && a.cyclesOld == b.cyclesOld && a.instr == b.instr && a.instrOld == b.instrOld
    ensures ComputeScore(a) == ComputeScore(b)
  {
  }

  /** One scan call of the lone core. */
  lemma LoneScanCall(s: State, k: nat, before: u64, instr: u64, residue: u32)
    requires Valid(Machine(ALONE), s) && k + 1 < LIMIT && At(s, 0, k, before) && before <= instr
    requires s.modules[0].init != Done
    ensures var r, o := Step(Machine(ALONE), s, Paced(0, k + 1, instr, residue)), s.modules[0];
      && At(r, 0, k + 1, instr) && r.modules[0].idle == 0
      && (o.init == NotStarted ==> r.modules[0] == Module(0, InProgress, 0) && r.cores[0].score == s.cores[0].score)
      && (o.init == InProgress ==>
        && r.cores[0].score == s.cores[0].score[o.activeArm := (instr - before) / 488 % U32_SIZE]
        && r.modules[0] == (if o.activeArm == 0 then Module(1, InProgress, 0)
          else Module(if r.cores[0].score[1] > r.cores[0].score[0] then 1 else 0, Done, 0)))
  {
    hide Step, ActivityOf, Leads, Average, ComputeScore, PmuUpdate, TouchesOnly, CoresTouched;
    var cfg, t := Machine(ALONE), Paced(0, k + 1, instr, residue);
    PacedVerdict(s, 0, k, before, instr, residue);
    PacedStep(cfg, s, 0, k, before, instr, residue);
    CoreZeroLeads(cfg, s, t);
    assert Scans(cfg, s, t) && ScanCall(cfg, s, Work(t), 0) && ActiveVerdict(cfg, s, Work(t), 0);
    StepModule(cfg, s, t);
    ScanCallScores(cfg, s, t);
    LoneAverage(s, t);
    BestOfTwo(Step(cfg, s, t).cores[0].score);
  }

  lemma BestOfTwo(scores: seq<u32>)
    requires |scores| == 2
    ensures BestFrom(scores, 0, 1) == if scores[1] > scores[0] then 1 else 0
  {
    assert BestFrom(scores, 0, 2) == 0 && BestFrom(scores, 1, 2) == 1;
  }

  /** Four calls from load end the scan: on arm 1 if its interval retired 488 instructions, on arm 0
      if nothing was retired at all. */
  lemma LoneScan(kick: u64, residue: u32)
    requires kick == 0 || kick == FIRST_SCORE
    ensures var s := LoneRun(4, kick, residue);
      && At(s, 0, 3, kick) && s.modules == [Module(kick / 488, Done, 0)] && s.cores[0].score == [0, kick / 488]
  {
    hide Step, At, TouchesOnly;
    AtLoadIsLoaded(ALONE);
    var s1, s2, s3 := LoneRun(1, kick, residue), LoneRun(2, kick, residue), LoneRun(3, kick, residue);
    SeedStep(Machine(ALONE), AtLoad(), 0, residue);
    assert LoneRun(0, kick, residue) == AtLoad();
    LoneScanCall(s1, 0, 0, 0, residue);
    LoneScanCall(s2, 1, 0, 0, residue);
    LoneScanCall(s3, 2, 0, kick, residue);
    assert LoneRun(4, kick, residue) == Step(Machine(ALONE), s3, LoneTick(3, kick, residue));
  }

  // ----- A steady workload -----

  lemma OneTickRound(cfg: Config, s: State, t: Tick)
    requires Valid(cfg, s) && ValidTick(cfg, t)
    ensures After(cfg, s, [t], 0) == s && After(cfg, s, [t], 1) == Step(cfg, s, t)
  {
    hide Step;
  }

  ghost function IdleLoad(arm: nat): Load
    requires arm < 2
  {
    Load(0, ALONE, arm, 1 - arm, 1, 0, 1)
  }

  lemma LoneRound(s: State, k: nat, arm: nat)
    requires Valid(Machine(ALONE), s) && arm < 2 && 3 <= k && k + 1 < LIMIT && At(s, 0, k, 488 * arm)
    ensures var t := LoneTick(k + 1, 488 * arm, 0);
      && IsRound(Machine(ALONE), [t]) && Ascending([t]) && ExpectedRound(Machine(ALONE), s, [t], IdleLoad(arm))
      && At(Step(Machine(ALONE), s, t), 0, k + 1, 488 * arm)
  {
    hide Step, TouchesOnly, CoresTouched, Leads, ActivityOf, ComputeScore, PmuUpdate;
    var t := LoneTick(k + 1, 488 * arm, 0);
    assert Ticked([t], 1, 0) by { assert [t][0].core == 0; }
    PacedVerdict(s, 0, k, 488 * arm, 488 * arm, 0);
    PacedStep(Machine(ALONE), s, 0, k, 488 * arm, 488 * arm, 0);
    OneTickRound(Machine(ALONE), s, t);
  }

  /** The bound speaks of runs there are: for either arm of two, a state reached from module load and
      a workload that together meet every assumption. */
  lemma SteadyWorkloadExists(arm: nat)
    returns (cfg: Config, loaded: State, ts: seq<Tick>, s: State, rs: seq<seq<Tick>>, l: Load)
    requires arm < 2
    ensures Loaded(cfg, loaded) && ValidTicks(cfg, ts) && s == After(cfg, loaded, ts, |ts|)
    ensures Valid(cfg, s) && ValidLoad(cfg, l) && AllRounds(cfg, rs) && SteadyRounds(cfg, s, rs, l) && l.arm == arm
    ensures |rs| == l.Target() / l.aggr + 2 && |rs| * l.aggr < U32_SIZE
    ensures Steady(cfg, s, l, rs[0], 0, 0, 0)
  {
    hide Step, TouchesOnly, CoresTouched, Leads, ExpectedRound, At, LoneTick;
    var kick := 488 * arm;
    cfg, loaded, ts, s, l := Machine(ALONE), AtLoad(), LoneTicks(4, kick, 0), LoneRun(4, kick, 0), IdleLoad(arm);
    AtLoadIsLoaded(ALONE);
    LoneRunIsAfter(4, 4, kick, 0);
    LoneScan(kick, 0);
    var t4, t5, t6 := LoneTick(4, kick, 0), LoneTick(5, kick, 0), LoneTick(6, kick, 0);
    rs := [[t4], [t5], [t6]];
    LoneRound(s, 3, arm);
    var u := Step(cfg, s, t4);
    LoneRound(u, 4, arm);
    var v := Step(cfg, u, t5);
    LoneRound(v, 5, arm);
    OneTickRound(cfg, s, t4);
    OneTickRound(cfg, u, t5);
    RoundsUnfold(cfg, s, rs);
    assert IsMember(cfg, l, 0);
    LoneIsSteady(s, arm, rs[0]);
  }

  lemma RoundsUnfold(cfg: Config, s: State, rs: seq<seq<Tick>>)
    requires Valid(cfg, s) && AllRounds(cfg, rs) && |rs| == 3
    ensures AfterRounds(cfg, s, rs, 0) == s
    ensures AfterRounds(cfg, s, rs, 1) == After(cfg, s, rs[0], |rs[0]|)
    ensures AfterRounds(cfg, s, rs, 2) == After(cfg, AfterRounds(cfg, s, rs, 1), rs[1], |rs[1]|)
  {
    hide After;
  }

  lemma LoneIsSteady(s: State, arm: nat, ts: seq<Tick>)
    requires Valid(Machine(ALONE), s) && arm < 2 && At(s, 0, 3, 488 * arm)
    requires s.modules == [Module(arm, Done, 0)] && s.cores[0].score == [0, arm]
    ensures ValidLoad(Machine(ALONE), IdleLoad(arm)) && Steady(Machine(ALONE), s, IdleLoad(arm), ts, 0, 0, 0)
  {
    assert IsMember(Machine(ALONE), IdleLoad(arm), 0);
  }

  // ----- A run that never leaves arm 1 -----

  /** The lone core after the scan and n more calls: arm 1 still runs, and arm 0 has collected n. */
  ghost predicate StuckAfter(s: State, n: nat) {
    && At(s, 0, 3 + n, FIRST_SCORE) && s.modules == [Module(1, Done, 0)] && |s.cores[0].score| == 2
    && s.cores[0].score[0] == n % U32_SIZE && s.cores[0].score[1] == if n == 0 then 1 else 0
  }

  lemma OneBonus(n: nat)
    ensures Add32(n % U32_SIZE, 1) == (n + 1) % U32_SIZE
  {
  }

  lemma StuckStep(s: State, n: nat)
    requires Valid(Machine(ALONE), s) && 4 + n < LIMIT && StuckAfter(s, n)
    ensures var t := LoneTick(4 + n, FIRST_SCORE, TOP_SCORE);
      Leads(Machine(ALONE), s, t) && StuckAfter(Step(Machine(ALONE), s, t), n + 1)
  {
    hide Step, ActivityOf, SelectArm, ModuleScores, TunedCores, ComputeScore, Leads, PmuUpdate, Add32;
    var cfg, t := Machine(ALONE), LoneTick(4 + n, FIRST_SCORE, TOP_SCORE);
    PacedVerdict(s, 0, 3 + n, FIRST_SCORE, FIRST_SCORE, TOP_SCORE);
    PacedStep(cfg, s, 0, 3 + n, FIRST_SCORE, FIRST_SCORE, TOP_SCORE);
    CoreZeroLeads(cfg, s, t);
    assert cfg.ModuleOf(0) == 0 && |cfg.arms| == 2;
    StepOwnCore(cfg, s, t);
    TuningCall(cfg, s, t);
    TunedCore(cfg, s, t);
    TopArmIsKept(ModuleScores(cfg, TunedCores(cfg, s, t), 0));
    OneBonus(n);
  }

  lemma {:induction false} StuckPrefix(n: nat)
    requires 4 + n <= LIMIT
    ensures StuckAfter(LoneRun(4 + n, FIRST_SCORE, TOP_SCORE), n)
  {
    hide Step, LoneTick, LoneRun, At;
    if n == 0 {
      LoneScan(FIRST_SCORE, TOP_SCORE);
    } else {
      StuckPrefix(n - 1);
      StuckStep(LoneRun(3 + n, FIRST_SCORE, TOP_SCORE), n - 1);
      LoneRunNext(3 + n, FIRST_SCORE, TOP_SCORE);
    }
  }

  /** From module load, for every n, there is a run that finishes its scan on arm 1 and whose n
      further calls, all by an active leader, leave arm 1 running, although it scores 0 in each of
      them and arm 0 collects n bonuses. */
  lemma StuckRun(n: nat)
    requires 4 + n <= LIMIT
    ensures var cfg, s, ts := Machine(ALONE), AtLoad(), LoneTicks(4 + n, FIRST_SCORE, TOP_SCORE);
      && Loaded(cfg, s) && ValidTicks(cfg, ts)
      && StuckAfter(After(cfg, s, ts, 4 + n), n)
      && forall k :: 4 <= k < 4 + n ==> Leads(cfg, After(cfg, s, ts, k), ts[k])
  {
    hide StuckAfter, Leads, LoneRun, After;
    AtLoadIsLoaded(ALONE);
    LoneRunIsAfter(4 + n, 4 + n, FIRST_SCORE, TOP_SCORE);
    StuckPrefix(n);
    var ts := LoneTicks(4 + n, FIRST_SCORE, TOP_SCORE);
    forall k | 4 <= k < 4 + n ensures Leads(Machine(ALONE), After(Machine(ALONE), AtLoad(), ts, k), ts[k]) {
      LoneRunIsAfter(4 + n, k, FIRST_SCORE, TOP_SCORE);
      StuckPrefix(k - 4);
      StuckStep(LoneRun(k, FIRST_SCORE, TOP_SCORE), k - 4);
    }
  }

  // ----- A run that divides by zero -----

  const PAIR: seq<bool> := [true, true, false, false]

  /** From module load: both cores set their clocks and make one active call; the second core's
      counters are read again before they have moved; the first core's next call scores the second
      with a zero divisor. */
  lemma RereadRunFaults() returns (cfg: Config, loaded: State, ts: seq<Tick>, t: Tick)
    ensures |cfg.enabled| == 4 && Loaded(cfg, loaded) && ValidTicks(cfg, ts) && ValidTick(cfg, t)
    ensures var before := After(cfg, loaded, ts, |ts|);
      var read := React(cfg, before, ReadCounters(1, before.cores[1].cycles, 0));
      !read.fault && Step(cfg, read, t).fault
  {
    hide Step, Leads, TouchesOnly, ActivityOf;
    cfg, loaded, t := Machine(PAIR), AtLoad(), Paced(0, 2, 0, 0);
    AtLoadIsLoaded(PAIR);
    ts := [Paced(0, 0, 0, 0), Paced(1, 0, 0, 0), Paced(0, 1, 0, 0), Paced(1, 1, 0, 0)];
    FourCalls(cfg, loaded, ts);
    SeedStep(cfg, loaded, 0, 0);
    var seeded := Step(cfg, loaded, ts[0]);
    SeedStep(cfg, seeded, 1, 0);
    PairAfterSeeds(Step(cfg, seeded, ts[1]));
    InterleavedReadFaults(cfg, After(cfg, loaded, ts, 4), t, 1, 0);
  }

  lemma FourCalls(cfg: Config, s: State, ts: seq<Tick>)
    requires Valid(cfg, s) && ValidTicks(cfg, ts) && |ts| == 4
    ensures After(cfg, s, ts, 4) == Step(cfg, Step(cfg, Step(cfg, Step(cfg, s, ts[0]), ts[1]), ts[2]), ts[3])
  {
    hide Step;
    assert After(cfg, s, ts, 1) == Step(cfg, s, ts[0]);
    assert After(cfg, s, ts, 2) == Step(cfg, After(cfg, s, ts, 1), ts[1]);
    assert After(cfg, s, ts, 3) == Step(cfg, After(cfg, s, ts, 2), ts[2]);
  }

  /** From the seeded state, one active call each leaves the module in mid-scan, led by core 0. */
  lemma PairAfterSeeds(s: State)
    requires Valid(Machine(PAIR), s) && At(s, 0, 0, 0) && At(s, 1, 0, 0) && !s.fault
    requires s.modules == [Module(0, NotStarted, 0)]
    ensures var cfg := Machine(PAIR);
      var r := Step(cfg, Step(cfg, s, Paced(0, 1, 0, 0)), Paced(1, 1, 0, 0));
      && !r.fault && Counts(cfg, r.cores, 1) && r.modules[0].init == InProgress && Scans(cfg, r, Paced(0, 2, 0, 0))
  {
    hide Step, ActivityOf, Leads, TouchesOnly, ComputeScore;
    var cfg, a, b, c := Machine(PAIR), Paced(0, 1, 0, 0), Paced(1, 1, 0, 0), Paced(0, 2, 0, 0);
    PacedVerdict(s, 0, 0, 0, 0, 0);
    PacedStep(cfg, s, 0, 0, 0, 0, 0);
    CoreZeroLeads(cfg, s, a);
    assert ScanCall(cfg, s, Work(a), 0);
    StepModule(cfg, s, a);
    StepFault(cfg, s, a);
    StepOthers(cfg, s, a, 1);
    var u := Step(cfg, s, a);
    PacedVerdict(u, 1, 0, 0, 0, 0);
    PacedStep(cfg, u, 1, 0, 0, 0, 0);
    CoreOneFollows(u, b);
    StepModule(cfg, u, b);
    StepFault(cfg, u, b);
    StepOthers(cfg, u, b, 0);
    var r := Step(cfg, u, b);
    PacedVerdict(r, 0, 1, 0, 0, 0);
    CoreZeroLeads(cfg, r, c);
  }

  lemma CoreOneFollows(s: State, t: Tick)
    requires Valid(Machine(PAIR), s) && t.core == 1 && s.cores[0].idle == 0
    ensures !Leads(Machine(PAIR), s, t)
  {
    hide ActivityOf, TouchesOnly, CoresTouched;
    var w := Woken(Machine(PAIR), Sampled(Machine(PAIR), s, t), 1);
    assert Counts(Machine(PAIR), w.cores, 0);
  }
}
