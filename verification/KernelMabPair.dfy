/** Two runs of the kernel bandit from module load: a scan by two cores whose outcome the leader's own
    scores would not give, and a core that is idle at one-second ticks. */
module KernelMabPair {
  import opened Words
  import opened KernelMab
  import opened KernelMabRuns
  import opened KernelMabRounds
  import opened KernelMabSwitch
  import opened KernelMabScores
  import opened KernelMabExamples

  // ----- Two cores -----

  /** Core c has made its k-th call, and its score would be v. */
  ghost predicate Scored(s: State, c: nat, k: nat, instr: u64, v: nat) {
    At(s, c, k, instr) && ComputeScore(s.cores[c]) == v
  }

  lemma ScoredStep(cfg: Config, s: State, c: nat, k: nat, before: u64, instr: u64)
    requires Valid(cfg, s) && k + 1 < LIMIT && At(s, c, k, before) && before <= instr
    requires c < |cfg.enabled| && cfg.enabled[c]
    ensures Scored(Step(cfg, s, Paced(c, k + 1, instr, 0)), c, k + 1, instr, (instr - before) / 488 % U32_SIZE)
  {
    var t := Paced(c, k + 1, instr, 0);
    PacedVerdict(s, c, k, before, instr, 0);
    PacedStep(cfg, s, c, k, before, instr, 0);
    StepOwnCore(cfg, s, t);
    hide Step, ActivityOf, ComputeScore;
    SameScore(Step(cfg, s, t).cores[c], PmuUpdate(s.cores[c], t.cycles, t.instr));
  }

  lemma ScoredKept(cfg: Config, s: State, t: Tick, c: nat, k: nat, instr: u64, v: nat)
    requires Valid(cfg, s) && ValidTick(cfg, t) && c != t.core && Scored(s, c, k, instr, v)
    ensures Scored(Step(cfg, s, t), c, k, instr, v)
  {
    hide Step, ComputeScore;
    StepOthers(cfg, s, t, c);
    SameScore(Step(cfg, s, t).cores[c], s.cores[c]);
  }

  /** With two counting cores the average is half the sum of their scores. */
  lemma PairAverage(s: State, k: nat, before: u64, instr: u64, theirs: u64, v: nat)
    requires Valid(Machine(PAIR), s) && k + 1 < LIMIT && At(s, 0, k, before) && before <= instr
    requires Scored(s, 1, k, theirs, v)
    ensures Average(Machine(PAIR), s, Paced(0, k + 1, instr, 0)) == ((instr - before) / 488 % U32_SIZE + v) / 2
  {
    var cfg, t := Machine(PAIR), Paced(0, k + 1, instr, 0);
    PacedVerdict(s, 0, k, before, instr, 0);
    ScanAverageIsMean(cfg, s, t);
    hide ComputeScore, Average, ActivityOf, Quotient, TouchesOnly;
    var w := Woken(cfg, Sampled(cfg, s, t), 0).cores;
    SameScore(w[0], PmuUpdate(s.cores[0], t.cycles, t.instr));
    assert w[1] == s.cores[1];
    var sum := (instr - before) / 488 % U32_SIZE + v;
    assert Quotient(sum, 2, Average(cfg, s, t));
    DivisionIsQuotient(sum, 2);
    QuotientUnique(sum, 2, sum / 2, Average(cfg, s, t));
  }

  /** One scan call of core 0 while core 1 counts. */
  lemma PairScanCall(s: State, k: nat, before: u64, instr: u64, theirs: u64, v: nat)
    requires Valid(Machine(PAIR), s) && k + 1 < LIMIT && At(s, 0, k, before) && before <= instr
    requires Scored(s, 1, k, theirs, v) && s.modules[0].init != Done
    ensures var r, o := Step(Machine(PAIR), s, Paced(0, k + 1, instr, 0)), s.modules[0];
      && At(r, 0, k + 1, instr) && Scored(r, 1, k, theirs, v)
      && (o.init == NotStarted ==> r.modules[0] == Module(0, InProgress, 0) && r.cores[0].score == s.cores[0].score)
      && (o.init == InProgress ==>
        && r.cores[0].score ==
          s.cores[0].score[o.activeArm := ((instr - before) / 488 % U32_SIZE + v) / 2]
        && r.modules[0] == (if o.activeArm == 0 then Module(1, InProgress, 0)
          else Module(if r.cores[0].score[1] > r.cores[0].score[0] then 1 else 0, Done, 0)))
  {
    hide Step, ActivityOf, Leads, Average, ComputeScore, PmuUpdate, TouchesOnly, CoresTouched;
    var cfg, t := Machine(PAIR), Paced(0, k + 1, instr, 0);
    PacedVerdict(s, 0, k, before, instr, 0);
    PacedStep(cfg, s, 0, k, before, instr, 0);
    ScoredKept(cfg, s, t, 1, k, theirs, v);
    CoreZeroLeads(cfg, s, t);
    assert Scans(cfg, s, t) && ScanCall(cfg, s, Work(t), 0) && ActiveVerdict(cfg, s, Work(t), 0);
    StepModule(cfg, s, t);
    ScanCallScores(cfg, s, t);
    PairAverage(s, k, before, instr, theirs, v);
    BestOfTwo(Step(cfg, s, t).cores[0].score);
  }

  /** A call of core 1 during the scan only moves its own counters and keeps the module going. */
  lemma PairFollowerCall(s: State, k: nat, ours: u64, before: u64, instr: u64)
    requires Valid(Machine(PAIR), s) && k + 1 < LIMIT && At(s, 1, k, before) && before <= instr
    requires At(s, 0, k + 1, ours) && s.modules[0].init == InProgress
    ensures var r := Step(Machine(PAIR), s, Paced(1, k + 1, instr, 0));
      && Scored(r, 1, k + 1, instr, (instr - before) / 488 % U32_SIZE) && At(r, 0, k + 1, ours)
      && r.modules[0] == s.modules[0].(idle := 0) && r.cores[0].score == s.cores[0].score
  {
    hide Step, ActivityOf, Leads, ComputeScore, TouchesOnly, CoresTouched;
    var cfg, t := Machine(PAIR), Paced(1, k + 1, instr, 0);
    PacedVerdict(s, 1, k, before, instr, 0);
    ScoredStep(cfg, s, 1, k, before, instr);
    StepOthers(cfg, s, t, 0);
    CoreOneFollows(s, t);
    assert ActiveVerdict(cfg, s, Work(t), 0) && !ScanCall(cfg, s, Work(t), 0);
    StepModule(cfg, s, t);
    OtherEventScores(cfg, s, Work(t), 0);
  }

  /** From module load: two cores of which the leader scores 2 with arm 0 and 0 with arm 1, and the
      other 0 and 4. Alone the leader would end its scan on arm 0; the averages are 1 and 2, and the
      scan ends on arm 1. */
  lemma PairScan() returns (cfg: Config, loaded: State, ts: seq<Tick>)
    ensures Loaded(cfg, loaded) && ValidTicks(cfg, ts) && cfg == Machine(PAIR)
    ensures var s := After(cfg, loaded, ts, |ts|);
      s.modules == [Module(1, Done, 0)] && s.cores[0].score == [1, 2]
  {
    hide Step, At, Scored, TouchesOnly;
    cfg, loaded := Machine(PAIR), AtLoad();
    AtLoadIsLoaded(PAIR);
    ts := [Paced(0, 0, 0, 0), Paced(1, 0, 0, 0), Paced(0, 1, 0, 0), Paced(1, 1, 0, 0),
      Paced(0, 2, 976, 0), Paced(1, 2, 1952, 0), Paced(0, 3, 976, 0)];
    var s1 := Step(cfg, loaded, ts[0]);
    var s2 := Step(cfg, s1, ts[1]);
    PairSeeded(s2);
    var s3 := Step(cfg, s2, ts[2]);
    var s4 := Step(cfg, s3, ts[3]);
    PairScanCall(s2, 0, 0, 0, 0, 0);
    AtOfScored(s3, 1, 0, 0, 0);
    PairFollowerCall(s3, 0, 0, 0, 0);
    var s5 := Step(cfg, s4, ts[4]);
    PairScanCall(s4, 1, 0, 976, 0, 0);
    AtOfScored(s5, 1, 1, 0, 0);
    var s6 := Step(cfg, s5, ts[5]);
    PairFollowerCall(s5, 1, 976, 0, 1952);
    PairScanCall(s6, 2, 976, 976, 1952, 4);
    SevenCalls(cfg, loaded, ts);
  }

  lemma AtOfScored(s: State, c: nat, k: nat, instr: u64, v: nat)
    requires Scored(s, c, k, instr, v)
    ensures At(s, c, k, instr)
  {
  }

  /** Both cores have set their clocks. */
  lemma PairSeeded(s: State)
    requires Valid(Machine(PAIR), AtLoad())
    requires s == Step(Machine(PAIR), Step(Machine(PAIR), AtLoad(), Paced(0, 0, 0, 0)), Paced(1, 0, 0, 0))
    ensures At(s, 0, 0, 0) && Scored(s, 1, 0, 0, 0)
    ensures s.modules == [Module(0, NotStarted, 0)] && s.cores[0].score == [0, 0]
  {
    hide Step;
    var cfg := Machine(PAIR);
    SeedStep(cfg, AtLoad(), 0, 0);
    var u := Step(cfg, AtLoad(), Paced(0, 0, 0, 0));
    SeedStep(cfg, u, 1, 0);
    SeedScore(cfg, u);
  }

  lemma SeedScore(cfg: Config, s: State)
    requires Valid(cfg, s) && cfg == Machine(PAIR) && s.cores[1] == AtLoad().cores[1]
    ensures ComputeScore(Step(cfg, s, Paced(1, 0, 0, 0)).cores[1]) == 0
  {
    StepOwnCore(cfg, s, Paced(1, 0, 0, 0));
    hide Step;
  }

  lemma SevenCalls(cfg: Config, s: State, ts: seq<Tick>)
    requires Valid(cfg, s) && ValidTicks(cfg, ts) && |ts| == 7
    ensures After(cfg, s, ts, 7) == Step(cfg, Step(cfg, Step(cfg, Step(cfg, Step(cfg, Step(cfg, Step(cfg,
      s, ts[0]), ts[1]), ts[2]), ts[3]), ts[4]), ts[5]), ts[6])
  {
    hide Step;
    assert After(cfg, s, ts, 1) == Step(cfg, s, ts[0]);
    assert After(cfg, s, ts, 2) == Step(cfg, After(cfg, s, ts, 1), ts[1]);
    assert After(cfg, s, ts, 3) == Step(cfg, After(cfg, s, ts, 2), ts[2]);
    assert After(cfg, s, ts, 4) == Step(cfg, After(cfg, s, ts, 3), ts[3]);
    assert After(cfg, s, ts, 5) == Step(cfg, After(cfg, s, ts, 4), ts[4]);
    assert After(cfg, s, ts, 6) == Step(cfg, After(cfg, s, ts, 5), ts[5]);
  }

  // ----- One-second ticks -----

  const SECONDS := 1_000_000_000

  /** The k-th call of a core that runs ten million cycles a second. */
  function Slow(k: nat): Tick
    requires k < SECONDS
  {
    Tick(0, 1 + 1_000_000_000 * k, 10_000_000 * k, 0, 1, 0)
  }

  ghost predicate SlowAfter(s: State, k: nat) {
    && |s.cores| == 4 && s.modules == [Module(0, NotStarted, k)]
    && s.cores[0].cycles == 10_000_000 * k && s.cores[0].timeOld == 1 + 1_000_000_000 * k && s.cores[0].idle == k
  }

  lemma SlowVerdict(s: State, k: nat)
    requires k + 1 < SECONDS && SlowAfter(s, k)
    ensures ActivityOf(s, Slow(k + 1)) == Idle
  {
    hide Sub64;
    var t := Slow(k + 1);
    var c := PmuUpdate(s.cores[0], t.cycles, t.instr);
    SubExact(t.cycles, s.cores[0].cycles);
    SubExact(t.now, s.cores[0].timeOld);
    assert CycleDelta(c) == 10_000_000 && Elapsed(c, t.now) == 1000;
    VerdictIff(c, t.now);
  }

  function SlowRun(n: nat): (r: State)
    requires n <= SECONDS
    ensures Valid(Machine(ALONE), r)
  {
    if n == 0 then
      AtLoadIsLoaded(ALONE);
      AtLoad()
    else Step(Machine(ALONE), SlowRun(n - 1), Slow(n - 1))
  }

  /** From module load, at the module's own one-second ticks, a core that runs ten thousand cycles a
      millisecond is idle in every call after the first: it never leads, and the module never starts
      its scan. */
  lemma {:induction false} SlowCoreStaysIdle(n: nat)
    requires 1 <= n <= SECONDS
    ensures Loaded(Machine(ALONE), AtLoad()) && SlowAfter(SlowRun(n), n - 1)
  {
    hide Step, SlowRun, SlowAfter, Slow;
    AtLoadIsLoaded(ALONE);
    SlowRunNext(n - 1);
    if n == 1 {
      SlowSeed();
    } else {
      SlowCoreStaysIdle(n - 1);
      SlowStep(SlowRun(n - 1), n - 2);
    }
  }

  lemma SlowRunNext(n: nat)
    requires n < SECONDS
    ensures SlowRun(n + 1) == Step(Machine(ALONE), SlowRun(n), Slow(n)) && SlowRun(0) == AtLoad()
  {
    hide Step;
  }

  lemma SlowSeed()
    requires Valid(Machine(ALONE), AtLoad())
    ensures SlowAfter(Step(Machine(ALONE), AtLoad(), Slow(0)), 0)
  {
    FirstCall(Machine(ALONE), AtLoad(), Slow(0));
    hide Step;
  }

  lemma SlowStep(s: State, k: nat)
    requires Valid(Machine(ALONE), s) && k + 1 < SECONDS && SlowAfter(s, k)
    ensures SlowAfter(Step(Machine(ALONE), s, Slow(k + 1)), k + 1)
  {
    hide Step, ActivityOf, Scans, Leads, FirstEnabled;
    var cfg, t := Machine(ALONE), Slow(k + 1);
    SlowVerdict(s, k);
    StepOwnCore(cfg, s, t);
    FirstIsZero();
    NotLeading(cfg, s, t);
    StepModule(cfg, s, t);
  }

  lemma NotLeading(cfg: Config, s: State, t: Tick)
    requires Valid(cfg, s) && ValidTick(cfg, t) && ActivityOf(s, t) == Idle
    ensures !Scans(cfg, s, t)
  {
  }

  lemma FirstIsZero()
    ensures FirstEnabled(Machine(ALONE), 0, 4) == 0
  {
  }
}
