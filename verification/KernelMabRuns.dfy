/** What every run of the kernel bandit keeps, whatever the order of calls and requests. */
module KernelMabRuns {
  import opened Words
  import opened KernelMab

  // ----- Effect of one call -----

  /** What a call does to the counters, clock and idle count of its own core. */
  lemma StepOwnCore(cfg: Config, s: State, t: Tick)
    requires Valid(cfg, s) && ValidTick(cfg, t)
    ensures var o, n := s.cores[t.core], Step(cfg, s, t).cores[t.core];
      && n.cycles == t.cycles && n.cyclesOld == o.cycles && n.timeOld == t.now
      && n.instr == t.instr && n.instrOld == o.instr
      && n.idle == match ActivityOf(s, t)
                   case Unknown => o.idle
                   case Idle => o.idle + 1
                   case Active => 0
  {
    hide InitStep, Tuning, TouchesOnly, ArmPending, CoresTouched, Leader;
  }

  lemma TuningModule(cfg: Config, w: State, t: Tick)
    requires Valid(cfg, w) && ValidTick(cfg, t)
    ensures var m, r := cfg.ModuleOf(t.core), Tuning(cfg, w, t);
      r.modules[m] == w.modules[m].(activeArm := r.modules[m].activeArm)
  {
  }

  lemma InitStepModule(cfg: Config, w: State, c: nat)
    requires Valid(cfg, w) && c < |cfg.enabled| && cfg.enabled[c]
    ensures var m := cfg.ModuleOf(c);
      var o, n := w.modules[m], InitStep(cfg, w, c).modules[m];
      && n.idle == o.idle
      && (o.init == NotStarted ==> n.init == InProgress && n.activeArm == 0)
      && (o.init == InProgress ==>
            if o.activeArm + 1 < |cfg.arms| then n.init == InProgress && n.activeArm == o.activeArm + 1
            else n.init == Done)
  {
  }

  /** What a call does to the scan state and idle count of its module. */
  lemma StepModule(cfg: Config, s: State, t: Tick)
    requires Valid(cfg, s) && ValidTick(cfg, t)
    ensures var m, e := cfg.ModuleOf(t.core), Work(t);
      var o, n, k := s.modules[m], Step(cfg, s, t).modules[m], |cfg.arms|;
      && (ActiveVerdict(cfg, s, e, m) ==> n.idle == 0)
      && (IdleVerdict(cfg, s, e, m) ==> n.idle == o.idle + 1)
      && (!ActiveVerdict(cfg, s, e, m) && !IdleVerdict(cfg, s, e, m) ==> n == o)
      && (Resets(cfg, s, e, m) ==> n.init == NotStarted)
      && (!Resets(cfg, s, e, m) && !ScanCall(cfg, s, e, m) ==> n.init == o.init)
      && (o.init != Done && !ScanCall(cfg, s, e, m) ==> n.activeArm == o.activeArm)
      && (ScanCall(cfg, s, e, m) && o.init == NotStarted ==> n.init == InProgress && n.activeArm == 0)
      && (ScanCall(cfg, s, e, m) && o.init == InProgress ==>
            if o.activeArm + 1 < k then n.init == InProgress && n.activeArm == o.activeArm + 1 else n.init == Done)
  {
    hide InitStep, Tuning, TouchesOnly, ArmPending;
    var w := Woken(cfg, Sampled(cfg, s, t), t.core);
    TuningModule(cfg, w, t);
    InitStepModule(cfg, w, t.core);
  }

  // ----- Events and runs -----

  /** Besides the per-core calls, requests may reload shadow registers, take a counter reading,
      or clear the readings of all enabled cores. */
  datatype Event =
    | Work(tick: Tick)
    | LoadShadow(core: nat, regs: Bank)
    | ReadCounters(core: nat, cycles: u64, instr: u64)
    | ClearCounters

  ghost predicate ValidEvent(cfg: Config, e: Event) {
    match e
    case Work(t) => ValidTick(cfg, t)
    case LoadShadow(c, _) => c < |cfg.enabled|
    case ReadCounters(c, _, _) => c < |cfg.enabled|
    case ClearCounters => true
  }

  function React(cfg: Config, s: State, e: Event): (r: State)
    requires Valid(cfg, s) && ValidEvent(cfg, e)
    ensures Valid(cfg, r)
  {
    match e
    case Work(t) => Step(cfg, s, t)
    case LoadShadow(c, regs) => s.(cores := s.cores[c := s.cores[c].(shadow := regs)])
    case ReadCounters(c, cycles, instr) => s.(cores := s.cores[c := PmuUpdate(s.cores[c], cycles, instr)])
    case ClearCounters =>
      s.(cores := seq(|s.cores|, c requires 0 <= c < |s.cores| && |s.cores| == |cfg.enabled| =>
        if cfg.enabled[c] then s.cores[c].(cycles := 0, instr := 0) else s.cores[c]))
  }

  /** `ss` are the states a run goes through while the events `es` happen. */
  ghost predicate IsRun(cfg: Config, ss: seq<State>, es: seq<Event>) {
    && |ss| == |es| + 1
    && (forall i :: 0 <= i < |ss| ==> Valid(cfg, ss[i]))
    && (forall i :: 0 <= i < |es| ==> ValidEvent(cfg, es[i]))
    && (forall i :: 0 <= i < |es| ==> ss[i + 1] == React(cfg, ss[i], es[i]))
  }

  // ----- Hardware follows the active arm -----

  ghost predicate InSync(cfg: Config, s: State)
    requires Valid(cfg, s)
  {
    && (forall c :: 0 <= c < |s.cores| ==> !s.cores[c].dirty)
    && (forall m :: 0 <= m < cfg.modules ==> s.hw[m] == cfg.arms[s.modules[m].activeArm])
  }

  /** A core that does not lead leaves the module's arm and its own dirty flag alone. */
  lemma FollowerKeepsInSync(cfg: Config, s: State, t: Tick)
    requires Valid(cfg, s) && ValidTick(cfg, t) && Leader(cfg, s, cfg.ModuleOf(t.core)) != t.core && InSync(cfg, s)
    ensures InSync(cfg, Tuning(cfg, s, t))
  {
    hide Leader, TouchesOnly, ArmPending;
  }

  lemma WakingKeepsInSync(cfg: Config, s: State, c: nat)
    requires Valid(cfg, s) && c < |cfg.enabled| && cfg.enabled[c] && InSync(cfg, s)
    ensures InSync(cfg, Woken(cfg, s, c))
  {
  }

  lemma FlushKeepsInSync(cfg: Config, s: State, d: State, c: nat)
    requires Valid(cfg, s) && Valid(cfg, d) && c < |cfg.enabled| && cfg.enabled[c]
    requires InSync(cfg, s) && TouchesOnly(cfg, s, d, c) && ArmPending(cfg, s, d, c)
    ensures InSync(cfg, if d.cores[c].dirty then MsrUpdate(cfg, d, c) else d)
  {
  }

  lemma ActiveStepKeepsInSync(cfg: Config, s: State, t: Tick)
    requires Valid(cfg, s) && ValidTick(cfg, t) && InSync(cfg, s)
    ensures InSync(cfg, ActiveStep(cfg, s, t))
  {
    hide Tuning, InitStep, TouchesOnly, CoresTouched, ArmPending, MsrUpdate, Leader, Woken, InSync, SameMeters;
    WakingKeepsInSync(cfg, s, t.core);
    var w, m := Woken(cfg, s, t.core), cfg.ModuleOf(t.core);
    if Leader(cfg, w, m) == t.core {
      FlushKeepsInSync(cfg, w, Decide(cfg, w, t), t.core);
    } else if w.modules[m].init == Done {
      FollowerKeepsInSync(cfg, w, t);
    }
  }

  lemma StepKeepsInSync(cfg: Config, s: State, t: Tick)
    requires Valid(cfg, s) && ValidTick(cfg, t) && InSync(cfg, s)
    ensures InSync(cfg, Step(cfg, s, t))
  {
    ActiveStepKeepsInSync(cfg, Sampled(cfg, s, t), t);
  }

  /** In every state between calls, from module load on, no shadow write is pending and the
      registers of every module hold the configuration of its active arm. */
  lemma {:induction false} RegistersFollowActiveArm(cfg: Config, ss: seq<State>, es: seq<Event>, n: nat)
    requires IsRun(cfg, ss, es) && Loaded(cfg, ss[0]) && n < |ss|
    ensures InSync(cfg, ss[n])
  {
    hide Step;
    if n > 0 {
      RegistersFollowActiveArm(cfg, ss, es, n - 1);
      if es[n - 1].Work? {
        StepKeepsInSync(cfg, ss[n - 1], es[n - 1].tick);
      }
      assert ss[n] == React(cfg, ss[n - 1], es[n - 1]);
    }
  }

  // ----- Verdicts -----

  /** The first enabled core of module m has an idle verdict. */
  predicate IdleVerdict(cfg: Config, s: State, e: Event, m: nat)
    requires Valid(cfg, s) && ValidEvent(cfg, e) && m < cfg.modules
  {
    && e.Work? && ActivityOf(s, e.tick) == Idle
    && e.tick.core == FirstEnabled(cfg, cfg.Start(m), cfg.Start(m) + CORES_PER_MODULE)
  }

  /** Some core of module m has an active verdict. */
  predicate ActiveVerdict(cfg: Config, s: State, e: Event, m: nat)
    requires Valid(cfg, s) && ValidEvent(cfg, e)
  {
    e.Work? && ActivityOf(s, e.tick) == Active && cfg.ModuleOf(e.tick.core) == m
  }

  /** The call sends module m back to the start of its scan. */
  predicate Resets(cfg: Config, s: State, e: Event, m: nat)
    requires Valid(cfg, s) && ValidEvent(cfg, e) && m < cfg.modules
  {
    IdleVerdict(cfg, s, e, m) && s.modules[m].idle + 1 > IDLE_THRESHOLD
  }

  /** A leader call of module m while the module is still scanning. */
  predicate ScanCall(cfg: Config, s: State, e: Event, m: nat)
    requires Valid(cfg, s) && ValidEvent(cfg, e)
  {
    e.Work? && cfg.ModuleOf(e.tick.core) == m && Scans(cfg, s, e.tick)
  }

  // ----- Length and order of the arm scan -----

  ghost predicate NoReset(cfg: Config, ss: seq<State>, es: seq<Event>, m: nat)
    requires IsRun(cfg, ss, es) && m < cfg.modules
  {
    forall i :: 0 <= i < |es| ==> !Resets(cfg, ss[i], es[i], m)
  }

  /** Number of scan calls of module m among the first n events of a run. */
  ghost function ScanCalls(cfg: Config, ss: seq<State>, es: seq<Event>, m: nat, n: nat): nat
    requires IsRun(cfg, ss, es) && n <= |es|
  {
    if n == 0 then 0
    else ScanCalls(cfg, ss, es, m, n - 1) + if ScanCall(cfg, ss[n - 1], es[n - 1], m) then 1 else 0
  }

  /** How any event acts on the scan state of any module. */
  lemma ReactModule(cfg: Config, s: State, e: Event, m: nat)
    requires Valid(cfg, s) && ValidEvent(cfg, e) && m < cfg.modules
    ensures var o, n, k := s.modules[m], React(cfg, s, e).modules[m], |cfg.arms|;
      && (ActiveVerdict(cfg, s, e, m) ==> n.idle == 0)
      && (IdleVerdict(cfg, s, e, m) ==> n.idle == o.idle + 1)
      && (!ActiveVerdict(cfg, s, e, m) && !IdleVerdict(cfg, s, e, m) ==> n == o)
      && (!Resets(cfg, s, e, m) && !ScanCall(cfg, s, e, m) ==> n.init == o.init)
      && (o.init != Done && !ScanCall(cfg, s, e, m) ==> n.activeArm == o.activeArm)
      && (ScanCall(cfg, s, e, m) && o.init == NotStarted ==> n.init == InProgress && n.activeArm == 0)
      && (ScanCall(cfg, s, e, m) && o.init == InProgress ==>
            if o.activeArm + 1 < k then n.init == InProgress && n.activeArm == o.activeArm + 1 else n.init == Done)
  {
    hide Step;
    if e.Work? {
      StepModule(cfg, s, e.tick);
      if IdleVerdict(cfg, s, e, m) {
        assert cfg.ModuleOf(e.tick.core) == m;
      }
    }
  }

  /** Starting from NotStarted and without an idle reset, a scan is exactly K + 1 leader calls,
      and after the c-th of the first K it runs arm c - 1. */
  lemma {:induction false} ScanTriesArmsInOrder(cfg: Config, ss: seq<State>, es: seq<Event>, m: nat, n: nat)
    requires IsRun(cfg, ss, es) && m < cfg.modules && n <= |es|
    requires ss[0].modules[m].init == NotStarted && NoReset(cfg, ss, es, m)
    ensures var c, mod, k := ScanCalls(cfg, ss, es, m, n), ss[n].modules[m], |cfg.arms|;
      && c <= k + 1
      && (mod.init == NotStarted <==> c == 0)
      && (mod.init == InProgress <==> 1 <= c <= k)
      && (mod.init == Done <==> c == k + 1)
      && (1 <= c <= k ==> mod.activeArm == c - 1)
  {
    hide React, Leads;
    if n > 0 {
      ScanTriesArmsInOrder(cfg, ss, es, m, n - 1);
      ReactModule(cfg, ss[n - 1], es[n - 1], m);
      assert ss[n - 1 + 1] == React(cfg, ss[n - 1], es[n - 1]);
      assert !Resets(cfg, ss[n - 1], es[n - 1], m);
    }
  }

  // ----- When a module is reset -----

  ghost predicate NoActive(cfg: Config, ss: seq<State>, es: seq<Event>, m: nat, k: nat, n: nat)
    requires IsRun(cfg, ss, es) && n <= |es|
  {
    forall i :: k <= i < n ==> !ActiveVerdict(cfg, ss[i], es[i], m)
  }

  /** Idle verdicts of the first enabled core of module m at positions k..n. */
  ghost function IdleVerdicts(cfg: Config, ss: seq<State>, es: seq<Event>, m: nat, k: nat, n: nat): nat
    requires IsRun(cfg, ss, es) && m < cfg.modules && n <= |es|
  {
    if n <= k then 0
    else IdleVerdicts(cfg, ss, es, m, k, n - 1) + if IdleVerdict(cfg, ss[n - 1], es[n - 1], m) then 1 else 0
  }

  /** The module's idle count is the number of idle verdicts of its first enabled core since the
      last active verdict in the module: no quiet stretch has more, and one (from k) has as many. */
  lemma {:induction false} IdleCountIsQuietStretch(cfg: Config, ss: seq<State>, es: seq<Event>, m: nat, n: nat)
    returns (k: nat)
    requires IsRun(cfg, ss, es) && m < cfg.modules && n <= |es| && ss[0].modules[m].idle == 0
    ensures k <= n && NoActive(cfg, ss, es, m, k, n)
    ensures IdleVerdicts(cfg, ss, es, m, k, n) == ss[n].modules[m].idle
    ensures forall j :: 0 <= j <= n && NoActive(cfg, ss, es, m, j, n) ==>
      IdleVerdicts(cfg, ss, es, m, j, n) <= ss[n].modules[m].idle
  {
    hide React, ActivityOf;
    k := 0;
    if n > 0 {
      k := IdleCountIsQuietStretch(cfg, ss, es, m, n - 1);
      var s, e := ss[n - 1], es[n - 1];
      ReactModule(cfg, s, e, m);
      assert ss[n - 1 + 1] == React(cfg, s, e);
      forall j | 0 <= j < n && NoActive(cfg, ss, es, m, j, n)
        ensures NoActive(cfg, ss, es, m, j, n - 1) && !ActiveVerdict(cfg, s, e, m)
      {
      }
      if ActiveVerdict(cfg, s, e, m) {
        k := n;
      }
    }
  }

  /** A call resets a module exactly when it is an idle verdict of the module's first enabled
      core that follows five others with no active verdict in the module in between. */
  lemma ResetIffSixQuietVerdicts(cfg: Config, ss: seq<State>, es: seq<Event>, m: nat, n: nat)
    requires IsRun(cfg, ss, es) && m < cfg.modules && n < |es| && ss[0].modules[m].idle == 0
    ensures Resets(cfg, ss[n], es[n], m) <==>
      && IdleVerdict(cfg, ss[n], es[n], m)
      && exists k :: 0 <= k <= n && NoActive(cfg, ss, es, m, k, n)
                     && IdleVerdicts(cfg, ss, es, m, k, n) >= 5
  {
    var k := IdleCountIsQuietStretch(cfg, ss, es, m, n);
  }

  // ----- The result of a scan with one leader -----

  ghost predicate LowestMaximum(scores: seq<u32>, r: nat) {
    && r < |scores|
    && (forall j :: 0 <= j < |scores| ==> scores[j] <= scores[r])
    && (forall j :: 0 <= j < r ==> scores[j] < scores[r])
  }

  lemma {:induction false} BestFromIsLowestMaximum(scores: seq<u32>, best: nat, i: nat)
    requires best < i <= |scores| && LowestMaximum(scores[..i], best)
    ensures LowestMaximum(scores, BestFrom(scores, best, i))
    decreases |scores| - i
  {
    if i == |scores| {
      assert scores[..i] == scores;
    } else {
      assert scores[..i + 1] == scores[..i] + [scores[i]];
      BestFromIsLowestMaximum(scores, if scores[i] > scores[best] then i else best, i + 1);
    }
  }

  /** Every scan call of module m in the run is made by `leader`. */
  ghost predicate LedBy(cfg: Config, ss: seq<State>, es: seq<Event>, m: nat, leader: nat)
    requires IsRun(cfg, ss, es)
  {
    forall i :: 0 <= i < |es| ==> (ScanCall(cfg, ss[i], es[i], m) ==> es[i].tick.core == leader)
  }

  /** The average of the running arm over the counting cores, from scores taken in this call. */
  function Average(cfg: Config, s: State, t: Tick): u32
    requires Valid(cfg, s) && ValidTick(cfg, t)
  {
    var w := Woken(cfg, Sampled(cfg, s, t), t.core);
    var m := cfg.ModuleOf(t.core);
    var arm := w.modules[m].activeArm;
    ModuleScore(cfg, RecordScores(cfg, w.cores, arm, cfg.Start(m), cfg.Start(m) + CORES_PER_MODULE), m, arm)
  }

  /** The averages computed by the scan calls of module m among the first n events, in order. */
  ghost function Averages(cfg: Config, ss: seq<State>, es: seq<Event>, m: nat, n: nat): seq<u32>
    requires IsRun(cfg, ss, es) && m < cfg.modules && n <= |es|
  {
    if n == 0 then []
    else
      Averages(cfg, ss, es, m, n - 1) +
      if ScanCall(cfg, ss[n - 1], es[n - 1], m) && ss[n - 1].modules[m].init == InProgress
      then [Average(cfg, ss[n - 1], es[n - 1].tick)] else []
  }

  lemma InitStepScores(cfg: Config, w: State, c: nat)
    requires Valid(cfg, w) && c < |cfg.enabled| && cfg.enabled[c]
    ensures var m, r := cfg.ModuleOf(c), InitStep(cfg, w, c);
      var o, n := w.modules[m], w.cores[c].score;
      && (o.init == NotStarted ==> r.cores[c].score == n && r.modules[m].init == InProgress)
      && (o.init != NotStarted ==>
            var recorded := RecordScores(cfg, w.cores, o.activeArm, cfg.Start(m), cfg.Start(m) + CORES_PER_MODULE);
            r.cores[c].score == n[o.activeArm := ModuleScore(cfg, recorded, m, o.activeArm)])
      && (o.init != Done && r.modules[m].init == Done ==> r.modules[m].activeArm == BestFrom(r.cores[c].score, 0, 1))
  {
    hide RecordScores, ModuleScore, TouchesOnly, ArmPending, ZeroDivisor, SameMeters;
  }

  /** A scan call stores its average at the leader, in the slot of the arm that ran, leaves the
      leader's other slots alone, and ends the scan on the best slot. */
  lemma ScanCallScores(cfg: Config, s: State, t: Tick)
    requires Valid(cfg, s) && ValidTick(cfg, t) && Scans(cfg, s, t)
    ensures var m := cfg.ModuleOf(t.core);
      var o, n, r := s.modules[m], s.cores[t.core].score, Step(cfg, s, t);
      && (o.init == NotStarted ==> r.cores[t.core].score == n)
      && (o.init == InProgress ==> r.cores[t.core].score == n[o.activeArm := Average(cfg, s, t)])
      && (r.modules[m].init == Done ==> r.modules[m].activeArm == BestFrom(r.cores[t.core].score, 0, 1))
  {
    hide InitStep, Tuning, RecordScores, ModuleScore, TouchesOnly, ArmPending;
    var w := Woken(cfg, Sampled(cfg, s, t), t.core);
    InitStepScores(cfg, w, t.core);
    var d := InitStep(cfg, w, t.core);
    assert Step(cfg, s, t) == if d.cores[t.core].dirty then MsrUpdate(cfg, d, t.core) else d;
  }

  /** Nothing else writes scores of a module that has not finished its scan. */
  lemma OtherEventScores(cfg: Config, s: State, e: Event, c: nat)
    requires Valid(cfg, s) && ValidEvent(cfg, e) && c < |s.cores| && cfg.InRange(c)
    requires s.modules[cfg.ModuleOf(c)].init != Done && !ScanCall(cfg, s, e, cfg.ModuleOf(c))
    ensures React(cfg, s, e).cores[c].score == s.cores[c].score
  {
    hide InitStep, Tuning;
    if e.Work? && cfg.ModuleOf(e.tick.core) != cfg.ModuleOf(c) {
      assert TouchesOnly(cfg, s, Step(cfg, s, e.tick), e.tick.core);
    }
  }

  /** While a scan led by one core is in progress, the leader's score table holds the averages
      recorded so far. */
  lemma {:induction false} ScanRecordsAverages(
    cfg: Config, ss: seq<State>, es: seq<Event>, m: nat, leader: nat, n: nat)
    requires IsRun(cfg, ss, es) && m < cfg.modules && n <= |es|
    requires ss[0].modules[m].init == NotStarted && NoReset(cfg, ss, es, m)
    requires leader < |cfg.enabled| && cfg.InRange(leader) && cfg.ModuleOf(leader) == m
    requires LedBy(cfg, ss, es, m, leader)
    ensures var c, avg := ScanCalls(cfg, ss, es, m, n), Averages(cfg, ss, es, m, n);
      && |avg| == (if c == 0 then 0 else c - 1) <= |cfg.arms|
      && (c <= |cfg.arms| ==> ss[n].cores[leader].score[..|avg|] == avg)
  {
    hide Step, Average, TouchesOnly, Leads;
    ScanTriesArmsInOrder(cfg, ss, es, m, n);
    if n > 0 {
      var s, e := ss[n - 1], es[n - 1];
      ScanRecordsAverages(cfg, ss, es, m, leader, n - 1);
      ScanTriesArmsInOrder(cfg, ss, es, m, n - 1);
      assert ss[n - 1 + 1] == React(cfg, s, e);
      if s.modules[m].init != Done {
        if ScanCall(cfg, s, e, m) {
          ScanCallScores(cfg, s, e.tick);
        } else {
          OtherEventScores(cfg, s, e, leader);
        }
      }
    }
  }

  /** If one core leads all K + 1 calls, the call that completes the scan selects the
      lowest-index maximum of the K recorded module averages. */
  lemma ScanSelectsBestAverage(cfg: Config, ss: seq<State>, es: seq<Event>, m: nat, n: nat)
    requires IsRun(cfg, ss, es) && m < cfg.modules && n < |es|
    requires ss[0].modules[m].init == NotStarted && NoReset(cfg, ss, es, m)
    requires ScanCall(cfg, ss[n], es[n], m) && LedBy(cfg, ss, es, m, es[n].tick.core)
    requires ScanCalls(cfg, ss, es, m, n) == |cfg.arms|
    ensures ss[n + 1].modules[m].init == Done
    ensures |Averages(cfg, ss, es, m, n + 1)| == |cfg.arms|
    ensures LowestMaximum(Averages(cfg, ss, es, m, n + 1), ss[n + 1].modules[m].activeArm)
  {
    hide Step, Average, TouchesOnly, Leads;
    var s, t := ss[n], es[n].tick;
    ScanTriesArmsInOrder(cfg, ss, es, m, n);
    ScanTriesArmsInOrder(cfg, ss, es, m, n + 1);
    ScanRecordsAverages(cfg, ss, es, m, t.core, n);
    ScanCallScores(cfg, s, t);
    var final := ss[n + 1].cores[t.core].score;
    assert final == Averages(cfg, ss, es, m, n) + [Average(cfg, s, t)];
    BestFromIsLowestMaximum(final, 0, 1);
  }
}
