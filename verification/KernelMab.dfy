/**
  The in-kernel bandit: one state machine per four-core module, driven by one call of
  the per-core work function per enabled core and tick.

  Everything here is a function from state to state; the class in KernelMabDriver updates
  the same state in place and is proved to compute these functions.
 */
module KernelMab {
  import opened Words

  const CORES_PER_MODULE := 4
  const IDLE_THRESHOLD := 5
  const IDLE_CYCLES_PER_MS := 500_000
  const NS_PER_MS := 1_000_000
  const CYCLE_SCALE := 1024  // a right shift by SHIFT_B = 10

  /** The seven prefetcher registers 0x1320..0x1324, 0x1327, 0x1A4, in table order. */
  type Bank = b: seq<u64> | |b| == 7 witness [0, 0, 0, 0, 0, 0, 0]

  /** What stays fixed for a run: the first core, which cores are enabled, the number of
      modules covered by the range, and one register bank per available arm. */
  datatype Config = Config(first: nat, enabled: seq<bool>, modules: nat, arms: seq<Bank>) {
    ghost predicate Valid() {
      && 2 <= |arms| <= 10
      && first + CORES_PER_MODULE * modules <= |enabled|
      && forall c :: 0 <= c < |enabled| && enabled[c] ==> InRange(c)
    }

    predicate InRange(c: int) {
      first <= c < first + CORES_PER_MODULE * modules
    }

    function ModuleOf(c: nat): nat
      requires InRange(c)
    {
      (c - first) / CORES_PER_MODULE
    }

    function Start(m: nat): nat {
      first + CORES_PER_MODULE * m
    }
  }

  /** Per-core state: the two counters the bandit uses with their previous readings, the
      shadow registers with their dirty flag, and the bandit's own per-core record. */
  datatype Core = Core(
    cycles: u64, cyclesOld: u64, instr: u64, instrOld: u64,
    shadow: Bank, dirty: bool,
    score: seq<u32>, lastScore: seq<u32>, idle: nat, timeOld: u64)

  datatype InitState = NotStarted | InProgress | Done

  datatype Module = Module(activeArm: nat, init: InitState, idle: nat)

  /** `hw` is the register bank each module's cores share; `fault` records a division by zero. */
  datatype State = State(cores: seq<Core>, modules: seq<Module>, hw: seq<Bank>, fault: bool)

  /** One call of the per-core work function: where it runs, what it reads from the clock and
      the counters, the aggressiveness in force, and the stack residue in the slot of the
      score table that belongs to the running arm. */
  datatype Tick = Tick(core: nat, now: u64, cycles: u64, instr: u64, aggr: u32, residue: u32)

  datatype Activity = Unknown | Idle | Active

  ghost predicate ValidCore(cfg: Config, c: Core) {
    |c.score| == |cfg.arms| && |c.lastScore| == |cfg.arms|
  }

  ghost predicate ValidCores(cfg: Config, cores: seq<Core>) {
    && cfg.Valid()
    && |cores| == |cfg.enabled|
    && forall c :: 0 <= c < |cores| ==> ValidCore(cfg, cores[c])
  }

  ghost predicate Valid(cfg: Config, s: State) {
    && ValidCores(cfg, s.cores)
    && |s.modules| == cfg.modules && |s.hw| == cfg.modules
    && (forall m :: 0 <= m < |s.modules| ==> s.modules[m].activeArm < |cfg.arms|)
  }

  ghost predicate ValidTick(cfg: Config, t: Tick) {
    t.core < |cfg.enabled| && cfg.enabled[t.core]
  }

  /** From a to b, core c has changed no core outside its module, and of the other cores in the
      module only their scores. */
  ghost predicate CoresTouched(cfg: Config, a: seq<Core>, b: seq<Core>, c: nat)
    requires ValidCores(cfg, a) && ValidCores(cfg, b) && c < |cfg.enabled| && cfg.enabled[c]
  {
    var m := cfg.ModuleOf(c);
    && (forall i :: 0 <= i < |a| && i != c ==> b[i] == a[i].(score := b[i].score))
    && (forall i :: 0 <= i < |a| && !(cfg.Start(m) <= i < cfg.Start(m) + CORES_PER_MODULE) ==> b[i] == a[i])
  }

  /** From s to r, core c has changed nothing outside its module, and of the other cores in the
      module only their scores. */
  ghost predicate TouchesOnly(cfg: Config, s: State, r: State, c: nat)
    requires Valid(cfg, s) && Valid(cfg, r) && c < |cfg.enabled| && cfg.enabled[c]
  {
    var m := cfg.ModuleOf(c);
    && (forall n :: 0 <= n < cfg.modules && n != m ==> r.modules[n] == s.modules[n])
    && (forall n :: 0 <= n < cfg.modules && n != m ==> r.hw[n] == s.hw[n])
    && CoresTouched(cfg, s.cores, r.cores, c)
  }

  /** Counters, clock and idle count are the same. */
  ghost predicate SameMeters(a: Core, b: Core) {
    && a.cycles == b.cycles && a.cyclesOld == b.cyclesOld
    && a.instr == b.instr && a.instrOld == b.instrOld
    && a.idle == b.idle && a.timeOld == b.timeOld
  }

  /** Core c either kept its module's arm and left no new write pending, or holds the new arm's
      configuration in its shadow registers, marked for writing. */
  ghost predicate ArmPending(cfg: Config, s: State, r: State, c: nat)
    requires Valid(cfg, s) && Valid(cfg, r) && c < |cfg.enabled| && cfg.enabled[c]
  {
    var m := cfg.ModuleOf(c);
    && r.hw == s.hw
    && ( || (r.modules[m].activeArm == s.modules[m].activeArm && r.cores[c].dirty == s.cores[c].dirty)
         || (r.cores[c].dirty && r.cores[c].shadow == cfg.arms[r.modules[m].activeArm]))
  }

  // ----- Scans over the four slots of a module -----

  /** A core takes part in elections and averages when it is enabled and not idle. */
  predicate Counts(cfg: Config, cores: seq<Core>, i: nat)
    requires i < |cfg.enabled| == |cores|
  {
    cfg.enabled[i] && cores[i].idle == 0
  }

  /** First enabled core in [i, end), or -1. */
  function FirstEnabled(cfg: Config, i: nat, end: nat): (r: int)
    requires i <= end <= |cfg.enabled|
    ensures r == -1 <==> forall j :: i <= j < end ==> !cfg.enabled[j]
    ensures r != -1 ==> i <= r < end && cfg.enabled[r] && forall j :: i <= j < r ==> !cfg.enabled[j]
    decreases end - i
  {
    if i == end then -1
    else if cfg.enabled[i] then i
    else FirstEnabled(cfg, i + 1, end)
  }

  /** First enabled, non-idle core in [i, end), or -1: the leader of a module. */
  function FirstActive(cfg: Config, cores: seq<Core>, i: nat, end: nat): (r: int)
    requires i <= end <= |cfg.enabled| == |cores|
    ensures r == -1 <==> forall j :: i <= j < end ==> !Counts(cfg, cores, j)
    ensures r != -1 ==>
      i <= r < end && Counts(cfg, cores, r) && forall j :: i <= j < r ==> !Counts(cfg, cores, j)
    decreases end - i
  {
    if i == end then -1
    else if Counts(cfg, cores, i) then i
    else FirstActive(cfg, cores, i + 1, end)
  }

  function ScoreCount(cfg: Config, cores: seq<Core>, i: nat, end: nat): nat
    requires i <= end <= |cfg.enabled| == |cores|
    decreases end - i
  {
    if i == end then 0
    else (if Counts(cfg, cores, i) then 1 else 0) + ScoreCount(cfg, cores, i + 1, end)
  }

  function ScoreSum(cfg: Config, cores: seq<Core>, arm: nat, i: nat, end: nat): (r: nat)
    requires ValidCores(cfg, cores) && arm < |cfg.arms| && i <= end <= |cores|
    ensures r <= ScoreCount(cfg, cores, i, end) * (U32_SIZE - 1)
    decreases end - i
  {
    if i == end then 0
    else (if Counts(cfg, cores, i) then cores[i].score[arm] else 0) + ScoreSum(cfg, cores, arm, i + 1, end)
  }

  /** Average score of one arm over the counting cores of a module; 0 when there are none.
      The average of 32-bit scores is a 32-bit value, so the final cast loses nothing. */
  function ModuleScore(cfg: Config, cores: seq<Core>, m: nat, arm: nat): u32
    requires ValidCores(cfg, cores) && m < cfg.modules && arm < |cfg.arms|
  {
    var i := cfg.Start(m);
    var count := ScoreCount(cfg, cores, i, i + CORES_PER_MODULE);
    var sum := ScoreSum(cfg, cores, arm, i, i + CORES_PER_MODULE);
    if count == 0 then 0 else
      AverageIsWord(sum, count);
      sum / count
  }

  lemma AverageIsWord(sum: nat, count: nat)
    requires count > 0 && sum <= count * (U32_SIZE - 1)
    ensures 0 <= sum / count < U32_SIZE
  {
  }

  // ----- Scoring -----

  function CycleDelta(c: Core): u64 {
    Sub64(c.cycles, c.cyclesOld)
  }

  /** The divisor of the score: cycles since the last reading, scaled. */
  function Divisor(c: Core): nat {
    CycleDelta(c) / CYCLE_SCALE
  }

  function ComputeScore(c: Core): u32 {
    if Divisor(c) == 0 then 0 else (Sub64(c.instr, c.instrOld) / Divisor(c)) % U32_SIZE
  }

  /** The scan step stores a fresh score of `arm` in every counting core of [i, end). */
  function RecordScores(cfg: Config, cores: seq<Core>, arm: nat, i: nat, end: nat): (r: seq<Core>)
    requires ValidCores(cfg, cores) && arm < |cfg.arms| && i <= end <= |cores|
    ensures ValidCores(cfg, r)
    ensures forall c :: 0 <= c < |cores| ==>
      r[c] == if i <= c < end && Counts(cfg, cores, c)
              then cores[c].(score := cores[c].score[arm := ComputeScore(cores[c])])
              else cores[c]
    decreases end - i
  {
    if i == end then cores
    else
      var next := if Counts(cfg, cores, i)
                  then cores[i := cores[i].(score := cores[i].score[arm := ComputeScore(cores[i])])]
                  else cores;
      RecordScores(cfg, next, arm, i + 1, end)
  }

  /** Some counting core of [i, end) would be scored with a zero divisor. */
  predicate ZeroDivisor(cfg: Config, cores: seq<Core>, i: nat, end: nat)
    requires i <= end <= |cfg.enabled| == |cores|
  {
    exists c :: i <= c < end && Counts(cfg, cores, c) && Divisor(cores[c]) == 0
  }

  /** Lowest-index maximum of scores[best] and scores[i..], scanning with a strict comparison. */
  function BestFrom(scores: seq<u32>, best: nat, i: nat): (r: nat)
    requires best < i <= |scores|
    ensures r < |scores|
    decreases |scores| - i
  {
    if i == |scores| then best
    else BestFrom(scores, if scores[i] > scores[best] then i else best, i + 1)
  }

  /** The arm comparison of the tuning step. The slot of the running arm is read before it is
      filled whenever i < best, and then holds `residue`. */
  function SelectFrom(scores: seq<u32>, residue: u32, active: nat, best: nat, i: nat): (r: nat)
    requires active < |scores| && i <= |scores| && (best == active || best < i)
    ensures r < |scores|
    decreases |scores| - i
  {
    if i == |scores| then best
    else
      var current := if best <= i then scores[best] else residue;
      SelectFrom(scores, residue, active, if scores[i] > current then i else best, i + 1)
  }

  function SelectArm(scores: seq<u32>, residue: u32, active: nat): (r: nat)
    requires active < |scores|
    ensures r < |scores|
  {
    SelectFrom(scores, residue, active, active, 0)
  }

  // ----- The parts of one step -----

  function PmuUpdate(c: Core, cycles: u64, instr: u64): Core {
    c.(cyclesOld := c.cycles, instrOld := c.instr, cycles := cycles, instr := instr)
  }

  /** Classifies a core whose counters have just been read; the first call and a call less than
      a millisecond after the last one give no verdict. */
  function CoreIsActive(c: Core, now: u64): Activity {
    var ms := Sub64(now, c.timeOld) / NS_PER_MS;
    if c.timeOld == 0 || ms == 0 then Unknown
    else if CycleDelta(c) / ms < IDLE_CYCLES_PER_MS then Idle
    else Active
  }

  /** Overwrites all seven shadow registers of a core with an arm's configuration. */
  function ApplyArm(cfg: Config, c: Core, arm: nat): Core
    requires arm < |cfg.arms|
  {
    c.(shadow := cfg.arms[arm], dirty := true)
  }

  /** Own score of the running arm refreshed, every other arm raised by the aggressiveness. */
  function TuneCore(c: Core, active: nat, aggr: u32): (r: Core)
    requires active < |c.score| == |c.lastScore|
    ensures SameMeters(c, r) && |r.score| == |r.lastScore| == |c.score|
  {
    c.(lastScore := c.lastScore[active := c.score[active]],
       score := seq(|c.score|, i requires 0 <= i < |c.score| => TunedScore(c, active, aggr, i)))
  }

  function TunedScore(c: Core, active: nat, aggr: u32, i: nat): u32
    requires i < |c.score|
  {
    if i == active then ComputeScore(c) else Add32(c.score[i], aggr)
  }

  function ModuleScores(cfg: Config, cores: seq<Core>, m: nat): (r: seq<u32>)
    requires ValidCores(cfg, cores) && m < cfg.modules
    ensures |r| == |cfg.arms|
  {
    seq(|cfg.arms|, arm requires 0 <= arm < |cfg.arms| => ModuleScore(cfg, cores, m, arm))
  }

  function Leader(cfg: Config, s: State, m: nat): int
    requires Valid(cfg, s) && m < cfg.modules
  {
    FirstActive(cfg, s.cores, cfg.Start(m), cfg.Start(m) + CORES_PER_MODULE)
  }

  /** The election looks at enabled and idle flags only. */
  lemma SameLeader(cfg: Config, a: State, b: State, m: nat)
    requires Valid(cfg, a) && Valid(cfg, b) && m < cfg.modules
    requires forall c :: 0 <= c < |a.cores| ==> a.cores[c].idle == b.cores[c].idle
    ensures Leader(cfg, a, m) == Leader(cfg, b, m)
  {
    hide FirstActive;
    assert forall c: nat :: c < |a.cores| ==> Counts(cfg, a.cores, c) == Counts(cfg, b.cores, c);
  }

  /** Makes `arm` the active arm of c's module and hands its configuration to core c. */
  function Switch(cfg: Config, s: State, cores: seq<Core>, c: nat, arm: nat, init: InitState): (r: State)
    requires Valid(cfg, s) && ValidCores(cfg, cores) && c < |cfg.enabled| && cfg.enabled[c]
    requires arm < |cfg.arms| && CoresTouched(cfg, s.cores, cores, c) && SameMeters(s.cores[c], cores[c])
    ensures Valid(cfg, r) && TouchesOnly(cfg, s, r, c)
    ensures SameMeters(s.cores[c], r.cores[c]) && ArmPending(cfg, s, r, c)
  {
    var m := cfg.ModuleOf(c);
    s.(cores := cores[c := ApplyArm(cfg, cores[c], arm)],
       modules := s.modules[m := s.modules[m].(activeArm := arm, init := init)])
  }

  function Tuning(cfg: Config, s: State, t: Tick): (r: State)
    requires Valid(cfg, s) && ValidTick(cfg, t)
    ensures Valid(cfg, r) && TouchesOnly(cfg, s, r, t.core)
    ensures SameMeters(s.cores[t.core], r.cores[t.core]) && ArmPending(cfg, s, r, t.core)
  {
    var m := cfg.ModuleOf(t.core);
    var mod := s.modules[m];
    var tuned := s.cores[t.core := TuneCore(s.cores[t.core], mod.activeArm, t.aggr)];
    var fault := s.fault || Divisor(s.cores[t.core]) == 0;
    if t.core != Leader(cfg, s, m) then s.(cores := tuned, fault := fault)
    else
      var best := SelectArm(ModuleScores(cfg, tuned, m), t.residue, mod.activeArm);
      if best == mod.activeArm then s.(cores := tuned, fault := fault)
      else Switch(cfg, s, tuned, t.core, best, mod.init).(fault := fault)
  }

  /** The scores after a scan step: fresh ones everywhere, then the average at the leader. */
  function ScannedCores(cfg: Config, s: State, c: nat): (r: seq<Core>)
    requires Valid(cfg, s) && c < |cfg.enabled| && cfg.enabled[c]
    ensures ValidCores(cfg, r) && CoresTouched(cfg, s.cores, r, c) && SameMeters(s.cores[c], r[c])
  {
    var m := cfg.ModuleOf(c);
    var arm := s.modules[m].activeArm;
    var recorded := RecordScores(cfg, s.cores, arm, cfg.Start(m), cfg.Start(m) + CORES_PER_MODULE);
    recorded[c := recorded[c].(score := recorded[c].score[arm := ModuleScore(cfg, recorded, m, arm)])]
  }

  function InitStep(cfg: Config, s: State, c: nat): (r: State)
    requires Valid(cfg, s) && c < |cfg.enabled| && cfg.enabled[c]
    ensures Valid(cfg, r) && TouchesOnly(cfg, s, r, c)
    ensures SameMeters(s.cores[c], r.cores[c]) && ArmPending(cfg, s, r, c)
  {
    var m := cfg.ModuleOf(c);
    var mod := s.modules[m];
    if mod.init == NotStarted then Switch(cfg, s, s.cores, c, 0, InProgress)
    else
      var scanned := ScannedCores(cfg, s, c);
      var fault := s.fault || ZeroDivisor(cfg, s.cores, cfg.Start(m), cfg.Start(m) + CORES_PER_MODULE);
      if mod.activeArm + 1 < |cfg.arms| then
        Switch(cfg, s, scanned, c, mod.activeArm + 1, mod.init).(fault := fault)
      else
        Switch(cfg, s, scanned, c, BestFrom(scanned[c].score, 0, 1), Done).(fault := fault)
  }

  /** Writes the shadow registers of a core to its module's bank. */
  function MsrUpdate(cfg: Config, s: State, c: nat): (r: State)
    requires Valid(cfg, s) && c < |cfg.enabled| && cfg.enabled[c]
    ensures Valid(cfg, r) && TouchesOnly(cfg, s, r, c)
    ensures SameMeters(s.cores[c], r.cores[c])
  {
    s.(cores := s.cores[c := s.cores[c].(dirty := false)],
       hw := s.hw[cfg.ModuleOf(c) := s.cores[c].shadow])
  }

  /** Counters read and clock stored; what every call does first. */
  function Sampled(cfg: Config, s: State, t: Tick): (r: State)
    requires Valid(cfg, s) && ValidTick(cfg, t)
    ensures Valid(cfg, r) && TouchesOnly(cfg, s, r, t.core)
  {
    s.(cores := s.cores[t.core := PmuUpdate(s.cores[t.core], t.cycles, t.instr).(timeOld := t.now)])
  }

  function ActivityOf(s: State, t: Tick): Activity
    requires t.core < |s.cores|
  {
    CoreIsActive(PmuUpdate(s.cores[t.core], t.cycles, t.instr), t.now)
  }

  /** An idle verdict: the core's counter goes up; the first enabled core of the module also
      counts for the module and sends it back to the start of the scan past the threshold. */
  function IdleStep(cfg: Config, s: State, c: nat): (r: State)
    requires Valid(cfg, s) && c < |cfg.enabled| && cfg.enabled[c]
    ensures Valid(cfg, r) && TouchesOnly(cfg, s, r, c)
  {
    var m := cfg.ModuleOf(c);
    var mod := s.modules[m];
    var cores := s.cores[c := s.cores[c].(idle := s.cores[c].idle + 1)];
    if c == FirstEnabled(cfg, cfg.Start(m), cfg.Start(m) + CORES_PER_MODULE) then
      s.(cores := cores,
         modules := s.modules[m := mod.(idle := mod.idle + 1,
                                        init := if mod.idle + 1 > IDLE_THRESHOLD then NotStarted else mod.init)])
    else s.(cores := cores)
  }

  /** An active verdict clears both idle counters before the leader is elected. */
  function Woken(cfg: Config, s: State, c: nat): (r: State)
    requires Valid(cfg, s) && c < |cfg.enabled| && cfg.enabled[c]
    ensures Valid(cfg, r) && TouchesOnly(cfg, s, r, c)
  {
    var m := cfg.ModuleOf(c);
    s.(cores := s.cores[c := s.cores[c].(idle := 0)],
       modules := s.modules[m := s.modules[m].(idle := 0)])
  }

  lemma TouchesTransitive(cfg: Config, a: State, b: State, c: State, core: nat)
    requires Valid(cfg, a) && Valid(cfg, b) && Valid(cfg, c) && core < |cfg.enabled| && cfg.enabled[core]
    requires TouchesOnly(cfg, a, b, core) && TouchesOnly(cfg, b, c, core)
    ensures TouchesOnly(cfg, a, c, core)
  {
  }

  /** The decision of an active core: tune, scan if it leads, or nothing. */
  function Decide(cfg: Config, w: State, t: Tick): (d: State)
    requires Valid(cfg, w) && ValidTick(cfg, t)
    ensures Valid(cfg, d) && TouchesOnly(cfg, w, d, t.core)
  {
    var m := cfg.ModuleOf(t.core);
    if w.modules[m].init == Done then Tuning(cfg, w, t)
    else if Leader(cfg, w, m) == t.core then InitStep(cfg, w, t.core)
    else w
  }

  function ActiveStep(cfg: Config, s: State, t: Tick): (r: State)
    requires Valid(cfg, s) && ValidTick(cfg, t)
    ensures Valid(cfg, r) && TouchesOnly(cfg, s, r, t.core)
  {
    hide TouchesOnly, CoresTouched, Tuning, InitStep;
    var w := Woken(cfg, s, t.core);
    var d := Decide(cfg, w, t);
    TouchesTransitive(cfg, s, w, d, t.core);
    TouchesTransitive(cfg, s, d, MsrUpdate(cfg, d, t.core), t.core);
    if Leader(cfg, w, cfg.ModuleOf(t.core)) == t.core && d.cores[t.core].dirty
    then MsrUpdate(cfg, d, t.core)
    else d
  }

  /** One call of the per-core work function on an enabled core. */
  function Step(cfg: Config, s: State, t: Tick): (r: State)
    requires Valid(cfg, s) && ValidTick(cfg, t)
    ensures Valid(cfg, r) && TouchesOnly(cfg, s, r, t.core)
  {
    hide TouchesOnly, CoresTouched, IdleStep, ActiveStep, ActivityOf;
    var sampled := Sampled(cfg, s, t);
    match ActivityOf(s, t)
    case Unknown => sampled
    case Idle =>
      TouchesTransitive(cfg, s, sampled, IdleStep(cfg, sampled, t.core), t.core);
      IdleStep(cfg, sampled, t.core)
    case Active =>
      TouchesTransitive(cfg, s, sampled, ActiveStep(cfg, sampled, t), t.core);
      ActiveStep(cfg, sampled, t)
  }

  /** The running core leads its module in this call. */
  predicate Leads(cfg: Config, s: State, t: Tick)
    requires Valid(cfg, s) && ValidTick(cfg, t)
  {
    && ActivityOf(s, t) == Active
    && Leader(cfg, Woken(cfg, Sampled(cfg, s, t), t.core), cfg.ModuleOf(t.core)) == t.core
  }

  /** A leader call while the module is still scanning. */
  predicate Scans(cfg: Config, s: State, t: Tick)
    requires Valid(cfg, s) && ValidTick(cfg, t)
  {
    Leads(cfg, s, t) && s.modules[cfg.ModuleOf(t.core)].init != Done
  }

  /** The state after module load. Every core starts in the same record. */
  ghost predicate Loaded(cfg: Config, s: State) {
    && Valid(cfg, s)
    && (forall c :: 0 <= c < |s.cores| ==> !s.cores[c].dirty && s.cores[c].idle == 0 && s.cores[c].timeOld == 0)
    && (forall m :: 0 <= m < |s.modules| ==> s.modules[m] == Module(0, NotStarted, 0) && s.hw[m] == cfg.arms[0])
    && !s.fault
  }
}
