/** The kernel bandit as the module runs it: tables updated in place, one call per core and tick. */
module KernelMabDriver {
  import opened Words
  import opened KernelMab

  /** A register value from the two halves it is written in. */
  function Register(high: u32, low: u32): u64 {
    high * U32_SIZE + low
  }

  /** What module load writes to every core's prefetcher registers, in table order. */
  function BootBank(): Bank {
    [Register(0x10883FEA, 0x070906C4), Register(0x00002511, 0x34140001), Register(0x2807FFFF, 0x4CD0046C),
     Register(0x0001F9C0, 0xC0000000), Register(0x06000000, 0x00000000), Register(0x00000000, 0x05920014),
     Register(0x00000000, 0x00000004)]
  }

  /** Arm 0 is the boot default, arm 1 the aggressive configuration. */
  function DefaultArms(): seq<Bank> {
    [[0x10883fea070906c4, 0x0000251134140001, 0x2807ffff4cd0046c, 0x0001f9c0c0000000,
      0x0600000000000000, 0x0000000005920014, 0x0000000000000004],
     [0x008837ea070906c0, 0x0000251134040001, 0x280020820cd0046c, 0x0001f9c0c0000000,
      0x0600000000000000, 0x0000000001920014, 0x0000000000000004]]
  }

  const MAX_ARMS := 10

  /** The table of configurations: entries past the available arms are never filled. */
  function TableEntry(cfg: Config, arm: int): Bank
    requires 0 <= arm
  {
    if arm < |cfg.arms| then cfg.arms[arm] else [0, 0, 0, 0, 0, 0, 0]
  }

  class Driver {
    const cfg: Config
    const cores: array<Core>
    const modules: array<Module>
    const hw: array<Bank>
    var fault: bool

    ghost function Abs(): State
      reads this, cores, modules, hw
    {
      State(cores[..], modules[..], hw[..], fault)
    }

    ghost predicate Ready()
      reads this, cores, modules, hw
    {
      Valid(cfg, Abs())
    }

    /** Module load, followed by the core range request. */
    constructor (first: nat, enabled: seq<bool>, moduleCount: nat)
      requires first + CORES_PER_MODULE * moduleCount <= |enabled|
      requires forall c :: 0 <= c < |enabled| && enabled[c] ==> first <= c < first + CORES_PER_MODULE * moduleCount
      ensures cfg == Config(first, enabled, moduleCount, DefaultArms())
      ensures Loaded(cfg, Abs())
      ensures fresh(cores) && fresh(modules) && fresh(hw)
    {
      var zero: Bank := [0, 0, 0, 0, 0, 0, 0];
      var blank := Core(0, 0, 0, 0, zero, false, [0, 0], [0, 0], 0, 0);
      cfg := Config(first, enabled, moduleCount, DefaultArms());
      cores := new Core[|enabled|](i => blank);
      modules := new Module[moduleCount](i => Module(0, NotStarted, 0));
      hw := new Bank[moduleCount](i => BootBank());
      fault := false;
      new;
      assert BootBank() == DefaultArms()[0];
    }

    // ----- Read-only scans -----

    method FirstEnabledCore(m: nat) returns (r: int)
      requires Ready() && m < cfg.modules
      ensures r == FirstEnabled(cfg, cfg.Start(m), cfg.Start(m) + CORES_PER_MODULE)
    {
      var i := cfg.Start(m);
      var end := i + CORES_PER_MODULE;
      while i < end
        invariant cfg.Start(m) <= i <= end
        invariant FirstEnabled(cfg, cfg.Start(m), end) == FirstEnabled(cfg, i, end)
      {
        if cfg.enabled[i] { return i; }
        i := i + 1;
      }
      return -1;
    }

    method FirstActiveCore(m: nat) returns (r: int)
      requires Ready() && m < cfg.modules
      ensures r == Leader(cfg, Abs(), m)
    {
      var i := cfg.Start(m);
      var end := i + CORES_PER_MODULE;
      while i < end
        invariant cfg.Start(m) <= i <= end
        invariant FirstActive(cfg, cores[..], cfg.Start(m), end) == FirstActive(cfg, cores[..], i, end)
      {
        if cfg.enabled[i] && cores[i].idle == 0 { return i; }
        i := i + 1;
      }
      return -1;
    }

    method ModuleScoreOf(m: nat, arm: nat) returns (r: u32)
      requires Ready() && m < cfg.modules && arm < |cfg.arms|
      ensures r == ModuleScore(cfg, cores[..], m, arm)
    {
      var i := cfg.Start(m);
      var end := i + CORES_PER_MODULE;
      var total, count := 0, 0;
      while i < end
        invariant cfg.Start(m) <= i <= end
        invariant 0 <= total
        invariant total + ScoreSum(cfg, cores[..], arm, i, end) == ScoreSum(cfg, cores[..], arm, cfg.Start(m), end)
        invariant 0 <= count
        invariant count + ScoreCount(cfg, cores[..], i, end) == ScoreCount(cfg, cores[..], cfg.Start(m), end)
      {
        if cfg.enabled[i] && cores[i].idle == 0 {
          total := total + cores[i].score[arm];
          count := count + 1;
        }
        i := i + 1;
      }
      if count == 0 { return 0; }
      AverageIsWord(total, count);
      r := total / count;
    }

    // ----- Updates of one core -----

    method UpdateCore(c: nat, core: Core)
      requires Ready() && c < cores.Length && ValidCore(cfg, core)
      modifies cores
      ensures Ready() && Abs() == old(Abs()).(cores := old(cores[..])[c := core])
    {
      cores[c] := core;
    }

    method ComputeScoreOf(c: nat) returns (score: u32)
      requires Ready() && c < cores.Length
      modifies this`fault
      ensures Ready() && Abs() == old(Abs()).(fault := old(fault) || Divisor(cores[c]) == 0)
      ensures score == ComputeScore(cores[c])
    {
      var instr := Sub64(cores[c].instr, cores[c].instrOld);
      var divisor := Sub64(cores[c].cycles, cores[c].cyclesOld) / CYCLE_SCALE;
      if divisor == 0 {
        fault := true;
        return 0;
      }
      score := (instr / divisor) % U32_SIZE;
    }

    method ApplyMsrConfig(c: nat, arm: int) returns (code: int)
      requires Ready() && c < cores.Length
      modifies cores
      ensures Ready()
      ensures code == if 0 <= arm < MAX_ARMS then 0 else -EINVAL
      ensures code != 0 ==> Abs() == old(Abs())
      ensures code == 0 ==>
        Abs() == old(Abs()).(
          cores := old(cores[..])[c := old(cores[c]).(shadow := TableEntry(cfg, arm), dirty := true)])
    {
      if arm < 0 || arm >= MAX_ARMS { return -EINVAL; }
      var shadow := cores[c].shadow;
      for i := 0 to 7
        invariant |shadow| == 7 && forall j :: 0 <= j < i ==> shadow[j] == TableEntry(cfg, arm)[j]
      {
        shadow := shadow[i := TableEntry(cfg, arm)[i]];
      }
      assert shadow == TableEntry(cfg, arm);
      UpdateCore(c, cores[c].(shadow := shadow, dirty := true));
      code := 0;
    }

    method MsrUpdateCore(c: nat)
      requires Ready() && c < cores.Length && cfg.enabled[c]
      modifies cores, hw
      ensures Ready() && Abs() == MsrUpdate(cfg, old(Abs()), c)
    {
      hide TouchesOnly;
      UpdateCore(c, cores[c].(dirty := false));
      hw[cfg.ModuleOf(c)] := cores[c].shadow;
    }

    /** The running arm gets a fresh score, every other arm the bonus. */
    method RefreshScores(c: nat, active: nat, aggr: u32)
      requires Ready() && c < cores.Length && active < |cfg.arms|
      modifies cores, this`fault
      ensures Ready()
      ensures Abs() == old(Abs()).(cores := old(cores[..])[c := TuneCore(old(cores[c]), active, aggr)],
                                   fault := old(fault) || Divisor(old(cores[c])) == 0)
    {
      var own := ComputeScoreOf(c);
      var last := cores[c].lastScore[active := cores[c].score[active]];
      var score := cores[c].score[active := own];
      for i := 0 to |score|
        invariant |score| == |cfg.arms|
        invariant forall j :: 0 <= j < |score| ==>
          score[j] == if j == active then own
                      else if j < i then Add32(cores[c].score[j], aggr) else cores[c].score[j]
      {
        if i != active {
          score := score[i := Add32(score[i], aggr)];
        }
      }
      assert score == TuneCore(cores[c], active, aggr).score;
      UpdateCore(c, cores[c].(lastScore := last, score := score));
    }

    /** The comparison over all arms; the score table starts with stack residue. */
    method CompareArms(m: nat, active: nat, residue: u32) returns (best: nat)
      requires Ready() && m < cfg.modules && active < |cfg.arms|
      ensures best == SelectArm(ModuleScores(cfg, cores[..], m), residue, active)
    {
      hide ModuleScore;
      var k := |cfg.arms|;
      var scores := new u32[k](_ => residue);
      ghost var full := ModuleScores(cfg, cores[..], m);
      best := active;
      for i := 0 to k
        invariant best == active || best < i
        invariant forall j :: 0 <= j < i ==> scores[j] == full[j]
        invariant forall j :: i <= j < k ==> scores[j] == residue
        invariant SelectFrom(full, residue, active, best, i) == SelectArm(full, residue, active)
      {
        scores[i] := ModuleScoreOf(m, i);
        if scores[i] > scores[best] {
          best := i;
        }
      }
    }

    // ----- The calls -----

    method MabTuning(t: Tick)
      requires Ready() && ValidTick(cfg, t)
      modifies cores, modules, this`fault
      ensures Ready() && Abs() == Tuning(cfg, old(Abs()), t)
    {
      hide ModuleScores, SelectArm, TuneCore, TouchesOnly, CoresTouched, ArmPending;
      var m := cfg.ModuleOf(t.core);
      var active := modules[m].activeArm;
      RefreshScores(t.core, active, t.aggr);
      ghost var tuned := Abs();
      SameLeader(cfg, old(Abs()), tuned, m);
      var leader := FirstActiveCore(m);
      if t.core != leader { return; }
      var best := CompareArms(m, active, t.residue);
      if best != active {
        modules[m] := modules[m].(activeArm := best);
        assert modules[..] == old(modules[..])[m := modules[m]];
        var code := ApplyMsrConfig(t.core, best);
      }
    }

    method RecordFreshScores(m: nat, arm: nat)
      requires Ready() && m < cfg.modules && arm < |cfg.arms|
      modifies cores, this`fault
      ensures Ready()
      ensures Abs() == old(Abs()).(
        cores := RecordScores(cfg, old(cores[..]), arm, cfg.Start(m), cfg.Start(m) + CORES_PER_MODULE),
        fault := old(fault) || ZeroDivisor(cfg, old(cores[..]), cfg.Start(m), cfg.Start(m) + CORES_PER_MODULE))
    {
      var start := cfg.Start(m);
      var end := start + CORES_PER_MODULE;
      assert !ZeroDivisor(cfg, old(cores[..]), start, start);
      hide ZeroDivisor, Divisor, ComputeScore;
      ghost var want := RecordScores(cfg, old(cores[..]), arm, start, end);
      hide RecordScores;
      for i := start to end
        invariant Ready()
        invariant forall c :: 0 <= c < cores.Length ==> cores[c] == if c < i then want[c] else old(cores[c])
        invariant modules[..] == old(modules[..]) && hw[..] == old(hw[..])
        invariant fault == (old(fault) || ZeroDivisor(cfg, old(cores[..]), start, i))
      {
        ZeroDivisorNext(cfg, old(cores[..]), start, i);
        RecordFreshScore(i, arm);
      }
      assert cores[..] == want;
    }

    method RecordFreshScore(i: nat, arm: nat)
      requires Ready() && i < cores.Length && arm < |cfg.arms|
      modifies cores, this`fault
      ensures Ready()
      ensures Abs() == old(Abs()).(cores := WithFreshScore(cfg, old(cores[..]), arm, i),
        fault := old(fault) || (Counts(cfg, old(cores[..]), i) && Divisor(old(cores[i])) == 0))
    {
      if cfg.enabled[i] && cores[i].idle == 0 {
        var score := ComputeScoreOf(i);
        UpdateCore(i, cores[i].(score := cores[i].score[arm := score]));
      }
    }

    method BestArm(c: nat) returns (best: nat)
      requires Ready() && c < cores.Length
      ensures best == BestFrom(cores[c].score, 0, 1)
    {
      best := 0;
      for i := 1 to |cfg.arms|
        invariant best < i && BestFrom(cores[c].score, best, i) == BestFrom(cores[c].score, 0, 1)
      {
        if cores[c].score[i] > cores[c].score[best] {
          best := i;
        }
      }
    }

    method MabInitModuleStep(c: nat)
      requires Ready() && c < cores.Length && cfg.enabled[c]
      modifies cores, modules, this`fault
      ensures Ready() && Abs() == InitStep(cfg, old(Abs()), c)
    {
      hide ModuleScore, RecordScores, TouchesOnly, CoresTouched, ArmPending, SameMeters, ZeroDivisor;
      var m := cfg.ModuleOf(c);
      var code;
      if modules[m].init == NotStarted {
        code := ApplyMsrConfig(c, 0);
        modules[m] := modules[m].(activeArm := 0, init := InProgress);
        assert modules[..] == old(modules[..])[m := modules[m]];
        return;
      }
      var arm := modules[m].activeArm;
      RecordFreshScores(m, arm);
      var score := ModuleScoreOf(m, arm);
      UpdateCore(c, cores[c].(score := cores[c].score[arm := score]));
      assert cores[..] == ScannedCores(cfg, old(Abs()), c);
      var next, init := arm + 1, modules[m].init;
      if arm + 1 >= |cfg.arms| {
        next := BestArm(c);
        init := Done;
      }
      modules[m] := modules[m].(activeArm := next, init := init);
      assert modules[..] == old(modules[..])[m := modules[m]];
      code := ApplyMsrConfig(c, next);
    }

    method CoreIsActiveNow(c: nat, now: u64) returns (verdict: Activity)
      requires Ready() && c < cores.Length
      modifies cores
      ensures Ready() && Abs() == old(Abs()).(cores := old(cores[..])[c := old(cores[c]).(timeOld := now)])
      ensures verdict == CoreIsActive(old(cores[c]), now)
    {
      var timeOld := cores[c].timeOld;
      UpdateCore(c, cores[c].(timeOld := now));
      if timeOld == 0 { return Unknown; }
      var ms := Sub64(now, timeOld) / NS_PER_MS;
      if ms == 0 { return Unknown; }
      var cyclesPerMs := Sub64(cores[c].cycles, cores[c].cyclesOld) / ms;
      verdict := if cyclesPerMs < IDLE_CYCLES_PER_MS then Idle else Active;
    }

    method CountIdle(c: nat)
      requires Ready() && c < cores.Length && cfg.enabled[c]
      modifies cores, modules
      ensures Ready() && Abs() == IdleStep(cfg, old(Abs()), c)
    {
      hide TouchesOnly, CoresTouched;
      UpdateCore(c, cores[c].(idle := cores[c].idle + 1));
      var m := cfg.ModuleOf(c);
      var first := FirstEnabledCore(m);
      if c == first {
        CountModuleIdle(m);
      }
    }

    method CountModuleIdle(m: nat)
      requires Ready() && m < modules.Length
      modifies modules
      ensures Ready()
      ensures var mod := old(modules[m]);
        Abs() == old(Abs()).(modules := old(modules[..])[m := mod.(idle := mod.idle + 1,
          init := if mod.idle + 1 > IDLE_THRESHOLD then NotStarted else mod.init)])
    {
      modules[m] := modules[m].(idle := modules[m].idle + 1);
      if modules[m].idle > IDLE_THRESHOLD {
        modules[m] := modules[m].(init := NotStarted);
      }
      assert modules[..] == old(modules[..])[m := modules[m]];
    }

    method RunActive(t: Tick)
      requires Ready() && ValidTick(cfg, t)
      modifies cores, modules, hw, this`fault
      ensures Ready() && Abs() == ActiveStep(cfg, old(Abs()), t)
    {
      hide Tuning, InitStep, TouchesOnly, CoresTouched, Leader, MsrUpdate;
      var m := cfg.ModuleOf(t.core);
      UpdateCore(t.core, cores[t.core].(idle := 0));
      var leader := FirstActiveCore(m);
      ghost var elected := Abs();
      modules[m] := modules[m].(idle := 0);
      assert modules[..] == old(modules[..])[m := modules[m]];
      ghost var woken := Abs();
      assert woken == Woken(cfg, old(Abs()), t.core);
      SameLeader(cfg, elected, woken, m);
      if modules[m].init == Done {
        MabTuning(t);
      } else if t.core == leader {
        MabInitModuleStep(t.core);
      }
      if t.core == leader && cores[t.core].dirty {
        MsrUpdateCore(t.core);
      }
    }

    /** One call of the per-core work function. */
    method PerCoreWork(t: Tick)
      requires Ready() && t.core < cores.Length
      modifies cores, modules, hw, this`fault
      ensures Ready()
      ensures Abs() == if cfg.enabled[t.core] then Step(cfg, old(Abs()), t) else old(Abs())
    {
      hide ActiveStep, IdleStep, CoreIsActive, TouchesOnly, CoresTouched;
      if !cfg.enabled[t.core] { return; }
      UpdateCore(t.core, PmuUpdate(cores[t.core], t.cycles, t.instr));
      var verdict := CoreIsActiveNow(t.core, t.now);
      assert Abs() == Sampled(cfg, old(Abs()), t);
      match verdict {
        case Unknown =>
        case Idle => CountIdle(t.core);
        case Active => RunActive(t);
      }
    }
  }

  function WithFreshScore(cfg: Config, cores: seq<Core>, arm: nat, i: nat): (r: seq<Core>)
    requires ValidCores(cfg, cores) && arm < |cfg.arms| && i < |cores|
    ensures ValidCores(cfg, r)
  {
    if Counts(cfg, cores, i)
    then cores[i := cores[i].(score := cores[i].score[arm := ComputeScore(cores[i])])]
    else cores
  }

  lemma ZeroDivisorNext(cfg: Config, cores: seq<Core>, start: nat, i: nat)
    requires start <= i < |cfg.enabled| == |cores|
    ensures ZeroDivisor(cfg, cores, start, i + 1) <==>
      ZeroDivisor(cfg, cores, start, i) || (Counts(cfg, cores, i) && Divisor(cores[i]) == 0)
  {
  }
}
