/** What the kernel bandit measures: the verdict on a core, its score, and the average of a module,
    each against a description that does not use the code's own formulas. */
module KernelMabScores {
  import opened Words
  import opened KernelMab
  import opened KernelMabRuns

  // ----- The verdict -----

  /** Whole milliseconds since the core's last call. */
  function Elapsed(c: Core, now: u64): nat {
    Sub64(now, c.timeOld) / 1_000_000
  }

  /** A core is judged active if and only if this is not its first call, at least a millisecond has
      passed, and it ran at least half a million cycles for each of them; idle if and only if it ran
      fewer; and not judged at all otherwise. */
  lemma VerdictIff(c: Core, now: u64)
    ensures CoreIsActive(c, now) == Active <==>
      c.timeOld != 0 && Elapsed(c, now) >= 1 && CycleDelta(c) >= 500_000 * Elapsed(c, now)
    ensures CoreIsActive(c, now) == Idle <==>
      c.timeOld != 0 && Elapsed(c, now) >= 1 && CycleDelta(c) < 500_000 * Elapsed(c, now)
    ensures CoreIsActive(c, now) == Unknown <==> c.timeOld == 0 || Elapsed(c, now) == 0
  {
    hide Sub64, CycleDelta;
    var ms := Elapsed(c, now);
    TimesCommutes(ms, 500_000);
    if ms >= 1 {
      DivisionIsQuotient(CycleDelta(c), ms);
      RateAtLeast(CycleDelta(c), ms, CycleDelta(c) / ms, 500_000);
    }
  }

  // ----- The score -----

  /** The score of a core is its instructions over its cycles in units of 1024, rounded down twice and
      cut to 32 bits; without a unit of cycles it is 0. */
  lemma ScoreIsRatio(c: Core) returns (units: nat, ratio: nat)
    ensures Quotient(CycleDelta(c), 1024, units)
    ensures units > 0 ==> Quotient(Sub64(c.instr, c.instrOld), units, ratio)
    ensures ComputeScore(c) == if units == 0 then 0 else ratio % 0x1_0000_0000
  {
    hide Sub64, CycleDelta, Quotient;
    units, ratio := Divisor(c), 0;
    DivisionIsQuotient(CycleDelta(c), 1024);
    if units > 0 {
      ratio := Sub64(c.instr, c.instrOld) / units;
      DivisionIsQuotient(Sub64(c.instr, c.instrOld), units);
    }
  }

  // ----- The average -----

  function Ones(cfg: Config, cores: seq<Core>, c: nat): nat
    requires c < |cfg.enabled| == |cores|
  {
    if cfg.enabled[c] && cores[c].idle == 0 then 1 else 0
  }

  function Part(cfg: Config, cores: seq<Core>, c: nat, score: nat): nat
    requires c < |cfg.enabled| == |cores|
  {
    if cfg.enabled[c] && cores[c].idle == 0 then score else 0
  }

  /** r is the mean of the four values over the counting cores of [a, a + 4), rounded down; 0 if none
      counts. */
  ghost predicate MeanOfFour(cfg: Config, cores: seq<Core>, a: nat, v: seq<nat>, r: nat)
    requires a + 4 <= |cfg.enabled| == |cores| && |v| == 4
  {
    var n := Ones(cfg, cores, a) + Ones(cfg, cores, a + 1) + Ones(cfg, cores, a + 2) + Ones(cfg, cores, a + 3);
    var t := Part(cfg, cores, a, v[0]) + Part(cfg, cores, a + 1, v[1]) + Part(cfg, cores, a + 2, v[2])
      + Part(cfg, cores, a + 3, v[3]);
    if n == 0 then r == 0 else Quotient(t, n, r)
  }

  lemma CountOfFour(cfg: Config, cores: seq<Core>, arm: nat, a: nat)
    requires ValidCores(cfg, cores) && arm < |cfg.arms| && a + 4 <= |cores|
    ensures ScoreCount(cfg, cores, a, a + 4) ==
      Ones(cfg, cores, a) + Ones(cfg, cores, a + 1) + Ones(cfg, cores, a + 2) + Ones(cfg, cores, a + 3)
    ensures ScoreSum(cfg, cores, arm, a, a + 4) ==
      Part(cfg, cores, a, cores[a].score[arm]) + Part(cfg, cores, a + 1, cores[a + 1].score[arm])
      + Part(cfg, cores, a + 2, cores[a + 2].score[arm]) + Part(cfg, cores, a + 3, cores[a + 3].score[arm])
  {
    assert ScoreCount(cfg, cores, a + 3, a + 4) == Ones(cfg, cores, a + 3);
    assert ScoreCount(cfg, cores, a + 2, a + 4) == Ones(cfg, cores, a + 2) + ScoreCount(cfg, cores, a + 3, a + 4);
    assert ScoreCount(cfg, cores, a + 1, a + 4) == Ones(cfg, cores, a + 1) + ScoreCount(cfg, cores, a + 2, a + 4);
    assert ScoreSum(cfg, cores, arm, a + 3, a + 4) == Part(cfg, cores, a + 3, cores[a + 3].score[arm]);
    assert ScoreSum(cfg, cores, arm, a + 2, a + 4)
      == Part(cfg, cores, a + 2, cores[a + 2].score[arm]) + ScoreSum(cfg, cores, arm, a + 3, a + 4);
    assert ScoreSum(cfg, cores, arm, a + 1, a + 4)
      == Part(cfg, cores, a + 1, cores[a + 1].score[arm]) + ScoreSum(cfg, cores, arm, a + 2, a + 4);
  }

  /** The module score of an arm is the mean of the arm's scores over the module's enabled cores that
      are not idle. */
  lemma ModuleScoreIsMean(cfg: Config, cores: seq<Core>, m: nat, arm: nat)
    requires ValidCores(cfg, cores) && m < cfg.modules && arm < |cfg.arms|
    ensures var a := cfg.Start(m);
      var scores := [cores[a].score[arm], cores[a + 1].score[arm], cores[a + 2].score[arm], cores[a + 3].score[arm]];
      MeanOfFour(cfg, cores, a, scores, ModuleScore(cfg, cores, m, arm))
  {
    hide ScoreCount, ScoreSum, Ones, Part, Quotient;
    var a := cfg.Start(m);
    CountOfFour(cfg, cores, arm, a);
    var n, t := ScoreCount(cfg, cores, a, a + 4), ScoreSum(cfg, cores, arm, a, a + 4);
    if n > 0 {
      DivisionIsQuotient(t, n);
    }
  }

  // ----- The scan, restated -----

  /** The average a scan call records is the mean, over the counting cores of the module, of their
      fresh scores of this call. */
  ghost predicate RecordsMean(cfg: Config, s: State, t: Tick, avg: nat)
    requires Valid(cfg, s) && ValidTick(cfg, t)
  {
    var w := Woken(cfg, Sampled(cfg, s, t), t.core).cores;
    var a := cfg.Start(cfg.ModuleOf(t.core));
    MeanOfFour(cfg, w, a,
      [ComputeScore(w[a]), ComputeScore(w[a + 1]), ComputeScore(w[a + 2]), ComputeScore(w[a + 3])], avg)
  }

  lemma ScanAverageIsMean(cfg: Config, s: State, t: Tick)
    requires Valid(cfg, s) && ValidTick(cfg, t)
    ensures RecordsMean(cfg, s, t, Average(cfg, s, t))
  {
    hide Woken, Sampled, ComputeScore, ModuleScore, TouchesOnly, MeanOfFour;
    var m := cfg.ModuleOf(t.core);
    var w, a := Woken(cfg, Sampled(cfg, s, t), t.core), cfg.Start(m);
    var arm := w.modules[m].activeArm;
    var recorded := RecordScores(cfg, w.cores, arm, a, a + CORES_PER_MODULE);
    hide RecordScores;
    ModuleScoreIsMean(cfg, recorded, m, arm);
    SameMean(cfg, recorded, w.cores, a, arm, Average(cfg, s, t));
  }

  lemma SameMean(cfg: Config, recorded: seq<Core>, cores: seq<Core>, a: nat, arm: nat, r: nat)
    requires ValidCores(cfg, recorded) && ValidCores(cfg, cores) && a + 4 <= |cores| && arm < |cfg.arms|
    requires forall c :: a <= c < a + 4 ==> recorded[c].idle == cores[c].idle
    requires forall c :: a <= c < a + 4 && Counts(cfg, cores, c) ==>
      recorded[c].score[arm] == ComputeScore(cores[c])
    requires MeanOfFour(cfg, recorded, a, [recorded[a].score[arm], recorded[a + 1].score[arm],
      recorded[a + 2].score[arm], recorded[a + 3].score[arm]], r)
    ensures MeanOfFour(cfg, cores, a, [ComputeScore(cores[a]), ComputeScore(cores[a + 1]),
      ComputeScore(cores[a + 2]), ComputeScore(cores[a + 3])], r)
  {
    hide Quotient, ComputeScore;
    assert Counts(cfg, cores, a) ==> recorded[a].score[arm] == ComputeScore(cores[a]);
    assert Counts(cfg, cores, a + 1) ==> recorded[a + 1].score[arm] == ComputeScore(cores[a + 1]);
    assert Counts(cfg, cores, a + 2) ==> recorded[a + 2].score[arm] == ComputeScore(cores[a + 2]);
    assert Counts(cfg, cores, a + 3) ==> recorded[a + 3].score[arm] == ComputeScore(cores[a + 3]);
  }

  /** Event i is a scan call that records avg as the mean of arm k. */
  ghost predicate RecordsArm(cfg: Config, s: State, e: Event, m: nat, k: nat, avg: nat)
    requires Valid(cfg, s) && ValidEvent(cfg, e) && m < cfg.modules
  {
    && ScanCall(cfg, s, e, m) && s.modules[m].init == InProgress && s.modules[m].activeArm == k
    && RecordsMean(cfg, s, e.tick, avg)
  }

  /** Without an idle reset, the k-th recorded average is the mean of arm k, taken by a scan call while
      arm k ran. */
  lemma {:induction false} AveragesAreMeans(cfg: Config, ss: seq<State>, es: seq<Event>, m: nat, n: nat)
    requires IsRun(cfg, ss, es) && m < cfg.modules && n <= |es|
    requires ss[0].modules[m].init == NotStarted && NoReset(cfg, ss, es, m)
    ensures var avg := Averages(cfg, ss, es, m, n);
      && |avg| == (if ScanCalls(cfg, ss, es, m, n) == 0 then 0 else ScanCalls(cfg, ss, es, m, n) - 1)
      && forall k :: 0 <= k < |avg| ==> exists i :: 0 <= i < n && RecordsArm(cfg, ss[i], es[i], m, k, avg[k])
  {
    hide React, Leads, Average, RecordsMean;
    if n > 0 {
      AveragesAreMeans(cfg, ss, es, m, n - 1);
      ScanTriesArmsInOrder(cfg, ss, es, m, n - 1);
      ScanTriesArmsInOrder(cfg, ss, es, m, n);
      var s, e := ss[n - 1], es[n - 1];
      var before, avg := Averages(cfg, ss, es, m, n - 1), Averages(cfg, ss, es, m, n);
      if ScanCall(cfg, s, e, m) && s.modules[m].init == InProgress {
        ScanAverageIsMean(cfg, s, e.tick);
        assert avg == before + [Average(cfg, s, e.tick)];
        assert RecordsArm(cfg, s, e, m, |before|, avg[|before|]);
      } else {
        assert avg == before;
      }
      forall k | 0 <= k < |avg| ensures exists i :: 0 <= i < n && RecordsArm(cfg, ss[i], es[i], m, k, avg[k]) {
        if k < |before| {
          var i :| 0 <= i < n - 1 && RecordsArm(cfg, ss[i], es[i], m, k, before[k]);
          assert avg[k] == before[k];
        } else {
          assert RecordsArm(cfg, ss[n - 1], es[n - 1], m, k, avg[k]);
        }
      }
    }
  }

  /** A scan led by one core ends on the arm with the highest mean score, the lowest of several: for
      the means that its scan calls took of the fresh scores of the counting cores, one per arm. */
  lemma ScanSelectsBestMean(cfg: Config, ss: seq<State>, es: seq<Event>, m: nat, n: nat) returns (means: seq<u32>)
    requires IsRun(cfg, ss, es) && m < cfg.modules && n < |es|
    requires ss[0].modules[m].init == NotStarted && NoReset(cfg, ss, es, m)
    requires ScanCall(cfg, ss[n], es[n], m) && LedBy(cfg, ss, es, m, es[n].tick.core)
    requires ScanCalls(cfg, ss, es, m, n) == |cfg.arms|
    ensures ss[n + 1].modules[m].init == Done
    ensures |means| == |cfg.arms| && LowestMaximum(means, ss[n + 1].modules[m].activeArm)
    ensures forall k :: 0 <= k < |means| ==> exists i :: 0 <= i <= n && RecordsArm(cfg, ss[i], es[i], m, k, means[k])
  {
    hide React, Leads, Average, RecordsArm;
    ScanSelectsBestAverage(cfg, ss, es, m, n);
    AveragesAreMeans(cfg, ss, es, m, n + 1);
    means := Averages(cfg, ss, es, m, n + 1);
  }

  // ----- What else a call does -----

  /** A call without a verdict changes nothing but its own core's counters and clock. */
  lemma FirstCall(cfg: Config, s: State, t: Tick)
    requires Valid(cfg, s) && ValidTick(cfg, t) && ActivityOf(s, t) == Unknown
    ensures var o := s.cores[t.core];
      Step(cfg, s, t) == s.(cores := s.cores[t.core := o.(cycles := t.cycles, cyclesOld := o.cycles,
        instr := t.instr, instrOld := o.instr, timeOld := t.now)])
  {
    hide ActivityOf, TouchesOnly, CoresTouched;
  }

  /** A scan call also stores the fresh scores of the other counting cores of the module, in the slot
      of the arm that ran; the other cores it leaves alone. */
  lemma ScanCallOthers(cfg: Config, s: State, t: Tick, c: nat)
    requires Valid(cfg, s) && ValidTick(cfg, t) && Scans(cfg, s, t) && c < |s.cores| && c != t.core && cfg.InRange(c)
    requires cfg.ModuleOf(c) == cfg.ModuleOf(t.core) && s.modules[cfg.ModuleOf(c)].init == InProgress
    ensures var arm, o := s.modules[cfg.ModuleOf(c)].activeArm, s.cores[c];
      Step(cfg, s, t).cores[c] ==
        if cfg.enabled[c] && o.idle == 0 then o.(score := o.score[arm := ComputeScore(o)]) else o
  {
    hide Tuning, ModuleScore, TouchesOnly, CoresTouched, ArmPending, ZeroDivisor, SameMeters, ComputeScore;
    hide BestFrom, ActivityOf, Leader;
  }
}
