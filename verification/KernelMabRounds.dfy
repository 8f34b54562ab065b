/** Rounds: every enabled core runs once per tick, in any order. */
module KernelMabRounds {
  import opened Words
  import opened KernelMab
  import KernelMabRuns

  ghost predicate ValidTicks(cfg: Config, ts: seq<Tick>) {
    forall i :: 0 <= i < |ts| ==> ValidTick(cfg, ts[i])
  }

  /** State after the first n calls of a round. */
  function After(cfg: Config, s: State, ts: seq<Tick>, n: nat): (r: State)
    requires Valid(cfg, s) && ValidTicks(cfg, ts) && n <= |ts|
    ensures Valid(cfg, r)
  {
    if n == 0 then s else Step(cfg, After(cfg, s, ts, n - 1), ts[n - 1])
  }

  ghost predicate DistinctCores(ts: seq<Tick>) {
    forall i, j :: 0 <= i < j < |ts| ==> ts[i].core != ts[j].core
  }

  ghost predicate Ticked(ts: seq<Tick>, n: nat, c: nat)
    requires n <= |ts|
  {
    exists i :: 0 <= i < n && ts[i].core == c
  }

  /** Every enabled core runs exactly once. */
  ghost predicate IsRound(cfg: Config, ts: seq<Tick>) {
    && ValidTicks(cfg, ts)
    && DistinctCores(ts)
    && forall c :: 0 <= c < |cfg.enabled| && cfg.enabled[c] ==> Ticked(ts, |ts|, c)
  }

  ghost predicate AllRounds(cfg: Config, rs: seq<seq<Tick>>) {
    forall i :: 0 <= i < |rs| ==> IsRound(cfg, rs[i])
  }

  /** State after the first k rounds. */
  ghost function AfterRounds(cfg: Config, s: State, rs: seq<seq<Tick>>, k: nat): (r: State)
    requires Valid(cfg, s) && k <= |rs| && AllRounds(cfg, rs)
    ensures Valid(cfg, r)
  {
    if k == 0 then s else After(cfg, AfterRounds(cfg, s, rs, k - 1), rs[k - 1], |rs[k - 1]|)
  }

  // ----- Leader calls within a round -----

  /** Once core c = ts[i].core has led, it stays a counting core for the rest of the round. */
  lemma {:induction false} LeaderKeepsCounting(cfg: Config, s: State, ts: seq<Tick>, i: nat, n: nat)
    requires Valid(cfg, s) && ValidTicks(cfg, ts) && DistinctCores(ts) && i < n <= |ts|
    requires Leads(cfg, After(cfg, s, ts, i), ts[i])
    ensures After(cfg, s, ts, n).cores[ts[i].core].idle == 0
  {
    hide Step, Leads, TouchesOnly;
    var before, t := After(cfg, s, ts, n - 1), ts[n - 1];
    if i < n - 1 {
      LeaderKeepsCounting(cfg, s, ts, i, n - 1);
      StepOthers(cfg, before, t, ts[i].core);
    } else {
      KernelMabRuns.StepOwnCore(cfg, before, t);
      LeadsMeansActive(cfg, before, t);
    }
  }

  lemma StepOthers(cfg: Config, s: State, t: Tick, c: nat)
    requires Valid(cfg, s) && ValidTick(cfg, t) && c < |s.cores| && c != t.core
    ensures SameMeters(s.cores[c], Step(cfg, s, t).cores[c])
  {
    hide Step;
    assert TouchesOnly(cfg, s, Step(cfg, s, t), t.core);
  }

  /** A core below a counting core's module-mate cannot be skipped: whoever leads sees no
      counting core below itself. */
  lemma LeaderIsLowest(cfg: Config, s: State, t: Tick, c: nat)
    requires Valid(cfg, s) && ValidTick(cfg, t) && Leads(cfg, s, t)
    requires c < |cfg.enabled| && cfg.enabled[c] && cfg.ModuleOf(c) == cfg.ModuleOf(t.core)
    requires s.cores[c].idle == 0
    ensures t.core <= c
  {
    hide Step;
    var w := Woken(cfg, Sampled(cfg, s, t), t.core);
    assert Counts(cfg, w.cores, c);
  }

  /** Within one round the leader calls of a module are made by cores with strictly falling ids. */
  lemma LeadersDescend(cfg: Config, s: State, ts: seq<Tick>, i: nat, j: nat)
    requires Valid(cfg, s) && ValidTicks(cfg, ts) && DistinctCores(ts) && i < j < |ts|
    requires cfg.ModuleOf(ts[i].core) == cfg.ModuleOf(ts[j].core)
    requires Leads(cfg, After(cfg, s, ts, i), ts[i]) && Leads(cfg, After(cfg, s, ts, j), ts[j])
    ensures ts[j].core < ts[i].core
  {
    hide Step;
    LeaderKeepsCounting(cfg, s, ts, i, j);
    LeaderIsLowest(cfg, After(cfg, s, ts, j), ts[j], ts[i].core);
  }

  predicate LeaderCall(cfg: Config, s: State, ts: seq<Tick>, m: nat, i: nat)
    requires Valid(cfg, s) && ValidTicks(cfg, ts) && i < |ts|
  {
    cfg.ModuleOf(ts[i].core) == m && Leads(cfg, After(cfg, s, ts, i), ts[i])
  }

  function LeaderCalls(cfg: Config, s: State, ts: seq<Tick>, m: nat, n: nat): nat
    requires Valid(cfg, s) && ValidTicks(cfg, ts) && n <= |ts|
  {
    if n == 0 then 0
    else LeaderCalls(cfg, s, ts, m, n - 1) + if LeaderCall(cfg, s, ts, m, n - 1) then 1 else 0
  }

  /** The first n calls hold at most 4 minus the offset of the last leader, seen from `bound`. */
  lemma {:induction false} LeaderCallsBounded(cfg: Config, s: State, ts: seq<Tick>, m: nat, n: nat, bound: nat)
    requires Valid(cfg, s) && ValidTicks(cfg, ts) && DistinctCores(ts) && n <= |ts| && m < cfg.modules
    requires cfg.Start(m) <= bound <= cfg.Start(m) + CORES_PER_MODULE
    requires forall i :: 0 <= i < n && LeaderCall(cfg, s, ts, m, i) ==> ts[i].core >= bound
    ensures LeaderCalls(cfg, s, ts, m, n) <= cfg.Start(m) + CORES_PER_MODULE - bound
  {
    hide Step, Leads;
    if n > 0 {
      var c := ts[n - 1].core;
      if LeaderCall(cfg, s, ts, m, n - 1) {
        forall i | 0 <= i < n - 1 && LeaderCall(cfg, s, ts, m, i) ensures ts[i].core >= c + 1 {
          LeadersDescend(cfg, s, ts, i, n - 1);
        }
        LeaderCallsBounded(cfg, s, ts, m, n - 1, c + 1);
      } else {
        LeaderCallsBounded(cfg, s, ts, m, n - 1, bound);
      }
    }
  }

  /** At most four leader calls per module and round; at most one if cores run in ascending order. */
  lemma LeaderCallsPerRound(cfg: Config, s: State, ts: seq<Tick>, m: nat)
    requires Valid(cfg, s) && IsRound(cfg, ts) && m < cfg.modules
    ensures LeaderCalls(cfg, s, ts, m, |ts|) <= 4
    ensures (forall i, j :: 0 <= i < j < |ts| ==> ts[i].core < ts[j].core) ==> LeaderCalls(cfg, s, ts, m, |ts|) <= 1
  {
    hide Step, Leads;
    forall i | 0 <= i < |ts| && LeaderCall(cfg, s, ts, m, i) ensures ts[i].core >= cfg.Start(m) {
      assert ValidTick(cfg, ts[i]);
    }
    LeaderCallsBounded(cfg, s, ts, m, |ts|, cfg.Start(m));
    if forall i, j :: 0 <= i < j < |ts| ==> ts[i].core < ts[j].core {
      AscendingOneLeader(cfg, s, ts, m, |ts|);
    }
  }

  lemma {:induction false} AscendingOneLeader(cfg: Config, s: State, ts: seq<Tick>, m: nat, n: nat)
    requires Valid(cfg, s) && ValidTicks(cfg, ts) && n <= |ts| && m < cfg.modules
    requires forall i, j :: 0 <= i < j < |ts| ==> ts[i].core < ts[j].core
    ensures LeaderCalls(cfg, s, ts, m, n) <= 1
    ensures LeaderCalls(cfg, s, ts, m, n) == 1 ==> exists i :: 0 <= i < n && LeaderCall(cfg, s, ts, m, i)
  {
    hide Step, Leads;
    if n > 0 {
      AscendingOneLeader(cfg, s, ts, m, n - 1);
      if LeaderCall(cfg, s, ts, m, n - 1) && LeaderCalls(cfg, s, ts, m, n - 1) == 1 {
        var i :| 0 <= i < n - 1 && LeaderCall(cfg, s, ts, m, i);
        LeadersDescend(cfg, s, ts, i, n - 1);
      }
    }
  }

  // ----- No division by zero -----

  /** The clock is running and at least a millisecond has passed since the core's last call. */
  predicate Timely(s: State, t: Tick)
    requires t.core < |s.cores|
  {
    1 <= t.now && (s.cores[t.core].timeOld != 0 ==> s.cores[t.core].timeOld + NS_PER_MS <= t.now)
  }

  ghost predicate TimelyRound(cfg: Config, s: State, ts: seq<Tick>)
    requires Valid(cfg, s) && ValidTicks(cfg, ts)
  {
    forall i :: 0 <= i < |ts| ==> Timely(After(cfg, s, ts, i), ts[i])
  }

  /** Exactly when a call divides by zero. */
  lemma StepFault(cfg: Config, s: State, t: Tick)
    requires Valid(cfg, s) && ValidTick(cfg, t)
    ensures var m, w := cfg.ModuleOf(t.core), Woken(cfg, Sampled(cfg, s, t), t.core);
      Step(cfg, s, t).fault <==>
        || s.fault
        || (ActivityOf(s, t) == Active && s.modules[m].init == Done && Divisor(w.cores[t.core]) == 0)
        || (Scans(cfg, s, t) && s.modules[m].init == InProgress
            && ZeroDivisor(cfg, w.cores, cfg.Start(m), cfg.Start(m) + CORES_PER_MODULE))
  {
    hide RecordScores, ModuleScore, ModuleScores, TouchesOnly, CoresTouched, ArmPending;
  }

  /** A core judged active has run enough cycles to be scored. */
  lemma ActiveIsScorable(s: State, t: Tick)
    requires t.core < |s.cores| && ActivityOf(s, t) == Active
    ensures CycleDelta(PmuUpdate(s.cores[t.core], t.cycles, t.instr)) >= IDLE_CYCLES_PER_MS
  {
    var c := PmuUpdate(s.cores[t.core], t.cycles, t.instr);
    var delta, ms := CycleDelta(c), Sub64(t.now, c.timeOld) / NS_PER_MS;
    assert delta / ms >= IDLE_CYCLES_PER_MS;
    DivideAtMost(delta, ms);
  }

  lemma DivideAtMost(a: nat, b: nat)
    requires b >= 1
    ensures a / b <= a
  {
    var q := a / b;
    assert a == b * q + a % b;
    assert b * q == q + (b - 1) * q;
    Nonnegative(b - 1, q);
  }

  lemma Nonnegative(a: nat, b: nat)
    ensures a * b >= 0
  {
  }

  /** If the core counts, its last reading covers enough cycles to be scored. */
  predicate Scorable(c: Core) {
    c.idle == 0 ==> CycleDelta(c) >= IDLE_CYCLES_PER_MS
  }

  lemma TimelyVerdict(cfg: Config, s: State, t: Tick)
    requires Valid(cfg, s) && ValidTick(cfg, t) && Timely(s, t)
    ensures s.cores[t.core].timeOld == 0 ==> ActivityOf(s, t) == Unknown
    ensures s.cores[t.core].timeOld != 0 ==> ActivityOf(s, t) != Unknown
    ensures s.cores[t.core].timeOld != 0 ==> Scorable(Step(cfg, s, t).cores[t.core])
    ensures Step(cfg, s, t).cores[t.core].timeOld != 0
  {
    KernelMabRuns.StepOwnCore(cfg, s, t);
    hide Step;
    if ActivityOf(s, t) == Active {
      ActiveIsScorable(s, t);
    }
  }

  /** First round: clocks are being seeded and nothing else moves. */
  ghost predicate Seeding(cfg: Config, s: State, ts: seq<Tick>, n: nat)
    requires Valid(cfg, s) && n <= |ts|
  {
    && !s.fault
    && (forall c :: 0 <= c < |s.cores| ==> s.cores[c].idle == 0)
    && (forall c :: 0 <= c < |s.cores| && cfg.enabled[c] ==> (s.cores[c].timeOld != 0 <==> Ticked(ts, n, c)))
    && (forall m :: 0 <= m < cfg.modules ==> s.modules[m].init == NotStarted)
  }

  /** Second round: cores that have run are scorable; the others still count as active, and in a
      module whose scan has begun none of those can lead. */
  ghost predicate FirstVerdicts(cfg: Config, s: State, ts: seq<Tick>, n: nat)
    requires Valid(cfg, s) && n <= |ts|
  {
    && !s.fault
    && (forall c :: 0 <= c < |s.cores| && cfg.enabled[c] ==>
          s.cores[c].timeOld != 0 && if Ticked(ts, n, c) then Scorable(s.cores[c]) else s.cores[c].idle == 0)
    && (forall m :: 0 <= m < cfg.modules ==> s.modules[m].init != Done)
    && (forall c :: 0 <= c < |s.cores| && cfg.enabled[c] && !Ticked(ts, n, c) ==>
          (s.modules[cfg.ModuleOf(c)].init == InProgress ==> ShadowedByLeader(cfg, s, ts, n, c)))
  }

  /** A module-mate below c has already run this round and counts. */
  ghost predicate ShadowedByLeader(cfg: Config, s: State, ts: seq<Tick>, n: nat, c: nat)
    requires Valid(cfg, s) && n <= |ts| && c < |s.cores| && cfg.enabled[c]
  {
    exists l :: 0 <= l < c && Ticked(ts, n, l)
      && cfg.enabled[l] && cfg.ModuleOf(l) == cfg.ModuleOf(c) && s.cores[l].idle == 0
  }

  /** From the third round on: every enabled core has been judged. */
  ghost predicate Judged(cfg: Config, s: State)
    requires Valid(cfg, s)
  {
    && !s.fault
    && (forall c :: 0 <= c < |s.cores| && cfg.enabled[c] ==> s.cores[c].timeOld != 0 && Scorable(s.cores[c]))
  }

  lemma TickedNext(ts: seq<Tick>, n: nat)
    requires n < |ts|
    ensures forall c :: Ticked(ts, n + 1, c) <==> Ticked(ts, n, c) || c == ts[n].core
  {
    forall c | Ticked(ts, n, c) ensures Ticked(ts, n + 1, c) {
      var i :| 0 <= i < n && ts[i].core == c;
    }
  }

  lemma SeedingStep(cfg: Config, s: State, ts: seq<Tick>, n: nat)
    requires Valid(cfg, s) && ValidTicks(cfg, ts) && DistinctCores(ts) && n < |ts|
    requires Seeding(cfg, s, ts, n) && Timely(s, ts[n])
    ensures Seeding(cfg, Step(cfg, s, ts[n]), ts, n + 1)
  {
    TickedNext(ts, n);
    TimelyVerdict(cfg, s, ts[n]);
    assert Step(cfg, s, ts[n]) == Sampled(cfg, s, ts[n]);
    hide Step;
  }

  /** In the second round no call scores anything. */
  lemma NoScoringYet(cfg: Config, s: State, ts: seq<Tick>, n: nat)
    requires Valid(cfg, s) && ValidTicks(cfg, ts) && DistinctCores(ts) && n < |ts|
    requires FirstVerdicts(cfg, s, ts, n)
    ensures s.modules[cfg.ModuleOf(ts[n].core)].init == InProgress ==> !Scans(cfg, s, ts[n])
    ensures !Step(cfg, s, ts[n]).fault
  {
    hide Step, Leads;
    var t := ts[n];
    StepFault(cfg, s, t);
    if s.modules[cfg.ModuleOf(t.core)].init == InProgress && Scans(cfg, s, t) {
      assert !Ticked(ts, n, t.core);
      assert ShadowedByLeader(cfg, s, ts, n, t.core);
      var l :| 0 <= l < t.core && Ticked(ts, n, l) && cfg.enabled[l] && cfg.ModuleOf(l) == cfg.ModuleOf(t.core)
        && s.cores[l].idle == 0;
      LeaderIsLowest(cfg, s, t, l);
    }
  }

  lemma StillShadowed(cfg: Config, s: State, ts: seq<Tick>, n: nat, c: nat)
    requires Valid(cfg, s) && ValidTicks(cfg, ts) && DistinctCores(ts) && n < |ts|
    requires FirstVerdicts(cfg, s, ts, n) && c < |s.cores| && cfg.enabled[c] && !Ticked(ts, n, c) && c != ts[n].core
    requires Step(cfg, s, ts[n]).modules[cfg.ModuleOf(c)].init == InProgress
    ensures ShadowedByLeader(cfg, Step(cfg, s, ts[n]), ts, n + 1, c)
  {
    hide Step, Leads;
    var t, r := ts[n], Step(cfg, s, ts[n]);
    TickedNext(ts, n);
    KernelMabRuns.StepModule(cfg, s, t);
    assert TouchesOnly(cfg, s, r, t.core);
    if s.modules[cfg.ModuleOf(c)].init == InProgress {
      assert ShadowedByLeader(cfg, s, ts, n, c);
      var l :| 0 <= l < c && Ticked(ts, n, l)
        && cfg.enabled[l] && cfg.ModuleOf(l) == cfg.ModuleOf(c) && s.cores[l].idle == 0;
      StepOthers(cfg, s, t, l);
    } else {
      assert Scans(cfg, s, t) && cfg.ModuleOf(t.core) == cfg.ModuleOf(c);
      LeaderIsLowest(cfg, s, t, c);
      KernelMabRuns.StepOwnCore(cfg, s, t);
      LeadsMeansActive(cfg, s, t);
    }
  }

  lemma LeadsMeansActive(cfg: Config, s: State, t: Tick)
    requires Valid(cfg, s) && ValidTick(cfg, t)
    ensures Leads(cfg, s, t) ==> ActivityOf(s, t) == Active
  {
    hide Step;
  }

  lemma FirstVerdictsStep(cfg: Config, s: State, ts: seq<Tick>, n: nat)
    requires Valid(cfg, s) && ValidTicks(cfg, ts) && DistinctCores(ts) && n < |ts|
    requires FirstVerdicts(cfg, s, ts, n) && Timely(s, ts[n])
    ensures FirstVerdicts(cfg, Step(cfg, s, ts[n]), ts, n + 1)
  {
    hide Step, Leads;
    var t, r := ts[n], Step(cfg, s, ts[n]);
    TickedNext(ts, n);
    NoScoringYet(cfg, s, ts, n);
    TimelyVerdict(cfg, s, t);
    forall c | 0 <= c < |r.cores| && cfg.enabled[c] && c != t.core ensures SameMeters(s.cores[c], r.cores[c]) {
      StepOthers(cfg, s, t, c);
    }
    forall c | 0 <= c < |r.cores| && cfg.enabled[c] && !Ticked(ts, n + 1, c)
      && r.modules[cfg.ModuleOf(c)].init == InProgress
      ensures ShadowedByLeader(cfg, r, ts, n + 1, c)
    {
      StillShadowed(cfg, s, ts, n, c);
    }
    NoScanFinishes(cfg, s, ts, n);
  }

  lemma NoScanFinishes(cfg: Config, s: State, ts: seq<Tick>, n: nat)
    requires Valid(cfg, s) && ValidTicks(cfg, ts) && DistinctCores(ts) && n < |ts|
    requires FirstVerdicts(cfg, s, ts, n)
    ensures forall m :: 0 <= m < cfg.modules ==> Step(cfg, s, ts[n]).modules[m].init != Done
  {
    hide Step, Leads;
    var t, r := ts[n], Step(cfg, s, ts[n]);
    NoScoringYet(cfg, s, ts, n);
    KernelMabRuns.StepModule(cfg, s, t);
    assert TouchesOnly(cfg, s, r, t.core);
    assert r.modules[cfg.ModuleOf(t.core)].init != Done;
  }

  /** Once every enabled core has been judged, no divisor a leader meets is zero. */
  lemma JudgedStep(cfg: Config, s: State, t: Tick)
    requires Valid(cfg, s) && ValidTick(cfg, t) && Judged(cfg, s) && Timely(s, t)
    ensures Judged(cfg, Step(cfg, s, t))
  {
    hide Step, Leads;
    var r := Step(cfg, s, t);
    TimelyVerdict(cfg, s, t);
    forall c | 0 <= c < |r.cores| && c != t.core ensures SameMeters(s.cores[c], r.cores[c]) {
      StepOthers(cfg, s, t, c);
    }
    StepFault(cfg, s, t);
    LeadsMeansActive(cfg, s, t);
    if ActivityOf(s, t) == Active {
      ActiveIsScorable(s, t);
      var w := Woken(cfg, Sampled(cfg, s, t), t.core);
      assert forall c :: 0 <= c < |w.cores| && Counts(cfg, w.cores, c) ==> CycleDelta(w.cores[c]) >= IDLE_CYCLES_PER_MS;
    }
  }

  ghost predicate TimelyRounds(cfg: Config, s: State, rs: seq<seq<Tick>>)
    requires Valid(cfg, s) && AllRounds(cfg, rs)
  {
    forall i :: 0 <= i < |rs| ==> TimelyRound(cfg, AfterRounds(cfg, s, rs, i), rs[i])
  }

  /** What holds after n calls of round k, counting rounds from 0. */
  ghost predicate RoundInvariant(cfg: Config, s: State, ts: seq<Tick>, k: nat, n: nat)
    requires Valid(cfg, s) && n <= |ts|
  {
    if k == 0 then Seeding(cfg, s, ts, n)
    else if k == 1 then FirstVerdicts(cfg, s, ts, n)
    else Judged(cfg, s)
  }

  lemma TimelyAt(cfg: Config, s: State, ts: seq<Tick>, i: nat)
    requires Valid(cfg, s) && ValidTicks(cfg, ts) && TimelyRound(cfg, s, ts) && i < |ts|
    ensures Timely(After(cfg, s, ts, i), ts[i])
  {
    hide After;
  }

  lemma {:induction false} WithinRound(cfg: Config, s: State, ts: seq<Tick>, k: nat, n: nat)
    requires Valid(cfg, s) && IsRound(cfg, ts) && TimelyRound(cfg, s, ts) && n <= |ts|
    requires RoundInvariant(cfg, s, ts, k, 0)
    ensures RoundInvariant(cfg, After(cfg, s, ts, n), ts, k, n)
  {
    hide Step, TouchesOnly, Seeding, FirstVerdicts, Judged, TimelyRound, Timely;
    if n > 0 {
      WithinRound(cfg, s, ts, k, n - 1);
      var before := After(cfg, s, ts, n - 1);
      TimelyAt(cfg, s, ts, n - 1);
      if k == 0 {
        SeedingStep(cfg, before, ts, n - 1);
      } else if k == 1 {
        FirstVerdictsStep(cfg, before, ts, n - 1);
      } else {
        JudgedStep(cfg, before, ts[n - 1]);
      }
    }
  }

  lemma NextRound(cfg: Config, s: State, ts: seq<Tick>, next: seq<Tick>, k: nat)
    requires Valid(cfg, s) && IsRound(cfg, ts) && RoundInvariant(cfg, s, ts, k, |ts|)
    ensures RoundInvariant(cfg, s, next, k + 1, 0)
  {
  }

  lemma TimelyRoundAt(cfg: Config, s: State, rs: seq<seq<Tick>>, k: nat)
    requires Valid(cfg, s) && AllRounds(cfg, rs) && TimelyRounds(cfg, s, rs) && k < |rs|
    ensures TimelyRound(cfg, AfterRounds(cfg, s, rs, k), rs[k])
  {
    hide AfterRounds, TimelyRound;
  }

  lemma LoadedSeeds(cfg: Config, s: State, ts: seq<Tick>)
    requires Loaded(cfg, s)
    ensures RoundInvariant(cfg, s, ts, 0, 0)
  {
  }

  lemma {:induction false} AtRoundStart(cfg: Config, s: State, rs: seq<seq<Tick>>, k: nat)
    requires Valid(cfg, s) && Loaded(cfg, s) && AllRounds(cfg, rs) && TimelyRounds(cfg, s, rs)
    requires k < |rs|
    ensures RoundInvariant(cfg, AfterRounds(cfg, s, rs, k), rs[k], k, 0)
  {
    hide Step, TimelyRounds, TimelyRound, RoundInvariant, Loaded, DistinctCores, Ticked;
    if k == 0 {
      LoadedSeeds(cfg, s, rs[0]);
    } else {
      AtRoundStart(cfg, s, rs, k - 1);
      var start := AfterRounds(cfg, s, rs, k - 1);
      TimelyRoundAt(cfg, s, rs, k - 1);
      WithinRound(cfg, start, rs[k - 1], k - 1, |rs[k - 1]|);
      NextRound(cfg, AfterRounds(cfg, s, rs, k), rs[k - 1], rs[k], k - 1);
    }
  }

  /** Over all runs of rounds from module load, with at least a millisecond between the calls of
      one core and no other counter reading, no score is ever computed with a zero divisor:
      neither the caller's own nor that of a core its leader scores. */
  lemma NeverDividesByZero(cfg: Config, s: State, rs: seq<seq<Tick>>, k: nat, n: nat)
    requires Valid(cfg, s) && Loaded(cfg, s) && AllRounds(cfg, rs) && TimelyRounds(cfg, s, rs)
    requires k < |rs| && n <= |rs[k]|
    ensures !After(cfg, AfterRounds(cfg, s, rs, k), rs[k], n).fault
  {
    hide Step, TimelyRounds, TimelyRound;
    AtRoundStart(cfg, s, rs, k);
    TimelyRoundAt(cfg, s, rs, k);
    WithinRound(cfg, AfterRounds(cfg, s, rs, k), rs[k], k, n);
  }

  /** The proviso on counter readings is needed: if a request re-reads a counting core whose
      counter has not moved, the next scan call of the module divides by zero. */
  lemma InterleavedReadFaults(cfg: Config, s: State, t: Tick, c: nat, instr: u64)
    requires Valid(cfg, s) && ValidTick(cfg, t) && c < |cfg.enabled| && c != t.core && Counts(cfg, s.cores, c)
    requires cfg.ModuleOf(c) == cfg.ModuleOf(t.core) && s.modules[cfg.ModuleOf(c)].init == InProgress
    requires Scans(cfg, s, t)
    ensures var read := KernelMabRuns.React(cfg, s, KernelMabRuns.ReadCounters(c, s.cores[c].cycles, instr));
      Step(cfg, read, t).fault
  {
    hide Step, Leader, TouchesOnly, Counts, Divisor;
    var read := KernelMabRuns.React(cfg, s, KernelMabRuns.ReadCounters(c, s.cores[c].cycles, instr));
    var w, v := Woken(cfg, Sampled(cfg, read, t), t.core), Woken(cfg, Sampled(cfg, s, t), t.core);
    SameLeader(cfg, w, v, cfg.ModuleOf(c));
    StepFault(cfg, read, t);
    ReReadHasNoDivisor(cfg, s, t, c, instr);
    hide Woken, Sampled, KernelMabRuns.React;
    assert ZeroDivisor(cfg, w.cores, cfg.Start(cfg.ModuleOf(c)), cfg.Start(cfg.ModuleOf(c)) + CORES_PER_MODULE);
  }

  lemma ReReadHasNoDivisor(cfg: Config, s: State, t: Tick, c: nat, instr: u64)
    requires Valid(cfg, s) && ValidTick(cfg, t) && c < |cfg.enabled| && c != t.core && Counts(cfg, s.cores, c)
    ensures var read := KernelMabRuns.React(cfg, s, KernelMabRuns.ReadCounters(c, s.cores[c].cycles, instr));
      var w := Woken(cfg, Sampled(cfg, read, t), t.core);
      Counts(cfg, w.cores, c) && Divisor(w.cores[c]) == 0
  {
    hide TouchesOnly, CoresTouched;
  }
}
