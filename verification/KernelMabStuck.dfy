/** The other side of the switching bound: a residue that no score exceeds keeps the top arm. */
module KernelMabStuck {
  import opened Words
  import opened KernelMab
  import opened KernelMabRuns
  import opened KernelMabSelect
  import opened KernelMabSwitch

  const TOP_SCORE: u32 := 0xFFFF_FFFF

  // ----- Every run -----

  /** Every call in module m finds the highest residue. */
  ghost predicate HighResidue(cfg: Config, es: seq<Event>, m: nat)
    requires cfg.Valid()
  {
    forall i :: 0 <= i < |es| && ValidEvent(cfg, es[i]) && es[i].Work? && cfg.ModuleOf(es[i].tick.core) == m ==>
      es[i].tick.residue == TOP_SCORE
  }

  ghost predicate TopArmRuns(cfg: Config, s: State, m: nat)
    requires Valid(cfg, s) && m < cfg.modules
  {
    s.modules[m].init == Done && s.modules[m].activeArm == |cfg.arms| - 1
  }

  lemma TopArmIsKept(scores: seq<u32>)
    requires scores != []
    ensures SelectArm(scores, TOP_SCORE, |scores| - 1) == |scores| - 1
  {
    hide SelectArm;
    SelectionLeavesIff(scores, TOP_SCORE, |scores| - 1);
  }

  lemma TopArmStep(cfg: Config, s: State, e: Event, m: nat)
    requires Valid(cfg, s) && ValidEvent(cfg, e) && m < cfg.modules && TopArmRuns(cfg, s, m)
    requires !Resets(cfg, s, e, m)
    requires e.Work? && cfg.ModuleOf(e.tick.core) == m ==> e.tick.residue == TOP_SCORE
    ensures TopArmRuns(cfg, React(cfg, s, e), m)
  {
    hide Step, ActivityOf, SelectArm, ModuleScores, TunedCores;
    ReactModule(cfg, s, e, m);
    if e.Work? {
      var t := e.tick;
      if cfg.ModuleOf(t.core) != m {
        assert TouchesOnly(cfg, s, Step(cfg, s, t), t.core);
      } else if ActivityOf(s, t) == Active {
        TuningCall(cfg, s, t);
        TopArmIsKept(ModuleScores(cfg, TunedCores(cfg, s, t), m));
      } else if ActivityOf(s, t) == Idle {
        IdleCall(cfg, s, t);
      }
    }
  }

  /** Over every run without an idle reset in which the comparison always finds the highest residue,
      the top arm stays, whatever its scores and however long the others have collected bonuses. */
  lemma {:induction false} TopArmStays(cfg: Config, ss: seq<State>, es: seq<Event>, m: nat, n: nat)
    requires IsRun(cfg, ss, es) && m < cfg.modules && n <= |es|
    requires TopArmRuns(cfg, ss[0], m) && NoReset(cfg, ss, es, m) && HighResidue(cfg, es, m)
    ensures TopArmRuns(cfg, ss[n], m)
  {
    if n > 0 {
      hide React, TopArmRuns, Leads;
      TopArmStays(cfg, ss, es, m, n - 1);
      TopArmStep(cfg, ss[n - 1], es[n - 1], m);
      assert ss[n - 1 + 1] == React(cfg, ss[n - 1], es[n - 1]);
    }
  }
}
