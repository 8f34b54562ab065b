/** What the arm comparison of the tuning step selects. */
module KernelMabSelect {
  import opened Words
  import opened KernelMab
  import opened KernelMabRuns

  // ----- The selected arm -----

  /** The intended choice: the running arm if no arm beats it, else the lowest-index maximum. */
  ghost predicate IntendedChoice(scores: seq<u32>, active: nat, r: nat)
    requires active < |scores|
  {
    if forall j :: 0 <= j < |scores| ==> scores[j] <= scores[active] then r == active
    else LowestMaximum(scores, r)
  }

  function Max(scores: seq<u32>): (r: u32)
    requires scores != []
    ensures r in scores && forall j :: 0 <= j < |scores| ==> scores[j] <= r
  {
    if |scores| == 1 then scores[0]
    else
      var rest := Max(scores[1..]);
      assert forall j :: 1 <= j < |scores| ==> scores[j] == scores[1..][j - 1];
      if scores[0] >= rest then scores[0] else rest
  }

  /** With the compared slot filled, the loop keeps `best` unless a later score beats it, and
      then takes the first of the highest. */
  lemma {:induction false} SelectFilled(scores: seq<u32>, residue: u32, active: nat, best: nat, i: nat)
    requires active < |scores| && best < i <= |scores|
    ensures var r := SelectFrom(scores, residue, active, best, i);
      && (r == best || r >= i)
      && scores[best] <= scores[r]
      && (r != best ==> scores[best] < scores[r])
      && (forall j :: i <= j < |scores| ==> scores[j] <= scores[r])
      && (forall j :: i <= j < r ==> scores[j] < scores[r])
    decreases |scores| - i
  {
    if i < |scores| {
      SelectFilled(scores, residue, active, if scores[i] > scores[best] then i else best, i + 1);
    }
  }

  /** Before the running arm's slot is filled, the residue stands in for it. */
  lemma {:induction false} SelectUnfilled(scores: seq<u32>, residue: u32, active: nat, i: nat)
    requires active < |scores| && i <= active
    requires forall j :: 0 <= j < i ==> scores[j] <= residue
    ensures var r := SelectFrom(scores, residue, active, active, i);
      if forall j :: 0 <= j < active ==> scores[j] <= residue
      then && r >= active
           && (forall j :: active <= j < |scores| ==> scores[j] <= scores[r])
           && (r != active ==> forall j :: active <= j < r ==> scores[j] < scores[r])
      else LowestMaximum(scores, r)
    decreases active - i
  {
    if i == active {
      SelectFilled(scores, residue, active, active, active + 1);
    } else if scores[i] > residue {
      SelectFilled(scores, residue, active, i, i + 1);
    } else {
      SelectUnfilled(scores, residue, active, i + 1);
    }
  }

  /** The comparison reads the slot of the running arm before filling it. The outcome is the
      intended choice if and only if arm 0 is running, or no arm below the running one reaches
      the overall maximum, or the residue compares with the best arm below as the running arm's
      true score does. */
  lemma SelectionIsIntendedIff(scores: seq<u32>, residue: u32, active: nat)
    requires active < |scores|
    ensures IntendedChoice(scores, active, SelectArm(scores, residue, active)) <==>
      || active == 0
      || Max(scores[..active]) < Max(scores)
      || (Max(scores[..active]) > residue <==> Max(scores[..active]) > scores[active])
  {
    hide SelectFrom, Max;
    SelectUnfilled(scores, residue, active, 0);
    var top := Max(scores);
    var k :| 0 <= k < |scores| && scores[k] == top;
    if active > 0 {
      var low := scores[..active];
      var peak := Max(low);
      var b :| 0 <= b < active && low[b] == peak;
      assert scores[b] == peak && forall j :: 0 <= j < active ==> scores[j] == low[j];
      if peak > residue {
        SelectionIsLowest(scores, residue, active, b, peak);
      } else {
        SelectionIsAbove(scores, residue, active, b, peak);
      }
    }
  }

  /** The comparison leaves the running arm if and only if a lower arm beats the residue and is at
      least as good as the running arm, or a higher arm beats the running arm. */
  lemma SelectionLeavesIff(scores: seq<u32>, residue: u32, active: nat)
    requires active < |scores|
    ensures SelectArm(scores, residue, active) != active <==>
      || (exists j :: 0 <= j < active && scores[j] > residue && scores[j] >= scores[active])
      || (exists j :: active < j < |scores| && scores[j] > scores[active])
  {
    hide SelectFrom;
    SelectUnfilled(scores, residue, active, 0);
    var r := SelectArm(scores, residue, active);
    if LowestMaximum(scores, r) && exists j :: 0 <= j < active && scores[j] > residue {
      var k :| 0 <= k < active && scores[k] > residue;
      assert r < active ==> scores[r] > residue && scores[r] >= scores[active];
    }
  }

  /** With two arms, arm 1 gives way to arm 0 if and only if arm 0 beats the residue and is at
      least as good. */
  lemma ArmOneLeavesIff(scores: seq<u32>, residue: u32)
    requires |scores| == 2
    ensures SelectArm(scores, residue, 1) == 0 <==> scores[0] > residue && scores[0] >= scores[1]
  {
    hide SelectArm;
    SelectionLeavesIff(scores, residue, 1);
  }

  /** Some lower arm beats the residue: ties go to the lowest index instead of the running arm. */
  lemma SelectionIsLowest(scores: seq<u32>, residue: u32, active: nat, b: nat, peak: u32)
    requires b < active < |scores| && scores[b] == peak > residue
    requires forall j :: 0 <= j < active ==> scores[j] <= peak
    requires LowestMaximum(scores, SelectArm(scores, residue, active))
    ensures IntendedChoice(scores, active, SelectArm(scores, residue, active)) <==>
      ((exists j :: 0 <= j < |scores| && scores[j] > peak) || peak > scores[active])
  {
    hide SelectArm;
  }

  /** No lower arm beats the residue: the arms below the running one are passed over. */
  lemma SelectionIsAbove(scores: seq<u32>, residue: u32, active: nat, b: nat, peak: u32)
    requires b < active < |scores| && scores[b] == peak <= residue
    requires forall j :: 0 <= j < active ==> scores[j] <= peak
    requires var r := SelectArm(scores, residue, active);
      && r >= active
      && (forall j :: active <= j < |scores| ==> scores[j] <= scores[r])
      && (r != active ==> forall j :: active <= j < r ==> scores[j] < scores[r])
    ensures IntendedChoice(scores, active, SelectArm(scores, residue, active)) <==>
      ((exists j :: 0 <= j < |scores| && scores[j] > peak) || peak <= scores[active])
  {
    hide SelectArm;
  }

  /** While arm 0 runs, the choice is the intended one whatever the stack holds. */
  lemma ArmZeroSelection(scores: seq<u32>, residue: u32)
    requires scores != []
    ensures IntendedChoice(scores, 0, SelectArm(scores, residue, 0))
    ensures LowestMaximum(scores, SelectArm(scores, residue, 0))
  {
    SelectionIsIntendedIff(scores, residue, 0);
  }

  /** With arm 1 of two running, a high residue keeps a beaten arm and a low one drops a tied arm. */
  lemma ArmOneSelectionCanFail()
    ensures SelectArm([7, 3], 9, 1) == 1 && !IntendedChoice([7, 3], 1, 1)
    ensures SelectArm([5, 5], 0, 1) == 0 && !IntendedChoice([5, 5], 1, 0)
  {
    var a: seq<u32> := [7, 3];
    var b: seq<u32> := [5, 5];
    assert SelectFrom(a, 9, 1, 1, 1) == 1;
    assert SelectFrom(b, 0, 1, 0, 1) == 0;
    assert a[0] > a[1];
    assert forall j :: 0 <= j < |b| ==> b[j] <= b[1];
  }
}
