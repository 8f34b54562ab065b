/** The two user-space controllers that follow memory bandwidth: one steers the queue thresholds of
    register 0x1320, the other its prefetch distances. */
module Controllers {
  import opened Words
  import opened MsrLayout

  const XQ_MAX := 31
  const L2_DIST_MAX := 31
  const L3_DIST_MAX := 63

  // Slots of register 0x1320.
  const L2XQ := 0
  const L2DIST := 6
  const L3DIST := 12
  const L3XQ := 18

  /** Nearest integer, halves away from zero. */
  function Round(x: real): int {
    if x >= 0.0 then (x + 0.5).Floor else -((-x + 0.5).Floor)
  }

  /** The share of the bandwidth target (in MiB per second) that a number of bytes read in `ms`
      milliseconds amounts to. Where the code divides by zero, a share with the same effect: a result
      that is infinite or not a number fails every comparison with an upper limit, like 1, unless it
      is below every limit, like 0. */
  function ShareOf(bytes: nat, target: int, ms: nat): real {
    if target == 0 then 1.0
    else
      var share := bytes as real / 1048576.0 / target as real;
      if ms > 0 then share / (ms as real / 1000.0) else if share < 0.0 then 0.0 else 1.0
  }

  /** How strongly a share of the bandwidth target pulls the queue thresholds. */
  function Pull(share: real): int {
    if share < 0.10 then 0
    else if share < 0.20 then -8
    else if share < 0.30 then -4
    else if share < 0.40 then -2
    else if share < 0.80 then -1
    else if share < 0.90 then 1
    else if share < 0.93 then 2
    else if share < 0.96 then 4
    else 8
  }

  function Scaled(weight: int, aggr: real): int {
    Round(weight as real * aggr)
  }

  function Clamp(x: int, max: nat): (r: nat)
    requires max >= 1
    ensures 1 <= r <= max
    ensures 1 <= x <= max ==> r == x
  {
    if x <= 0 then 1 else if x > max then max else x
  }

  /** One field moved by `by` within 1..max. */
  function Moved(v: nat, slot: nat, delta: int, max: nat): nat
    requires slot < |MSR_1320| && max >= 1
  {
    Set(v, MSR_1320, slot, Clamp(Get(v, MSR_1320, slot) + delta, max))
  }

  /** One tick of one thread's register. */
  function Ticked(v: nat, algorithm: int, share: real, aggr: real): nat {
    if algorithm == 0 then
      var delta := Scaled(Pull(share), aggr);
      Moved(Moved(v, L2XQ, delta, XQ_MAX), L3XQ, delta, XQ_MAX)
    else if algorithm == 1 then
      var delta := Scaled(-Pull(share), aggr);
      Moved(Moved(v, L2DIST, delta, L2_DIST_MAX), L3DIST, delta, L3_DIST_MAX)
    else v
  }

  /** The maximum of a slot the algorithm steers; 0 for any other slot. */
  function SteeredMax(algorithm: int, slot: nat): nat {
    if algorithm == 0 && (slot == L2XQ || slot == L3XQ) then XQ_MAX
    else if algorithm == 1 && slot == L2DIST then L2_DIST_MAX
    else if algorithm == 1 && slot == L3DIST then L3_DIST_MAX
    else 0
  }

  function Direction(algorithm: int, share: real): int {
    if algorithm == 0 then Pull(share) else -Pull(share)
  }

  lemma WidthsHoldMaxima()
    ensures Pow2(5) == 32 && Pow2(6) == 64
  {
    assert Pow2(1) == 2;
    assert Pow2(2) == 4;
    assert Pow2(3) == 8;
    assert Pow2(4) == 16;
  }

  /** A moved field reads back exactly the clamped value; every other slot is as before. */
  lemma MovedReadsBack(v: nat, slot: nat, delta: int, max: nat)
    requires slot < |MSR_1320| && 1 <= max < Pow2(MSR_1320[slot].width)
    ensures Get(Moved(v, slot, delta, max), MSR_1320, slot) == Clamp(Get(v, MSR_1320, slot) + delta, max)
    ensures forall j :: 0 <= j < |MSR_1320| && j != slot ==>
      Get(Moved(v, slot, delta, max), MSR_1320, j) == Get(v, MSR_1320, j)
    ensures Above(Moved(v, slot, delta, max), MSR_1320) == Above(v, MSR_1320)
  {
    hide Get, Set, Above;
    var x := Clamp(Get(v, MSR_1320, slot) + delta, max);
    SetChangesOnlyItsSlot(v, MSR_1320, slot, x);
    LowOfSmall(x, MSR_1320[slot].width);
  }

  /** Moving two different fields leaves the register as it was only if neither move did anything. */
  lemma MovesDoNotCancel(v: nat, a: nat, b: nat, delta: int, aMax: nat, bMax: nat)
    requires a < |MSR_1320| && b < |MSR_1320| && a != b
    requires 1 <= aMax < Pow2(MSR_1320[a].width) && 1 <= bMax < Pow2(MSR_1320[b].width)
    ensures var u := Moved(v, a, delta, aMax);
      Moved(u, b, delta, bMax) == v ==> u == v
  {
    hide Get, Set, Above;
    MovedReadsBack(v, a, delta, aMax);
    MovedReadsBack(Moved(v, a, delta, aMax), b, delta, bMax);
    SetGet(v, MSR_1320, a);
  }

  /** A slot after a tick: clamped and moved if steered, otherwise as it was. */
  function Expected(was: nat, max: nat, delta: int): nat {
    if max == 0 then was else Clamp(was + delta, max)
  }

  /** Each tick leaves both steered fields at their clamped new values, hence within 1 and their
      maxima, and every other slot and all bits above the layout as they were. */
  lemma TickSteersOnlyItsFields(v: nat, algorithm: int, share: real, aggr: real)
    ensures var r, delta := Ticked(v, algorithm, share, aggr), Scaled(Direction(algorithm, share), aggr);
      && (forall j :: 0 <= j < |MSR_1320| ==>
        Get(r, MSR_1320, j) == Expected(Get(v, MSR_1320, j), SteeredMax(algorithm, j), delta))
      && Above(r, MSR_1320) == Above(v, MSR_1320)
  {
    WidthsHoldMaxima();
    hide Get, Set, Above, Moved, Pow2, Pull, Scaled;
    var delta := Scaled(Direction(algorithm, share), aggr);
    if algorithm == 0 {
      MovedReadsBack(v, L2XQ, delta, XQ_MAX);
      MovedReadsBack(Moved(v, L2XQ, delta, XQ_MAX), L3XQ, delta, XQ_MAX);
    } else if algorithm == 1 {
      MovedReadsBack(v, L2DIST, delta, L2_DIST_MAX);
      MovedReadsBack(Moved(v, L2DIST, delta, L2_DIST_MAX), L3DIST, delta, L3_DIST_MAX);
    }
  }

  // ----- Runs -----

  /** A register after ticks with the given shares. */
  function AfterTicks(v: nat, algorithm: int, shares: seq<real>, aggr: real): nat {
    if shares == [] then v
    else Ticked(AfterTicks(v, algorithm, shares[..|shares| - 1], aggr), algorithm, shares[|shares| - 1], aggr)
  }

  ghost predicate InBounds(v: nat, algorithm: int) {
    forall j :: 0 <= j < |MSR_1320| && SteeredMax(algorithm, j) > 0 ==>
      1 <= Get(v, MSR_1320, j) <= SteeredMax(algorithm, j)
  }

  /** Over any run, from any register value, both steered fields stay within their bounds from the
      first tick on, and nothing else in the register ever changes. */
  lemma {:induction false} RunStaysInBounds(v: nat, algorithm: int, shares: seq<real>, aggr: real)
    ensures var r := AfterTicks(v, algorithm, shares, aggr);
      && (shares != [] ==> InBounds(r, algorithm))
      && (forall j :: 0 <= j < |MSR_1320| && SteeredMax(algorithm, j) == 0 ==>
        Get(r, MSR_1320, j) == Get(v, MSR_1320, j))
      && Above(r, MSR_1320) == Above(v, MSR_1320)
  {
    if shares != [] {
      hide Get, Above, Ticked, Scaled, Direction, SteeredMax, Pow2;
      var n := |shares| - 1;
      RunStaysInBounds(v, algorithm, shares[..n], aggr);
      TickSteersOnlyItsFields(AfterTicks(v, algorithm, shares[..n], aggr), algorithm, shares[n], aggr);
    }
  }

  // ----- What the steps are -----

  /** Rounding is to the nearest integer, and away from zero from exactly half way. */
  lemma RoundIsNearest(x: real)
    ensures -0.5 <= x - Round(x) as real <= 0.5
    ensures x - Round(x) as real == 0.5 ==> x < 0.0
    ensures x - Round(x) as real == -0.5 ==> x > 0.0
    ensures Round(-x) == -Round(x)
  {
  }

  /** Below a tenth of the target nothing moves. From there the pull grows with the share and turns
      from down to up at four fifths. */
  lemma PullRises(a: real, b: real)
    ensures a < 0.10 ==> Pull(a) == 0
    ensures 0.10 <= a <= b ==> Pull(a) <= Pull(b)
    ensures a >= 0.10 ==> Pull(a) != 0 && (Pull(a) < 0 <==> a < 0.80)
  {
  }

  /** The bands of the pull, each with its limits. */
  lemma PullBands(share: real)
    ensures Pull(share) == -8 <==> 0.10 <= share < 0.20
    ensures Pull(share) == -4 <==> 0.20 <= share < 0.30
    ensures Pull(share) == -2 <==> 0.30 <= share < 0.40
    ensures Pull(share) == -1 <==> 0.40 <= share < 0.80
    ensures Pull(share) == 1 <==> 0.80 <= share < 0.90
    ensures Pull(share) == 2 <==> 0.90 <= share < 0.93
    ensures Pull(share) == 4 <==> 0.93 <= share < 0.96
    ensures Pull(share) == 8 <==> share >= 0.96
  {
  }

  /** The share says what part of the target was used: it, times the target in bytes per second, times
      the seconds, gives the bytes; and more bytes are a larger share. */
  lemma ShareIsPartOfTarget(bytes: nat, more: nat, target: int, ms: nat)
    requires target > 0 && ms > 0 && bytes <= more
    ensures ShareOf(bytes, target, ms) * (target as real * 1048576.0) * (ms as real / 1000.0) == bytes as real
    ensures ShareOf(bytes, target, ms) <= ShareOf(more, target, ms)
  {
    ShareUndone(bytes as real, target as real, ms as real / 1000.0);
    QuotientGrows(bytes as real / 1048576.0, more as real / 1048576.0, target as real);
    QuotientGrows(bytes as real / 1048576.0 / target as real, more as real / 1048576.0 / target as real,
      ms as real / 1000.0);
  }

  lemma ShareUndone(b: real, t: real, s: real)
    requires t > 0.0 && s > 0.0
    ensures b / 1048576.0 / t / s * (t * 1048576.0) * s == b
  {
    var q := b / 1048576.0;
    assert q / t / s * s == q / t && q / t * t == q;
    assert q / t / s * (t * 1048576.0) * s == q / t / s * s * (t * 1048576.0);
    assert q / t * (t * 1048576.0) == q / t * t * 1048576.0;
  }

  lemma QuotientGrows(a: real, b: real, d: real)
    requires a <= b && d > 0.0
    ensures a / d <= b / d
  {
    assert (b - a) / d >= 0.0;
  }

  // ----- Steady shares -----

  lemma TimesOnce(step: int)
    ensures Times(1, step) == step
  {
  }

  /** A field never exceeds the maximum of its slot. */
  lemma GetWithinMax(v: nat, algorithm: int, slot: nat)
    requires slot < |MSR_1320| && SteeredMax(algorithm, slot) > 0
    ensures Get(v, MSR_1320, slot) <= SteeredMax(algorithm, slot)
  {
    WidthsHoldMaxima();
    LowPlusHigh(High(v, Offset(MSR_1320, slot)), MSR_1320[slot].width);
    hide Low, High, Pow2;
  }

  /** Shares that all pull alike move a steered field by a fixed step: after n of them it stands at the
      start plus n steps, kept within its limits. */
  lemma {:induction false} SteadyClosedForm(v: nat, algorithm: int, slot: nat, shares: seq<real>, aggr: real, w: int)
    requires slot < |MSR_1320| && SteeredMax(algorithm, slot) > 0 && shares != []
    requires forall i :: 0 <= i < |shares| ==> Direction(algorithm, shares[i]) == w
    ensures Get(AfterTicks(v, algorithm, shares, aggr), MSR_1320, slot)
      == Clamp(Get(v, MSR_1320, slot) + Times(|shares|, Scaled(w, aggr)), SteeredMax(algorithm, slot))
  {
    hide Get, Ticked, Scaled, Times, AfterTicks, Direction, SteeredMax;
    var n, max, step := |shares| - 1, SteeredMax(algorithm, slot), Scaled(w, aggr);
    LastOfTicks(v, algorithm, shares, aggr);
    TickSteersOnlyItsFields(AfterTicks(v, algorithm, shares[..n], aggr), algorithm, shares[n], aggr);
    if n > 0 {
      SteadyClosedForm(v, algorithm, slot, shares[..n], aggr, w);
      GetWithinMax(v, algorithm, slot);
      ClampTwice(Get(v, MSR_1320, slot), n, step, max);
    } else {
      TimesOnce(step);
    }
  }

  lemma LastOfTicks(v: nat, algorithm: int, shares: seq<real>, aggr: real)
    requires shares != []
    ensures var n := |shares| - 1;
      && AfterTicks(v, algorithm, shares, aggr)
        == Ticked(AfterTicks(v, algorithm, shares[..n], aggr), algorithm, shares[n], aggr)
      && (n == 0 ==> AfterTicks(v, algorithm, shares[..n], aggr) == v)
  {
    hide Ticked;
  }

  lemma StepSize(aggr: real)
    requires aggr >= 0.0
    ensures Scaled(8, aggr) >= 0 && Scaled(-8, aggr) == -Scaled(8, aggr)
    ensures Scaled(8, aggr) >= 1 <==> aggr >= 0.0625
  {
  }

  lemma ClampTwice(start: nat, n: nat, step: int, max: nat)
    requires 1 <= max && start <= max && n >= 1
    ensures Clamp(Clamp(start + Times(n, step), max) + step, max) == Clamp(start + Times(n + 1, step), max)
  {
    NextMultiple(n, step);
    hide Times;
  }

  lemma TimesOneMore(n: nat, step: int)
    ensures Times(n + 1, step) == Times(n, step) + step && Times(0, step) == 0
  {
  }

  lemma {:induction false} NextMultiple(n: nat, step: int)
    requires n >= 1
    ensures Times(n + 1, step) == Times(n, step) + step
    ensures step > 0 ==> Times(n, step) >= n
    ensures step < 0 ==> Times(n, step) + n <= 0
    ensures step == 0 ==> Times(n, step) == 0
  {
    hide Times;
    TimesOneMore(n, step);
    TimesOneMore(n - 1, step);
    if n > 1 {
      NextMultiple(n - 1, step);
    }
  }

  /** From every start, sustained strong shares drive every steered field to the end they pull to within
      as many ticks as its maximum, if the aggressiveness is at least 1/16. */
  lemma SteadyReachesLimit(v: nat, algorithm: int, slot: nat, shares: seq<real>, aggr: real, w: int)
    requires slot < |MSR_1320| && SteeredMax(algorithm, slot) > 0 && |shares| >= SteeredMax(algorithm, slot)
    requires (w == 8 || w == -8) && forall i :: 0 <= i < |shares| ==> Direction(algorithm, shares[i]) == w
    requires aggr >= 0.0625
    ensures Get(AfterTicks(v, algorithm, shares, aggr), MSR_1320, slot)
      == if w == 8 then SteeredMax(algorithm, slot) else 1
  {
    hide Get, AfterTicks, Scaled, Times, Direction, SteeredMax;
    StepSize(aggr);
    SteadyClosedForm(v, algorithm, slot, shares, aggr, w);
    GetWithinMax(v, algorithm, slot);
    NextMultiple(|shares|, Scaled(w, aggr));
  }

  ghost predicate AllAtLeast(shares: seq<real>, limit: real) {
    forall i :: 0 <= i < |shares| ==> shares[i] >= limit
  }

  ghost predicate AllWithin(shares: seq<real>, low: real, high: real) {
    forall i :: 0 <= i < |shares| ==> low <= shares[i] < high
  }

  /** Under sustained pressure (shares from 0.96 on) the queue thresholds rise to their maximum within 31
      ticks; and the prefetch distances fall to 1, within 31 and 63 ticks. */
  lemma PressureDrives(v: nat, shares: seq<real>, aggr: real)
    requires AllAtLeast(shares, 0.96) && aggr >= 0.0625
    ensures |shares| >= 31 ==>
      var r := AfterTicks(v, 0, shares, aggr); Get(r, MSR_1320, L2XQ) == 31 && Get(r, MSR_1320, L3XQ) == 31
    ensures |shares| >= 63 ==>
      var r := AfterTicks(v, 1, shares, aggr); Get(r, MSR_1320, L2DIST) == 1 && Get(r, MSR_1320, L3DIST) == 1
  {
    hide Get, AfterTicks;
    if |shares| >= 31 {
      SteadyReachesLimit(v, 0, L2XQ, shares, aggr, 8);
      SteadyReachesLimit(v, 0, L3XQ, shares, aggr, 8);
    }
    if |shares| >= 63 {
      SteadyReachesLimit(v, 1, L2DIST, shares, aggr, -8);
      SteadyReachesLimit(v, 1, L3DIST, shares, aggr, -8);
    }
  }

  /** Under sustained low use (shares from 0.10 to 0.20) it is the other way round: the thresholds fall
      to 1 within 31 ticks, and the distances rise to 31 and 63. */
  lemma LowUseDrives(v: nat, shares: seq<real>, aggr: real)
    requires AllWithin(shares, 0.10, 0.20) && aggr >= 0.0625
    ensures |shares| >= 31 ==>
      var r := AfterTicks(v, 0, shares, aggr); Get(r, MSR_1320, L2XQ) == 1 && Get(r, MSR_1320, L3XQ) == 1
    ensures |shares| >= 63 ==>
      var r := AfterTicks(v, 1, shares, aggr); Get(r, MSR_1320, L2DIST) == 31 && Get(r, MSR_1320, L3DIST) == 63
  {
    hide Get, AfterTicks;
    if |shares| >= 31 {
      SteadyReachesLimit(v, 0, L2XQ, shares, aggr, -8);
      SteadyReachesLimit(v, 0, L3XQ, shares, aggr, -8);
    }
    if |shares| >= 63 {
      SteadyReachesLimit(v, 1, L2DIST, shares, aggr, 8);
      SteadyReachesLimit(v, 1, L3DIST, shares, aggr, 8);
    }
  }

  /** Under sustained pressure every start value is driven to the maximum within 31 ticks exactly
      when the aggressiveness is at least 1/16 (so in particular from 0.1 on); below that, the step
      rounds to nothing. */
  lemma PressureSaturatesIff(aggr: real)
    requires aggr >= 0.0
    ensures aggr >= 0.0625 <==>
      forall v: nat, shares: seq<real> | |shares| >= 31 && AllAtLeast(shares, 0.96) ::
        Get(AfterTicks(v, 0, shares, aggr), MSR_1320, L2XQ) == XQ_MAX
  {
    hide Get, AfterTicks, Scaled, Low, High, Times;
    StepSize(aggr);
    if aggr >= 0.0625 {
      forall v: nat, shares: seq<real> | |shares| >= 31 && AllAtLeast(shares, 0.96)
        ensures Get(AfterTicks(v, 0, shares, aggr), MSR_1320, L2XQ) == XQ_MAX
      {
        PressureDrives(v, shares, aggr);
      }
    } else {
      var shares := seq(31, _ => 1.0);
      SteadyClosedForm(0, 0, L2XQ, shares, aggr, 8);
      AllZero(MSR_1320);
      NextMultiple(31, 0);
      assert Get(AfterTicks(0, 0, shares, aggr), MSR_1320, L2XQ) != XQ_MAX;
    }
  }

  // ----- The loop over threads -----

  /** Registers and dirty marks of the worker threads, and the time of the last tick. */
  class Tuner {
    const registers: array<nat>
    const dirty: array<bool>
    var timeOld: u64

    ghost predicate Valid()
      reads this
    {
      registers.Length == dirty.Length
    }

    constructor (threads: nat)
      ensures Valid() && timeOld == 0 && fresh(registers) && fresh(dirty) && registers.Length == threads
    {
      registers, dirty, timeOld := new nat[threads], new bool[threads](_ => false), 0;
    }

    method MoveField(i: nat, slot: nat, delta: int, max: nat)
      requires Valid() && i < registers.Length
      requires slot < |MSR_1320| && 1 <= max < Pow2(MSR_1320[slot].width)
      modifies registers, dirty
      ensures registers[..] == old(registers[..])[i := Moved(old(registers[i]), slot, delta, max)]
      ensures dirty[..] == old(dirty[..])[i := old(dirty[i]) || registers[i] != old(registers[i])]
    {
      hide Get, Set;
      var was := Get(registers[i], MSR_1320, slot);
      var now := was + delta;
      if now <= 0 {
        now := 1;
      }
      if now > max {
        now := max;
      }
      MovedReadsBack(registers[i], slot, delta, max);
      if was != now {
        SetField(registers, i, MSR_1320, slot, now);
        dirty[i] := true;
      } else {
        SetGet(registers[i], MSR_1320, slot);
      }
    }

    /** One call: the first only starts the clock; later ones tick every thread with the share of the
        traffic since the call before, and mark exactly the threads whose register changed. */
    method Tick(algorithm: int, bytes: nat, target: int, now: u64, aggr: real)
      requires Valid()
      modifies this, registers, dirty
      ensures Valid() && timeOld == now
      ensures var share := ShareOf(bytes, target, Sub64(now, old(timeOld)));
        forall i :: 0 <= i < registers.Length ==>
          registers[i] ==
            (if old(timeOld) == 0 then old(registers[i]) else Ticked(old(registers[i]), algorithm, share, aggr))
      ensures forall i :: 0 <= i < registers.Length ==>
        dirty[i] == (old(dirty[i]) || registers[i] != old(registers[i]))
    {
      if timeOld == 0 {
        timeOld := now;
        return;
      }
      hide Ticked, ShareOf;
      var share := ShareOf(bytes, target, Sub64(now, timeOld));
      timeOld := now;
      for i := 0 to registers.Length
        invariant timeOld == now
        invariant forall k :: 0 <= k < i ==> registers[k] == Ticked(old(registers[k]), algorithm, share, aggr)
        invariant forall k :: 0 <= k < i ==> dirty[k] == (old(dirty[k]) || registers[k] != old(registers[k]))
        invariant forall k :: i <= k < registers.Length ==>
          registers[k] == old(registers[k]) && dirty[k] == old(dirty[k])
      {
        TickThread(i, algorithm, share, aggr);
      }
    }

    method TickThread(i: nat, algorithm: int, share: real, aggr: real)
      requires Valid() && i < registers.Length
      modifies registers, dirty
      ensures registers[..] == old(registers[..])[i := Ticked(old(registers[i]), algorithm, share, aggr)]
      ensures dirty[..] == old(dirty[..])[i := old(dirty[i]) || registers[i] != old(registers[i])]
    {
      WidthsHoldMaxima();
      hide Get, Set, Pull, Scaled, Moved, Pow2;
      if algorithm == 0 {
        var delta := Scaled(Pull(share), aggr);
        MovesDoNotCancel(registers[i], L2XQ, L3XQ, delta, XQ_MAX, XQ_MAX);
        MoveField(i, L2XQ, delta, XQ_MAX);
        MoveField(i, L3XQ, delta, XQ_MAX);
      } else if algorithm == 1 {
        var delta := Scaled(-Pull(share), aggr);
        MovesDoNotCancel(registers[i], L2DIST, L3DIST, delta, L2_DIST_MAX, L3_DIST_MAX);
        MoveField(i, L2DIST, delta, L2_DIST_MAX);
        MoveField(i, L3DIST, delta, L3_DIST_MAX);
      }
    }
  }
}
