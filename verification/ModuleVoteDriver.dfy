/** The voting controller on its own arrays, proved against the functions that define it. */
module ModuleVoteDriver {
  import opened Words
  import opened ModuleVote
  import KernelMabDriver

  const NS_PER_MS := 1000000

  function Delta(now: Counters, before: Counters): Counters {
    Counters(Sub64(now.l2Hit, before.l2Hit), Sub64(now.l2Miss, before.l2Miss), Sub64(now.l3Hit, before.l3Hit),
      Sub64(now.dram, before.dram), Sub64(now.promotions, before.promotions), Sub64(now.cycles, before.cycles))
  }

  /** Each change leads from the old value of its own counter to the new one, in 64 bits. */
  lemma DeltaIsChange(now: Counters, before: Counters)
    ensures var d := Delta(now, before);
      && (before.l2Hit + d.l2Hit) % U64_SIZE == now.l2Hit && (before.l2Miss + d.l2Miss) % U64_SIZE == now.l2Miss
      && (before.l3Hit + d.l3Hit) % U64_SIZE == now.l3Hit && (before.dram + d.dram) % U64_SIZE == now.dram
      && (before.promotions + d.promotions) % U64_SIZE == now.promotions
      && (before.cycles + d.cycles) % U64_SIZE == now.cycles
  {
    DeltaIsAdvance(now.l2Hit, before.l2Hit);
    DeltaIsAdvance(now.l2Miss, before.l2Miss);
    DeltaIsAdvance(now.l3Hit, before.l3Hit);
    DeltaIsAdvance(now.dram, before.dram);
    DeltaIsAdvance(now.promotions, before.promotions);
    DeltaIsAdvance(now.cycles, before.cycles);
    hide Sub64;
  }

  /** The two modes set the same registers as the two arms of the bandit: the default those of arm 0,
      the aggressive mode those of arm 1. */
  lemma ModesAreArms(mode: int)
    requires mode == BOOT_DEFAULT || mode == AGGRESSIVE
    ensures var bank := KernelMabDriver.DefaultArms()[if mode == AGGRESSIVE then 1 else 0];
      ModeQuad(mode) == Quad(bank[0], bank[1], bank[2], bank[5])
  {
  }

  /** The changes of the cores in range. */
  function Deltas(now: seq<Counters>, before: seq<Counters>, r: Range): (ds: seq<Counters>)
    requires r.first <= r.last <= |now| == |before|
    ensures |ds| == r.last - r.first
  {
    seq(r.last - r.first, i requires 0 <= i < r.last - r.first => Delta(now[r.first + i], before[r.first + i]))
  }

  /** No percentage of this core divides by zero. */
  predicate Safe(c: Counters) {
    L2Rate(c).Some? && L3Rate(c).Some?
  }

  predicate AllSafe(cs: seq<Counters>) {
    forall i :: 0 <= i < |cs| ==> Safe(cs[i])
  }

  /** The percentages as they are stored, in signed 32-bit variables. */
  datatype Rates = Rates(l2: int, l3: int, share: int, good: int)

  function RatesOf(c: Counters, total: u64): Rates
    requires Safe(c) && total > 0
  {
    Rates(ToInt32(L2Rate(c).value), ToInt32(L3Rate(c).value),
      ToInt32(Share(c, total).value), ToInt32(GoodRate(c).value))
  }

  class Voter {
    var timeOld: u64
    var targetRate: int
    var first: nat
    var last: nat
    const modes: array<int>
    const shadow: array<Bank>
    const dirty: array<bool>
    const votes: array<int>
    const rates: array<Rates>
    var fault: bool
    ghost var hardware: seq<Bank>

    ghost predicate Valid()
      reads this
    {
      && first <= last <= shadow.Length
      && shadow.Length == dirty.Length == votes.Length == rates.Length == |hardware|
      && modes.Length == (shadow.Length + CORES_PER_MODULE - 1) / CORES_PER_MODULE
      && votes != modes
    }

    ghost function Covered(): Range
      reads this
    {
      Range(first, last)
    }

    ghost function Abs(): State
      reads this, modes, shadow, dirty
    {
      State(modes[..], shadow[..], dirty[..], hardware)
    }

    method Total(cs: seq<Counters>) returns (total: u64)
      ensures total == DramTotal64(cs)
    {
      hide Add64;
      total := 0;
      for i := 0 to |cs|
        invariant total == DramTotal64(cs[..i])
      {
        assert cs[..i + 1][..i] == cs[..i];
        total := Add64(total, cs[i].dram);
      }
      assert cs[..|cs|] == cs;
    }

    /** The loop stops with a fault at the first core whose percentages divide by zero. */
    method ComputeRates(cs: seq<Counters>, total: u64)
      requires Valid() && |cs| == last - first && total > 0 && !fault
      modifies rates, this`fault
      ensures fault <==> !AllSafe(cs)
      ensures !fault ==> forall i :: 0 <= i < |cs| ==> Safe(cs[i]) && rates[first + i] == RatesOf(cs[i], total)
    {
      hide RatesOf, Safe;
      for i := 0 to |cs|
        invariant Valid() && !fault
        invariant forall k :: 0 <= k < i ==> Safe(cs[k]) && rates[first + k] == RatesOf(cs[k], total)
      {
        var r := CoreRates(cs[i], total);
        if r.None? {
          fault := true;
          return;
        }
        rates[first + i] := r.value;
      }
    }

    method CoreRates(c: Counters, total: u64) returns (r: Option<Rates>)
      requires total > 0
      ensures r.Some? == Safe(c)
      ensures r.Some? ==> r.value == RatesOf(c, total)
    {
      hide Add64, Mul64, ToInt32;
      if c.l2Hit == 0 || c.l3Hit == 0 || c.dram == 0 {
        return Some(Rates(0, 0, 0, 0));
      }
      var l2, l3 := Add64(Add64(c.l2Hit, c.l3Hit), c.dram), Add64(c.l3Hit, c.dram);
      if l2 == 0 || l3 == 0 {
        return None;
      }
      r := Some(Rates(ToInt32(Mul64(c.l2Hit, 100) / l2), ToInt32(Mul64(c.l3Hit, 100) / l3),
        ToInt32(Mul64(c.dram, 100) / total), ToInt32(Mul64(c.promotions, 100) / l2)));
    }

    method CastVotes(cs: seq<Counters>, ms: nat)
      requires Valid() && |cs| == last - first && ms > 0
      modifies votes
      ensures forall i :: 0 <= i < |cs| ==> votes[first + i] == Vote(cs[i], ms)
    {
      for i := 0 to |cs|
        invariant forall k :: 0 <= k < i ==> votes[first + k] == Vote(cs[k], ms)
      {
        if cs[i].cycles / ms < IDLE_CYCLES {
          votes[first + i] := IDLE;
        } else if cs[i].l2Hit > cs[i].l2Miss {
          votes[first + i] := AGGRESSIVE;
        } else {
          votes[first + i] := BOOT_DEFAULT;
        }
      }
    }

    method SumVotes(from: nat, to: nat) returns (sum: int)
      requires from <= to <= votes.Length
      ensures sum == Sum(votes[from..to])
    {
      sum := 0;
      for i := from to to
        invariant sum == Sum(votes[from..i])
      {
        assert votes[from..i + 1][..i - from] == votes[from..i];
        sum := sum + votes[i];
      }
    }

    method AdoptMode(m: nat, mode: int)
      requires Valid() && m < Modules(Covered())
      modifies modes, shadow, dirty
      ensures Abs() == Adopt(old(Abs()), Covered(), m, mode)
    {
      hide ModeQuad;
      var core := first + CORES_PER_MODULE * m;
      if modes[m] == mode {
        return;
      }
      shadow[core] := shadow[core].(quad := ModeQuad(mode));
      dirty[core] := true;
      modes[m] := mode;
    }

    method DecideModule(start: nat, m: nat)
      requires Valid() && m < Modules(Covered()) && start == Start(Covered(), m)
      modifies modes, shadow, dirty
      ensures Abs() == Adopt(old(Abs()), Covered(), m, Desired(ModuleVotes(votes[..], Covered(), m)))
    {
      hide Adopt, Sum;
      var end := start + CORES_PER_MODULE;
      if end > last {
        end := last;
      }
      var sum := SumVotes(start, end);
      assert votes[start..end] == ModuleVotes(votes[..], Covered(), m);
      AdoptMode(m, if sum >= 1 then AGGRESSIVE else BOOT_DEFAULT);
    }

    /** Every module of the range decides, in order. */
    method DecideModules()
      requires Valid()
      modifies modes, shadow, dirty
      ensures Abs() == Decide(old(Abs()), Covered(), votes[..], Modules(Covered()))
    {
      hide Adopt, Desired, ModuleVotes;
      var start := first;
      var m := 0;
      while start < last
        invariant start == Start(Covered(), m) && m <= Modules(Covered())
        invariant Abs() == Decide(old(Abs()), Covered(), votes[..], m)
        decreases last - start
      {
        DecideModule(start, m);
        start, m := start + CORES_PER_MODULE, m + 1;
      }
    }

    /** One call with the voting algorithm. The first call, and any call after one without a
        bandwidth target, only sets the controller up; a call without elapsed time or traffic
        changes no mode; one whose counters add up to a multiple of 2^64 divides by zero; any other
        lets the cores vote on their counter changes and the modules decide. */
    method BasicAlg(time: u64, target: int, firstCore: nat, activeCores: nat, now: seq<Counters>, before: seq<Counters>)
      returns (code: int)
      requires Valid() && |now| == |before| == shadow.Length && firstCore + activeCores <= shadow.Length
      requires !fault
      modifies this`fault, this`timeOld, this`targetRate, this`first, this`last, modes, shadow, dirty, votes, rates
      ensures Valid()
      ensures old(timeOld) == 0 ==>
        && code == 0 && !fault && Covered() == Range(firstCore, firstCore + activeCores)
        && (forall m :: 0 <= m < modes.Length ==> modes[m] == UNINITIALIZED)
        && shadow[..] == old(shadow[..]) && dirty[..] == old(dirty[..])
        && targetRate == target * 10 && timeOld == if target == 0 then 0 else time
      ensures old(timeOld) != 0 ==>
        var ms, ds := Sub64(time, old(timeOld)) / NS_PER_MS, old(Deltas(now, before, Covered()));
        && timeOld == time && Covered() == old(Covered()) && targetRate == old(targetRate)
        && (if targetRate == 0 || ms == 0 || DramTotal64(ds) == 0 then code == -1 && !fault && Abs() == old(Abs())
            else if !AllSafe(ds) then fault && Abs() == old(Abs())
            else (code == 0 && !fault && Abs() == Decide(old(Abs()), Covered(), votes[..], Modules(Covered()))
              && forall i :: 0 <= i < |ds| ==> votes[first + i] == Vote(ds[i], ms)))
    {
      hide Sub64, Decide, DramTotal64, AllSafe, Vote, Deltas;
      if timeOld == 0 {
        timeOld, first, last := time, firstCore, firstCore + activeCores;
        ResetModes();
        targetRate := target * 10;
        if targetRate == 0 {
          timeOld := 0;
        }
        return 0;
      }
      var ms := Sub64(time, timeOld) / NS_PER_MS;
      timeOld := time;
      if targetRate == 0 || ms == 0 {
        return -1;
      }
      code := Evaluate(Deltas(now, before, Range(first, last)), ms);
    }

    method Evaluate(ds: seq<Counters>, ms: nat) returns (code: int)
      requires Valid() && |ds| == last - first && ms > 0 && !fault
      modifies modes, shadow, dirty, votes, rates, this`fault
      ensures Valid()
      ensures DramTotal64(ds) == 0 ==> code == -1 && !fault && Abs() == old(Abs())
      ensures DramTotal64(ds) != 0 ==> (fault <==> !AllSafe(ds))
      ensures fault ==> Abs() == old(Abs())
      ensures DramTotal64(ds) != 0 && !fault ==>
        && code == 0 && Abs() == Decide(old(Abs()), Covered(), votes[..], Modules(Covered()))
        && (forall i :: 0 <= i < |ds| ==> votes[first + i] == Vote(ds[i], ms))
        && (forall i :: 0 <= i < |ds| ==> Safe(ds[i]) && rates[first + i] == RatesOf(ds[i], DramTotal64(ds)))
    {
      hide Decide, DramTotal64, Vote, RatesOf, Safe, Modules, AllSafe;
      var total := Total(ds);
      if total == 0 {
        return -1;
      }
      ComputeRates(ds, total);
      if fault {
        return -1;
      }
      CastVotes(ds, ms);
      DecideModules();
      return 0;
    }

    method ResetModes()
      modifies modes
      ensures forall m :: 0 <= m < modes.Length ==> modes[m] == UNINITIALIZED
    {
      for m := 0 to modes.Length
        invariant forall k :: 0 <= k < m ==> modes[k] == UNINITIALIZED
      {
        modes[m] := UNINITIALIZED;
      }
    }
  }
}
