/** The kernel's voting controller: per-core load figures, the vote of each module's cores, and the
    cached mode that decides when registers are rewritten. */
module ModuleVote {
  import opened Words

  const CORES_PER_MODULE := 4
  const IDLE_CYCLES := 500000

  const BOOT_DEFAULT := -1
  const IDLE := 0
  const AGGRESSIVE := 1
  const UNINITIALIZED := 2

  /** The counters the controller uses, as changes since the previous sample. */
  datatype Counters = Counters(l2Hit: u64, l2Miss: u64, l3Hit: u64, dram: u64, promotions: u64, cycles: u64)

  // ----- Percentages -----

  /** Unsigned 64-bit percentage; None where the machine would divide by zero. */
  function Percent(part: u64, whole: u64): Option<nat> {
    if whole == 0 then None else Some(Mul64(part, 100) / whole)
  }

  predicate AnyZero(c: Counters) {
    c.l2Hit == 0 || c.l3Hit == 0 || c.dram == 0
  }

  function L2Rate(c: Counters): Option<nat> {
    if AnyZero(c) then Some(0) else Percent(c.l2Hit, Add64(Add64(c.l2Hit, c.l3Hit), c.dram))
  }

  function L3Rate(c: Counters): Option<nat> {
    if AnyZero(c) then Some(0) else Percent(c.l3Hit, Add64(c.l3Hit, c.dram))
  }

  /** Promoted prefetches per hundred loads. */
  function GoodRate(c: Counters): Option<nat> {
    if AnyZero(c) then Some(0) else Percent(c.promotions, Add64(Add64(c.l2Hit, c.l3Hit), c.dram))
  }

  function Share(c: Counters, total: u64): Option<nat> {
    if AnyZero(c) then Some(0) else Percent(c.dram, total)
  }

  /** A part no larger than the whole is at most 100 percent, even when the product wraps. */
  lemma PercentBound(part: u64, whole: u64)
    requires part <= whole && whole > 0
    ensures Percent(part, whole).Some? && Percent(part, whole).value <= 100
  {
    var p := Mul64(part, 100);
    assert p <= 100 * whole;
    QuotientBound(p, 100, whole);
  }

  /** The percentage is the true one if and only if the product does not wrap. */
  lemma PercentExactIff(part: u64, whole: u64)
    requires whole > 0
    ensures Percent(part, whole) == Some(100 * part / whole) <==> 100 * part < U64_SIZE
  {
    var wraps := 100 * part / U64_SIZE;
    var p := Mul64(part, 100);
    assert 100 * part == U64_SIZE * wraps + p;
    if wraps > 0 {
      QuotientGrows(p, 100 * part, whole);
    }
  }

  lemma QuotientGrows(a: nat, b: nat, d: nat)
    requires d > 0 && a + d <= b
    ensures a / d < b / d
  {
    assert a == d * (a / d) + a % d && b == d * (b / d) + b % d;
    if a / d >= b / d {
      TimesGrows(d, b / d, a / d);
    }
  }

  lemma QuotientBound(a: nat, b: nat, d: nat)
    requires d > 0 && a <= b * d
    ensures a / d <= b
  {
    assert d * (a / d) + a % d == a;
    if a / d > b {
      TimesGrows(d, b + 1, a / d);
    }
  }

  lemma AddFits(a: u64, b: u64)
    requires a + b < U64_SIZE
    ensures Add64(a, b) == a + b
  {
  }

  lemma AddWraps(x: nat, b: u64)
    ensures Add64(x % U64_SIZE, b) == (x + b) % U64_SIZE
  {
  }

  /** Both hit rates lie in 0..100 whenever the hits and misses add up without wrapping. */
  lemma RatesWithinHundred(c: Counters)
    requires c.l2Hit + c.l3Hit + c.dram < U64_SIZE
    ensures L2Rate(c).Some? && L2Rate(c).value <= 100
    ensures L3Rate(c).Some? && L3Rate(c).value <= 100
  {
    hide Percent, Add64;
    if !AnyZero(c) {
      AddFits(c.l2Hit, c.l3Hit);
      AddFits(c.l2Hit + c.l3Hit, c.dram);
      AddFits(c.l3Hit, c.dram);
      PercentBound(c.l2Hit, c.l2Hit + c.l3Hit + c.dram);
      PercentBound(c.l3Hit, c.l3Hit + c.dram);
    }
  }

  lemma AddThree(a: u64, b: u64, c: u64)
    ensures Add64(Add64(a, b), c) == (a + b + c) % U64_SIZE
  {
    AddWraps(a + b, c);
  }

  /** While the terms are not zero and add up without wrapping, each rate is the true percentage if and
      only if a hundred times its part does not wrap. */
  lemma RatesExactIff(c: Counters)
    requires c.l2Hit > 0 && c.l3Hit > 0 && c.dram > 0 && c.l2Hit + c.l3Hit + c.dram < U64_SIZE
    ensures L2Rate(c) == Some(100 * c.l2Hit / (c.l2Hit + c.l3Hit + c.dram)) <==> 100 * c.l2Hit < U64_SIZE
    ensures L3Rate(c) == Some(100 * c.l3Hit / (c.l3Hit + c.dram)) <==> 100 * c.l3Hit < U64_SIZE
    ensures GoodRate(c) == Some(100 * c.promotions / (c.l2Hit + c.l3Hit + c.dram)) <==> 100 * c.promotions < U64_SIZE
  {
    hide Percent, Add64;
    AddFits(c.l2Hit, c.l3Hit);
    AddFits(c.l2Hit + c.l3Hit, c.dram);
    AddFits(c.l3Hit, c.dram);
    PercentExactIff(c.l2Hit, c.l2Hit + c.l3Hit + c.dram);
    PercentExactIff(c.l3Hit, c.l3Hit + c.dram);
    PercentExactIff(c.promotions, c.l2Hit + c.l3Hit + c.dram);
  }

  /** The same for a core's share of the memory traffic. */
  lemma ShareExactIff(c: Counters, total: u64)
    requires c.l2Hit > 0 && c.l3Hit > 0 && c.dram > 0 && total > 0
    ensures Share(c, total) == Some(100 * c.dram / total) <==> 100 * c.dram < U64_SIZE
  {
    hide Percent;
    PercentExactIff(c.dram, total);
  }

  /** A core with a count of zero gets zero for all four. */
  lemma ZeroCountsGiveZero(c: Counters, total: u64)
    requires c.l2Hit == 0 || c.l3Hit == 0 || c.dram == 0
    ensures L2Rate(c) == L3Rate(c) == GoodRate(c) == Share(c, total) == Some(0)
  {
  }

  /** The test for a failed counter read compares a value that was shifted right by 20 bits with an
      error code, and never holds. */
  lemma ShiftedNeverError(x: u64)
    ensures x / 0x10_0000 != U64_SIZE - 22
  {
  }

  /** A rate divides by zero exactly when none of its terms is zero and they add up to a multiple
      of 2^64. */
  lemma RateFaultsIff(c: Counters)
    ensures L2Rate(c).None? <==> (
      c.l2Hit > 0 && c.l3Hit > 0 && c.dram > 0 && (c.l2Hit + c.l3Hit + c.dram) % U64_SIZE == 0)
    ensures L3Rate(c).None? <==> (
      c.l2Hit > 0 && c.l3Hit > 0 && c.dram > 0 && (c.l3Hit + c.dram) % U64_SIZE == 0)
  {
    AddThree(c.l2Hit, c.l3Hit, c.dram);
    assert Add64(c.l3Hit, c.dram) == (c.l3Hit + c.dram) % U64_SIZE;
    hide Add64, Percent;
    PercentFaults(c.l2Hit, Add64(Add64(c.l2Hit, c.l3Hit), c.dram));
    PercentFaults(c.l3Hit, Add64(c.l3Hit, c.dram));
  }

  lemma PercentFaults(part: u64, whole: u64)
    ensures Percent(part, whole).None? <==> whole == 0
  {
  }

  /** A sum that wraps can give any rate: here 2 hits of a wrapped whole of 1 count as 200. */
  lemma WrappedRateExceedsHundred()
    ensures L3Rate(Counters(1, 0, 2, U64_SIZE - 1, 0, 0)) == Some(200)
  {
  }

  function DramTotal(cs: seq<Counters>): nat {
    if cs == [] then 0 else DramTotal(cs[..|cs| - 1]) + cs[|cs| - 1].dram
  }

  /** The total as the machine adds it up. */
  function DramTotal64(cs: seq<Counters>): u64 {
    if cs == [] then 0 else Add64(DramTotal64(cs[..|cs| - 1]), cs[|cs| - 1].dram)
  }

  lemma {:induction false} TotalsAgree(cs: seq<Counters>)
    ensures DramTotal64(cs) == DramTotal(cs) % U64_SIZE
  {
    hide Add64;
    if cs != [] {
      TotalsAgree(cs[..|cs| - 1]);
      AddWraps(DramTotal(cs[..|cs| - 1]), cs[|cs| - 1].dram);
    }
  }

  function ShareSum(cs: seq<Counters>, total: u64): nat {
    if cs == [] then 0
    else
      var s := Share(cs[|cs| - 1], total);
      ShareSum(cs[..|cs| - 1], total) + (if s.Some? then s.value else 0)
  }

  lemma TimesLaws(a: nat, b: nat, c: nat)
    ensures Times(a, b + c) == Times(a, b) + Times(a, c) && Times(a, 0) == 0
    ensures b > 100 ==> Times(a, b) >= 101 * a
  {
    if b > 100 {
      TimesGrows(a, 101, b);
    }
  }

  lemma ShareTimesTotal(c: Counters, total: u64)
    requires total > 0
    ensures Share(c, total).Some? && Times(total, Share(c, total).value) <= 100 * c.dram
  {
    if !AnyZero(c) {
      var p := Mul64(c.dram, 100);
      assert p <= 100 * c.dram;
      assert total * (p / total) + p % total == p;
    } else {
      TimesLaws(total, 0, 0);
    }
  }

  lemma {:induction false} SharesTimesTotal(cs: seq<Counters>, total: u64)
    requires total > 0
    ensures Times(total, ShareSum(cs, total)) <= 100 * DramTotal(cs)
  {
    hide Times, Share;
    TimesLaws(total, 0, 0);
    if cs != [] {
      var before, last := cs[..|cs| - 1], cs[|cs| - 1];
      SharesTimesTotal(before, total);
      ShareTimesTotal(last, total);
      TimesLaws(total, ShareSum(before, total), Share(last, total).value);
    }
  }

  /** The cores' shares of the memory traffic add up to at most 100, whenever the traffic adds up
      without wrapping. */
  lemma SharesSumToHundred(cs: seq<Counters>)
    requires 0 < DramTotal(cs) < U64_SIZE
    ensures DramTotal64(cs) == DramTotal(cs) && ShareSum(cs, DramTotal64(cs)) <= 100
  {
    hide Times, ShareSum, DramTotal, DramTotal64;
    TotalsAgree(cs);
    var t := DramTotal(cs);
    SharesTimesTotal(cs, t);
    TimesLaws(t, ShareSum(cs, t), 0);
  }

  /** With a wrapped total a single core can be charged with twice the traffic there is. */
  lemma WrappedSharesExceedHundred()
    ensures var cs := [Counters(1, 0, 1, 2, 0, 0), Counters(1, 0, 1, U64_SIZE - 1, 0, 0)];
      DramTotal64(cs) == 1 && Share(cs[0], DramTotal64(cs)) == Some(200)
  {
    var cs := [Counters(1, 0, 1, 2, 0, 0), Counters(1, 0, 1, U64_SIZE - 1, 0, 0)];
    assert cs[..1] == [cs[0]];
    assert [cs[0]][..0] == [];
    assert DramTotal64([cs[0]]) == 2;
  }

  // ----- Votes -----

  /** How a core votes over an interval of `ms` milliseconds. */
  function Vote(c: Counters, ms: nat): int
    requires ms > 0
  {
    if c.cycles / ms < IDLE_CYCLES then IDLE
    else if c.l2Hit > c.l2Miss then AGGRESSIVE
    else BOOT_DEFAULT
  }

  /** A core is idle if and only if it ran fewer than half a million cycles per millisecond; otherwise
      it benefits if and only if it hit the second-level cache more often than it missed. */
  lemma VoteIff(c: Counters, ms: nat)
    requires ms > 0
    ensures Vote(c, ms) == 0 <==> c.cycles < 500_000 * ms
    ensures Vote(c, ms) == 1 <==> c.cycles >= 500_000 * ms && c.l2Hit > c.l2Miss
    ensures Vote(c, ms) == -1 <==> c.cycles >= 500_000 * ms && c.l2Hit <= c.l2Miss
  {
    DivisionIsQuotient(c.cycles, ms);
    RateAtLeast(c.cycles, ms, c.cycles / ms, 500_000);
    TimesCommutes(ms, 500_000);
    hide Times, Quotient;
  }

  predicate IsVote(v: int) {
    v == BOOT_DEFAULT || v == IDLE || v == AGGRESSIVE
  }

  function Sum(votes: seq<int>): int {
    if votes == [] then 0 else Sum(votes[..|votes| - 1]) + votes[|votes| - 1]
  }

  function Count(votes: seq<int>, v: int): nat {
    if votes == [] then 0 else Count(votes[..|votes| - 1], v) + (if votes[|votes| - 1] == v then 1 else 0)
  }

  function Desired(votes: seq<int>): int {
    if Sum(votes) >= 1 then AGGRESSIVE else BOOT_DEFAULT
  }

  lemma {:induction false} SumIsBalance(votes: seq<int>)
    requires forall i :: 0 <= i < |votes| ==> IsVote(votes[i])
    ensures Sum(votes) == Count(votes, AGGRESSIVE) - Count(votes, BOOT_DEFAULT)
  {
    if votes != [] {
      SumIsBalance(votes[..|votes| - 1]);
    }
  }

  /** A module goes aggressive exactly when more of its cores benefit than do not; idle cores do
      not count either way. */
  lemma AggressiveIffMajority(votes: seq<int>)
    requires forall i :: 0 <= i < |votes| ==> IsVote(votes[i])
    ensures Desired(votes) == AGGRESSIVE <==> Count(votes, AGGRESSIVE) > Count(votes, BOOT_DEFAULT)
  {
    SumIsBalance(votes);
  }

  // ----- Modules -----

  /** The cores first .. last, four to a module, the last module possibly smaller. */
  datatype Range = Range(first: nat, last: nat)

  function Modules(r: Range): nat
    requires r.first <= r.last
  {
    (r.last - r.first + CORES_PER_MODULE - 1) / CORES_PER_MODULE
  }

  function Start(r: Range, m: nat): nat {
    r.first + CORES_PER_MODULE * m
  }

  function End(r: Range, m: nat): nat {
    if Start(r, m) + CORES_PER_MODULE > r.last then r.last else Start(r, m) + CORES_PER_MODULE
  }

  /** Every core in range is in exactly one module, and modules hold no other core. */
  lemma ModulesPartition(r: Range, core: nat, m: nat)
    requires r.first <= r.last
    ensures m < Modules(r) && Start(r, m) <= core < End(r, m)
      <==> r.first <= core < r.last && m == (core - r.first) / CORES_PER_MODULE
  {
  }

  // ----- The cached mode -----

  /** The four registers a mode sets. */
  datatype Quad = Quad(m1320: u64, m1321: u64, m1322: u64, m1327: u64)

  datatype Bank = Bank(quad: Quad, m1323: u64, m1324: u64, m1A4: u64)

  function ModeQuad(mode: int): Quad {
    if mode == AGGRESSIVE then
      Quad(0x008837ea070906c0, 0x0000251134040001, 0x280020820cd0046c, 0x0000000001920014)
    else
      Quad(0x10883fea070906c4, 0x0000251134140001, 0x2807ffff4cd0046c, 0x0000000005920014)
  }

  datatype State = State(modes: seq<int>, shadow: seq<Bank>, dirty: seq<bool>, hardware: seq<Bank>)

  ghost predicate ValidState(s: State, r: Range) {
    && r.first <= r.last <= |s.shadow| && |s.dirty| == |s.shadow| && |s.hardware| == |s.shadow|
    && Modules(r) <= |s.modes|
  }

  function ModuleVotes(votes: seq<int>, r: Range, m: nat): seq<int>
    requires r.first <= r.last <= |votes| && m < Modules(r)
  {
    votes[Start(r, m)..End(r, m)]
  }

  /** One module adopts a mode: nothing happens if it is cached already. */
  function Adopt(s: State, r: Range, m: nat, mode: int): (t: State)
    requires ValidState(s, r) && m < Modules(r)
    ensures ValidState(t, r)
  {
    if s.modes[m] == mode then s
    else
      var core := Start(r, m);
      s.(modes := s.modes[m := mode],
        shadow := s.shadow[core := s.shadow[core].(quad := ModeQuad(mode))],
        dirty := s.dirty[core := true])
  }

  /** The first n modules decide. */
  function Decide(s: State, r: Range, votes: seq<int>, n: nat): (t: State)
    requires ValidState(s, r) && |votes| == |s.shadow| && n <= Modules(r)
    ensures ValidState(t, r) && |t.shadow| == |s.shadow|
  {
    if n == 0 then s
    else Adopt(Decide(s, r, votes, n - 1), r, n - 1, Desired(ModuleVotes(votes, r, n - 1)))
  }

  /** A core's pending registers reach the hardware. */
  function Flush(s: State, core: nat): State
    requires core < |s.shadow| && |s.dirty| == |s.shadow| && |s.hardware| == |s.shadow|
  {
    if s.dirty[core] then s.(hardware := s.hardware[core := s.shadow[core]], dirty := s.dirty[core := false]) else s
  }

  /** A module that has decided holds the registers of its cached mode, and so does the hardware
      unless a write is pending. */
  ghost predicate ModuleAgrees(s: State, r: Range, m: nat)
    requires ValidState(s, r) && m < Modules(r)
  {
    var core := Start(r, m);
    s.modes[m] != UNINITIALIZED ==>
      && s.shadow[core].quad == ModeQuad(s.modes[m])
      && (!s.dirty[core] ==> s.hardware[core].quad == ModeQuad(s.modes[m]))
  }

  ghost predicate Agrees(s: State, r: Range)
    requires ValidState(s, r)
  {
    forall m :: 0 <= m < Modules(r) ==> ModuleAgrees(s, r, m)
  }

  lemma AdoptAgrees(s: State, r: Range, m: nat, mode: int)
    requires ValidState(s, r) && m < Modules(r) && Agrees(s, r) && mode != UNINITIALIZED
    ensures Agrees(Adopt(s, r, m, mode), r)
  {
    hide ModeQuad;
    var t := Adopt(s, r, m, mode);
    forall k | 0 <= k < Modules(r) ensures ModuleAgrees(t, r, k) {
      assert ModuleAgrees(s, r, k);
    }
  }

  predicate LeadsModule(r: Range, core: nat) {
    r.first <= core < r.last && (core - r.first) % CORES_PER_MODULE == 0
  }

  /** What a decision changed: modes of the first n modules, and the registers and marks of the
      cores leading modules whose mode is new. */
  ghost predicate Decided(s: State, t: State, r: Range, votes: seq<int>, n: nat)
    requires ValidState(s, r) && ValidState(t, r) && |votes| == |s.shadow| == |t.shadow| && n <= Modules(r)
  {
    && t.hardware == s.hardware && |t.modes| == |s.modes|
    && (forall m :: 0 <= m < n ==> t.modes[m] == Desired(ModuleVotes(votes, r, m)))
    && (forall m :: n <= m < |s.modes| ==> t.modes[m] == s.modes[m])
    && (forall m :: 0 <= m < Modules(r) ==>
      t.dirty[Start(r, m)] == (s.dirty[Start(r, m)] || t.modes[m] != s.modes[m]))
    && (forall core :: 0 <= core < |s.shadow| && !LeadsModule(r, core) ==>
      t.shadow[core] == s.shadow[core] && t.dirty[core] == s.dirty[core])
  }

  /** After a decision every module's cached mode is the one its cores voted for, every decided
      module still agrees with its registers, only module-leading cores were written, and a core is
      newly marked exactly when its module changed mode. */
  lemma {:induction false} DecideOutcome(s: State, r: Range, votes: seq<int>, n: nat)
    requires ValidState(s, r) && |votes| == |s.shadow| && n <= Modules(r) && Agrees(s, r)
    ensures Agrees(Decide(s, r, votes, n), r)
    ensures Decided(s, Decide(s, r, votes, n), r, votes, n)
  {
    hide ModeQuad, Desired, ModuleVotes, Agrees, Decided, Adopted, Adopt, Modules, Start, End, ValidState;
    if n == 0 {
      NothingDecided(s, r, votes);
    } else {
      DecideOutcome(s, r, votes, n - 1);
      DecideOneMore(s, Decide(s, r, votes, n - 1), r, votes, n - 1);
    }
  }

  lemma NothingDecided(s: State, r: Range, votes: seq<int>)
    requires ValidState(s, r) && |votes| == |s.shadow|
    ensures Decided(s, s, r, votes, 0)
  {
  }

  lemma DecideOneMore(s: State, u: State, r: Range, votes: seq<int>, m: nat)
    requires ValidState(s, r) && ValidState(u, r) && m < Modules(r) && |votes| == |s.shadow| == |u.shadow|
    requires Agrees(u, r) && Decided(s, u, r, votes, m)
    ensures var t := Adopt(u, r, m, Desired(ModuleVotes(votes, r, m)));
      |t.shadow| == |s.shadow| && Agrees(t, r) && Decided(s, t, r, votes, m + 1)
  {
    hide ModeQuad, Desired, ModuleVotes, Agrees, Decided, LeadsModule;
    var mode := Desired(ModuleVotes(votes, r, m));
    DesiredIsMode(ModuleVotes(votes, r, m));
    AdoptAgrees(u, r, m, mode);
    AdoptOutcome(u, r, m, mode);
    DecidedStep(s, u, Adopt(u, r, m, mode), r, votes, m);
  }

  ghost predicate Adopted(s: State, t: State, r: Range, m: nat, mode: int)
    requires ValidState(s, r) && ValidState(t, r) && m < Modules(r)
  {
    && t.hardware == s.hardware && t.modes == s.modes[m := mode] && |t.shadow| == |s.shadow|
    && (forall k :: 0 <= k < Modules(r) ==>
      t.dirty[Start(r, k)] == (s.dirty[Start(r, k)] || t.modes[k] != s.modes[k]))
    && (forall core :: 0 <= core < |s.shadow| && !LeadsModule(r, core) ==>
      t.shadow[core] == s.shadow[core] && t.dirty[core] == s.dirty[core])
  }

  lemma AdoptOutcome(s: State, r: Range, m: nat, mode: int)
    requires ValidState(s, r) && m < Modules(r)
    ensures Adopted(s, Adopt(s, r, m, mode), r, m, mode)
  {
    hide ModeQuad;
    assert LeadsModule(r, Start(r, m));
  }

  lemma DecidedStep(s: State, u: State, t: State, r: Range, votes: seq<int>, m: nat)
    requires ValidState(s, r) && ValidState(u, r) && ValidState(t, r) && m < Modules(r)
    requires |votes| == |s.shadow| == |u.shadow| == |t.shadow|
    requires Decided(s, u, r, votes, m)
    requires Adopted(u, t, r, m, Desired(ModuleVotes(votes, r, m)))
    ensures Decided(s, t, r, votes, m + 1)
  {
    hide Desired, ModuleVotes, LeadsModule, Start;
  }

  lemma DesiredIsMode(votes: seq<int>)
    ensures Desired(votes) != UNINITIALIZED
  {
  }

  lemma FlushAgrees(s: State, r: Range, core: nat)
    requires ValidState(s, r) && Agrees(s, r) && core < |s.shadow|
    ensures ValidState(Flush(s, core), r) && Agrees(Flush(s, core), r)
  {
    hide ModeQuad;
    forall k | 0 <= k < Modules(r) ensures ModuleAgrees(Flush(s, core), r, k) {
      assert ModuleAgrees(s, r, k);
    }
  }

  // ----- Runs -----

  datatype Event = Decision(votes: seq<int>) | Flushed(core: nat)

  ghost predicate ValidEvent(e: Event, cores: nat) {
    match e
    case Decision(votes) => |votes| == cores
    case Flushed(core) => core < cores
  }

  function After(s: State, r: Range, es: seq<Event>): (t: State)
    requires ValidState(s, r) && forall i :: 0 <= i < |es| ==> ValidEvent(es[i], |s.shadow|)
    ensures ValidState(t, r) && |t.shadow| == |s.shadow|
  {
    if es == [] then s
    else
      var before := After(s, r, es[..|es| - 1]);
      assert ValidEvent(es[|es| - 1], |s.shadow|);
      match es[|es| - 1]
      case Decision(votes) => Decide(before, r, votes, Modules(r))
      case Flushed(core) => Flush(before, core)
  }

  /** The votes of the latest decision, if there was one. */
  function LatestVotes(es: seq<Event>): Option<seq<int>> {
    if es == [] then None
    else
      match es[|es| - 1]
      case Decision(votes) => Some(votes)
      case Flushed(_) => LatestVotes(es[..|es| - 1])
  }

  ghost predicate Follows(s: State, r: Range, votes: seq<int>)
    requires ValidState(s, r)
  {
    && |votes| == |s.shadow|
    && forall m :: 0 <= m < Modules(r) ==> s.modes[m] == Desired(ModuleVotes(votes, r, m))
  }

  /** From the first decision on, over every run of decisions and flushes in any order, each
      module's cached mode is the outcome of the latest vote, its shadow registers are those of that
      mode, and the hardware holds them too whenever no write is pending. */
  lemma {:induction false} CacheFollowsVotes(s: State, r: Range, es: seq<Event>)
    requires ValidState(s, r) && forall i :: 0 <= i < |es| ==> ValidEvent(es[i], |s.shadow|)
    requires forall m :: 0 <= m < |s.modes| ==> s.modes[m] == UNINITIALIZED
    ensures var t := After(s, r, es);
      && Agrees(t, r)
      && (LatestVotes(es).None? ==> t.modes == s.modes)
      && (LatestVotes(es).Some? ==> Follows(t, r, LatestVotes(es).value))
  {
    if es != [] {
      hide ModeQuad, Desired, ModuleVotes, Decide, ModuleAgrees;
      var before, e := es[..|es| - 1], es[|es| - 1];
      CacheFollowsVotes(s, r, before);
      assert ValidEvent(e, |s.shadow|);
      var u := After(s, r, before);
      match e
      case Decision(votes) => DecideOutcome(u, r, votes, Modules(r));
      case Flushed(core) => FlushAgrees(u, r, core);
    }
  }

  /** Once the leading core of a module is flushed after a decision, its hardware has the registers of
      the voted mode and nothing is pending, until the next decision. */
  lemma {:induction false} FlushSettles(s: State, r: Range, es: seq<Event>, m: nat, more: seq<Event>)
    requires ValidState(s, r) && forall i :: 0 <= i < |es| ==> ValidEvent(es[i], |s.shadow|)
    requires forall k :: 0 <= k < |s.modes| ==> s.modes[k] == UNINITIALIZED
    requires m < Modules(r) && LatestVotes(es).Some?
    requires forall i :: 0 <= i < |more| ==> ValidEvent(more[i], |s.shadow|) && more[i].Flushed?
    ensures ValidEvent(Flushed(Start(r, m)), |s.shadow|) && |LatestVotes(es).value| == |s.shadow|
    ensures var t, mode := After(s, r, es + [Flushed(Start(r, m))] + more),
        Desired(ModuleVotes(LatestVotes(es).value, r, m));
      !t.dirty[Start(r, m)] && t.hardware[Start(r, m)].quad == t.shadow[Start(r, m)].quad == ModeQuad(mode)
  {
    hide ModeQuad, Desired, ModuleVotes, Decide;
    var core := Start(r, m);
    var flushed := es + [Flushed(core)];
    CacheFollowsVotes(s, r, es);
    if more == [] {
      assert flushed + more == flushed && flushed[..|flushed| - 1] == es;
      DesiredIsMode(ModuleVotes(LatestVotes(es).value, r, m));
      assert ModuleAgrees(After(s, r, es), r, m);
    } else {
      var fewer := more[..|more| - 1];
      FlushSettles(s, r, es, m, fewer);
      assert (flushed + more)[..|flushed + more| - 1] == flushed + fewer;
    }
  }
}
