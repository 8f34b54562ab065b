/** Memory traffic from free-running counters: each poll of one kind reports how far the counters
    of the mapped controllers have moved since the previous poll of that kind. */
module DdrCounters {
  import opened Words

  datatype Kind = Read | Write

  const LINE_BYTES := 64

  /** Last readings per controller, for reads and for writes. */
  datatype State = State(rd: seq<u64>, wr: seq<u64>) {
    function Of(kind: Kind): seq<u64> {
      if kind.Read? then rd else wr
    }
  }

  /** A poll finds a reading for every controller; those that are not mapped are skipped. */
  datatype Poll = Poll(kind: Kind, readings: seq<u64>)

  /** Readings after a poll: new where mapped, as before elsewhere. */
  function Refreshed(last: seq<u64>, readings: seq<u64>, mapped: seq<bool>): (r: seq<u64>)
    requires |last| == |readings| == |mapped|
    ensures |r| == |last|
  {
    seq(|last|, i requires 0 <= i < |last| => if mapped[i] then readings[i] else last[i])
  }

  /** Sum of the mapped controllers' counter changes, as the machine adds it. */
  function Moved(last: seq<u64>, readings: seq<u64>, mapped: seq<bool>, n: nat): u64
    requires |last| == |readings| == |mapped| && n <= |last|
  {
    if n == 0 then 0
    else if mapped[n - 1] then Add64(Moved(last, readings, mapped, n - 1), Sub64(readings[n - 1], last[n - 1]))
    else Moved(last, readings, mapped, n - 1)
  }

  ghost predicate ValidState(s: State, mapped: seq<bool>) {
    |s.rd| == |s.wr| == |mapped|
  }

  function Step(s: State, p: Poll, mapped: seq<bool>): (t: State)
    requires |s.rd| == |s.wr| == |mapped| == |p.readings|
    ensures |t.rd| == |t.wr| == |mapped|
  {
    if p.kind.Read? then s.(rd := Refreshed(s.rd, p.readings, mapped))
    else s.(wr := Refreshed(s.wr, p.readings, mapped))
  }

  /** What a poll returns, in bytes. */
  function Returned(s: State, p: Poll, mapped: seq<bool>): u64
    requires |s.rd| == |s.wr| == |mapped| == |p.readings|
  {
    Mul64(Moved(s.Of(p.kind), p.readings, mapped, |mapped|), LINE_BYTES)
  }

  // ----- Runs of polls -----

  ghost predicate ValidPolls(ps: seq<Poll>, mapped: seq<bool>) {
    forall i :: 0 <= i < |ps| ==> |ps[i].readings| == |mapped|
  }

  ghost function After(s: State, ps: seq<Poll>, mapped: seq<bool>): (t: State)
    requires ValidState(s, mapped) && ValidPolls(ps, mapped)
    ensures ValidState(t, mapped)
  {
    if ps == [] then s else Step(After(s, ps[..|ps| - 1], mapped), ps[|ps| - 1], mapped)
  }

  /** Everything the polls of one kind returned, added up. */
  ghost function ReturnedSum(s: State, ps: seq<Poll>, mapped: seq<bool>, kind: Kind): nat
    requires ValidState(s, mapped) && ValidPolls(ps, mapped)
  {
    if ps == [] then 0
    else
      var before, p := ps[..|ps| - 1], ps[|ps| - 1];
      ReturnedSum(s, before, mapped, kind)
        + (if p.kind == kind then Returned(After(s, before, mapped), p, mapped) else 0)
  }

  /** Sum of the mapped readings. */
  function Level(readings: seq<u64>, mapped: seq<bool>, n: nat): nat
    requires |readings| == |mapped| && n <= |mapped|
  {
    if n == 0 then 0 else Level(readings, mapped, n - 1) + (if mapped[n - 1] then readings[n - 1] else 0)
  }

  /** a and b are the same 64-bit word. */
  predicate Same(a: int, b: int) {
    a % U64_SIZE == b % U64_SIZE
  }

  lemma SameAdd(a: int, b: int, c: int, d: int)
    requires Same(a, b) && Same(c, d)
    ensures Same(a + c, b + d)
  {
  }

  lemma SameScaled(a: int, b: int)
    requires Same(a, b)
    ensures Same(LINE_BYTES * a, LINE_BYTES * b)
  {
    var m := a / U64_SIZE - b / U64_SIZE;
    assert a == b + U64_SIZE * m;
    Multiple(LINE_BYTES * b, LINE_BYTES * m);
  }

  lemma Multiple(x: int, m: int)
    ensures Same(x + U64_SIZE * m, x)
  {
  }

  /** The traffic behind a move of the counters. */
  function Bytes(from: int, to: int): int {
    LINE_BYTES * (to - from)
  }

  lemma BytesAdd(a: int, b: int, c: int)
    ensures Bytes(a, b) + Bytes(b, c) == Bytes(a, c)
  {
  }

  /** One poll's sum is the change of the mapped level, as a 64-bit word. */
  lemma {:induction false} MovedIsLevelChange(last: seq<u64>, readings: seq<u64>, mapped: seq<bool>, n: nat)
    requires |last| == |readings| == |mapped| && n <= |last|
    ensures Same(Moved(last, readings, mapped, n), Level(readings, mapped, n) - Level(last, mapped, n))
  {
    hide Same, Add64, Sub64;
    if n > 0 {
      MovedIsLevelChange(last, readings, mapped, n - 1);
      if mapped[n - 1] {
        MoveAdds(Moved(last, readings, mapped, n - 1), last[n - 1], readings[n - 1],
          Level(readings, mapped, n - 1) - Level(last, mapped, n - 1));
      }
    } else {
      SameAsItself(0);
    }
  }

  lemma SameAsItself(x: int)
    ensures Same(x, x)
  {
  }

  lemma MoveAdds(m: u64, was: u64, now: u64, level: int)
    requires Same(m, level)
    ensures Same(Add64(m, Sub64(now, was)), level + now - was)
  {
    var d := Sub64(now, was);
    assert Same(d, now - was);
    SameAdd(m, level, d, now - was);
  }

  lemma {:induction false} RefreshedLevel(last: seq<u64>, readings: seq<u64>, mapped: seq<bool>, n: nat)
    requires |last| == |readings| == |mapped| && n <= |last|
    ensures Level(Refreshed(last, readings, mapped), mapped, n) == Level(readings, mapped, n)
  {
    if n > 0 {
      RefreshedLevel(last, readings, mapped, n - 1);
    }
  }

  /** Between reconfigurations, whatever polls of the other kind come in between and however often
      counters wrap, the values returned for one kind add up to 64 times the change of its counters
      over the mapped controllers, modulo 2^64. */
  lemma {:induction false} PollsTelescope(s: State, ps: seq<Poll>, mapped: seq<bool>, kind: Kind)
    requires ValidState(s, mapped) && ValidPolls(ps, mapped)
    ensures Same(ReturnedSum(s, ps, mapped, kind),
      Bytes(Level(s.Of(kind), mapped, |mapped|), Level(After(s, ps, mapped).Of(kind), mapped, |mapped|)))
  {
    if ps != [] {
      hide Same, Moved, Level, Refreshed, Mul64, ReturnedSum, Returned, Bytes;
      var before, p := ps[..|ps| - 1], ps[|ps| - 1];
      PollsTelescope(s, before, mapped, kind);
      ReturnedSumStep(s, ps, mapped, kind);
      var u := After(s, before, mapped);
      if p.kind == kind {
        PollAdds(u, p, mapped);
        var n := |mapped|;
        RefreshedLevel(u.Of(kind), p.readings, mapped, n);
        var from: int, at: int := Level(s.Of(kind), mapped, n), Level(u.Of(kind), mapped, n);
        var to: int := Level(p.readings, mapped, n);
        SameAdd(ReturnedSum(s, before, mapped, kind), Bytes(from, at), Returned(u, p, mapped), Bytes(at, to));
        BytesAdd(from, at, to);
      }
    } else {
      assert After(s, ps, mapped) == s;
    }
  }

  lemma ReturnedSumStep(s: State, ps: seq<Poll>, mapped: seq<bool>, kind: Kind)
    requires ValidState(s, mapped) && ValidPolls(ps, mapped) && ps != []
    ensures var before, p := ps[..|ps| - 1], ps[|ps| - 1];
      ReturnedSum(s, ps, mapped, kind) == ReturnedSum(s, before, mapped, kind)
        + (if p.kind == kind then Returned(After(s, before, mapped), p, mapped) else 0)
  {
  }

  lemma PollAdds(s: State, p: Poll, mapped: seq<bool>)
    requires ValidState(s, mapped) && |p.readings| == |mapped|
    ensures Same(Returned(s, p, mapped),
      Bytes(Level(s.Of(p.kind), mapped, |mapped|), Level(p.readings, mapped, |mapped|)))
  {
    hide Moved, Level;
    var n := |mapped|;
    MovedIsLevelChange(s.Of(p.kind), p.readings, mapped, n);
    SameScaled(Moved(s.Of(p.kind), p.readings, mapped, n),
      Level(p.readings, mapped, n) - Level(s.Of(p.kind), mapped, n));
  }

  /** Every count is a line of 64 bytes: a poll of one controller returns 64 for each, up to 2^64. */
  lemma CountsAre64Bytes(last: u64, reading: u64)
    requires last <= reading && 64 * (reading - last) < U64_SIZE
    ensures Returned(State([last], [0]), Poll(Read, [reading]), [true]) == 64 * (reading - last)
    ensures Returned(State([0], [last]), Poll(Write, [reading]), [true]) == 64 * (reading - last)
    ensures Returned(State([last], [0]), Poll(Read, [reading]), [false]) == 0
  {
    assert Moved([last], [reading], [true], 1) == Add64(Moved([last], [reading], [true], 0), Sub64(reading, last));
    assert Moved([last], [reading], [false], 1) == Moved([last], [reading], [false], 0);
  }

  // ----- What the counters really counted -----

  /** Readings of counters that have counted this far since they were made. */
  function Wrapped(counts: seq<nat>): (r: seq<u64>)
    ensures |r| == |counts|
  {
    seq(|counts|, i requires 0 <= i < |counts| => counts[i] % U64_SIZE)
  }

  function Total(counts: seq<nat>, mapped: seq<bool>, n: nat): nat
    requires |counts| == |mapped| && n <= |mapped|
  {
    if n == 0 then 0 else Total(counts, mapped, n - 1) + (if mapped[n - 1] then counts[n - 1] else 0)
  }

  lemma {:induction false} LevelOfWrapped(counts: seq<nat>, mapped: seq<bool>, n: nat)
    requires |counts| == |mapped| && n <= |mapped|
    ensures Same(Level(Wrapped(counts), mapped, n), Total(counts, mapped, n))
  {
    if n > 0 {
      LevelOfWrapped(counts, mapped, n - 1);
      if mapped[n - 1] {
        SameAdd(Level(Wrapped(counts), mapped, n - 1), Total(counts, mapped, n - 1),
          Wrapped(counts)[n - 1], counts[n - 1]);
      }
    }
  }

  /** From readings taken when the counters stood at `from` to a last poll that finds them at `to`,
      the values returned for that kind add up to 64 times the true advance of the mapped
      counters, modulo 2^64: no traffic is lost or counted twice between polls. */
  lemma PollsMeasureAdvance(s: State, ps: seq<Poll>, mapped: seq<bool>, kind: Kind, from: seq<nat>, to: seq<nat>)
    requires ValidState(s, mapped) && ValidPolls(ps, mapped) && |from| == |to| == |mapped|
    requires s.Of(kind) == Wrapped(from)
    requires ps != [] && ps[|ps| - 1] == Poll(kind, Wrapped(to))
    ensures Same(ReturnedSum(s, ps, mapped, kind), Bytes(Total(from, mapped, |mapped|), Total(to, mapped, |mapped|)))
  {
    hide Same, Level, Total, Wrapped, ReturnedSum, Refreshed, Bytes;
    var n := |mapped|;
    PollsTelescope(s, ps, mapped, kind);
    var u := After(s, ps[..|ps| - 1], mapped);
    RefreshedLevel(u.Of(kind), Wrapped(to), mapped, n);
    LevelOfWrapped(from, mapped, n);
    LevelOfWrapped(to, mapped, n);
    SameBytes(Level(Wrapped(from), mapped, n), Total(from, mapped, n),
      Level(Wrapped(to), mapped, n), Total(to, mapped, n));
    SameTrans(ReturnedSum(s, ps, mapped, kind), Bytes(Level(Wrapped(from), mapped, n), Level(Wrapped(to), mapped, n)),
      Bytes(Total(from, mapped, n), Total(to, mapped, n)));
  }

  lemma SameBytes(a: int, b: int, c: int, d: int)
    requires Same(a, b) && Same(c, d)
    ensures Same(Bytes(a, c), Bytes(b, d))
  {
    assert Same(c - a, d - b);
    SameScaled(c - a, d - b);
  }

  lemma SameTrans(a: int, b: int, c: int)
    requires Same(a, b) && Same(b, c)
    ensures Same(a, c)
  {
  }

  // ----- The two implementations -----

  /** Last readings kept in place, and which controllers are mapped. */
  class Counters {
    const rdLast: array<u64>
    const wrLast: array<u64>
    const mapped: seq<bool>

    ghost predicate Valid() {
      rdLast.Length == wrLast.Length == |mapped| && rdLast != wrLast
    }

    ghost function Abs(): State
      reads rdLast, wrLast
    {
      State(rdLast[..], wrLast[..])
    }

    constructor (mapping: seq<bool>)
      ensures Valid() && mapped == mapping && fresh(rdLast) && fresh(wrLast)
      ensures Abs() == State(seq(|mapping|, _ => 0), seq(|mapping|, _ => 0))
    {
      rdLast, wrLast, mapped := new u64[|mapping|](_ => 0), new u64[|mapping|](_ => 0), mapping;
      new;
      assert rdLast[..] == seq(|mapping|, _ => 0) && wrLast[..] == seq(|mapping|, _ => 0);
    }

    /** The kernel's loop over one kind, which skips controllers that are not mapped. */
    method PollKernel(last: array<u64>, readings: seq<u64>) returns (total: u64)
      requires |readings| == last.Length == |mapped|
      modifies last
      ensures total == Moved(old(last[..]), readings, mapped, |mapped|)
      ensures last[..] == Refreshed(old(last[..]), readings, mapped)
    {
      hide Add64, Sub64;
      total := 0;
      for i := 0 to last.Length
        invariant total == Moved(old(last[..]), readings, mapped, i)
        invariant forall k :: 0 <= k < i ==> last[k] == if mapped[k] then readings[k] else old(last[k])
        invariant forall k :: i <= k < last.Length ==> last[k] == old(last[k])
      {
        if mapped[i] {
          var before := last[i];
          last[i] := readings[i];
          var delta := Sub64(last[i], before);
          total := Add64(total, delta);
        }
      }
    }

    /** The user-space loop, which keeps the old readings in an array of its own and takes every
        controller to be mapped. */
    method PollUser(last: array<u64>, readings: seq<u64>) returns (total: u64)
      requires |readings| == last.Length == |mapped| && forall i :: 0 <= i < |mapped| ==> mapped[i]
      modifies last
      ensures total == Moved(old(last[..]), readings, mapped, |mapped|)
      ensures last[..] == Refreshed(old(last[..]), readings, mapped)
    {
      hide Add64, Sub64;
      total := 0;
      var previous := new u64[last.Length](_ => 0);
      for i := 0 to last.Length
        invariant fresh(previous) && previous.Length == last.Length
        invariant total == Moved(old(last[..]), readings, mapped, i)
        invariant forall k :: 0 <= k < i ==> last[k] == readings[k]
        invariant forall k :: i <= k < last.Length ==> last[k] == old(last[k])
      {
        previous[i] := last[i];
        last[i] := readings[i];
        total := Add64(total, Sub64(last[i], previous[i]));
      }
    }

    method Kernel(kind: Kind, readings: seq<u64>) returns (bytes: u64)
      requires Valid() && |readings| == |mapped|
      modifies rdLast, wrLast
      ensures Abs() == Step(old(Abs()), Poll(kind, readings), mapped)
      ensures bytes == Returned(old(Abs()), Poll(kind, readings), mapped)
    {
      var total;
      if kind.Read? {
        total := PollKernel(rdLast, readings);
      } else {
        total := PollKernel(wrLast, readings);
      }
      bytes := Mul64(total, LINE_BYTES);
    }

    method User(kind: Kind, readings: seq<u64>) returns (bytes: u64)
      requires Valid() && |readings| == |mapped| && forall i :: 0 <= i < |mapped| ==> mapped[i]
      modifies rdLast, wrLast
      ensures Abs() == Step(old(Abs()), Poll(kind, readings), mapped)
      ensures bytes == Returned(old(Abs()), Poll(kind, readings), mapped)
    {
      var total;
      if kind.Read? {
        total := PollUser(rdLast, readings);
      } else {
        total := PollUser(wrLast, readings);
      }
      bytes := Mul64(total, LINE_BYTES);
    }
  }
}
