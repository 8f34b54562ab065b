/** The bit-field layouts of the prefetcher registers: reading and writing fields, and converting
    between settings and register values, for any layout. */
module MsrLayout {
  import opened Words

  /** Slots from bit 0 up. Padding takes space and is never set by name. */
  datatype Slot = Field(width: nat) | Pad(width: nat)

  type Layout = seq<Slot>

  function Pow2(k: nat): (r: nat)
    ensures r >= 1
  {
    if k == 0 then 1 else 2 * Pow2(k - 1)
  }

  function Offset(l: Layout, i: nat): nat
    requires i <= |l|
  {
    if i == 0 then 0 else Offset(l, i - 1) + l[i - 1].width
  }

  /** The k lowest bits of x, and the rest of it. Negative numbers are in two's complement. */
  function Low(x: int, k: nat): nat
    decreases k
  {
    if k == 0 then 0 else x % 2 + 2 * Low(x / 2, k - 1)
  }

  function High(x: int, k: nat): int
    decreases k
  {
    if k == 0 then x else High(x / 2, k - 1)
  }

  /** The w bits of v from bit `at` on. */
  function Bits(v: nat, at: nat, w: nat): nat {
    Low(High(v, at), w)
  }

  /** v with its w bits from bit `at` on replaced by those of x. */
  function Put(v: nat, at: nat, w: nat, x: int): nat {
    if at > 0 then v % 2 + 2 * Put(v / 2, at - 1, w, x)
    else if w > 0 then x % 2 + 2 * Put(v / 2, 0, w - 1, x / 2)
    else v
  }

  function Get(v: nat, l: Layout, i: nat): nat
    requires i < |l|
  {
    Bits(v, Offset(l, i), l[i].width)
  }

  function Set(v: nat, l: Layout, i: nat, x: int): nat
    requires i < |l|
  {
    Put(v, Offset(l, i), l[i].width, x)
  }

  /** The bits above the layout. */
  function Above(v: nat, l: Layout): int {
    High(v, Offset(l, |l|))
  }

  // ----- Bits -----

  lemma TimesDoubles(a: int, b: int)
    ensures Times(2 * a, b) == 2 * Times(a, b)
    ensures Times(1, b) == b
  {
  }

  lemma {:induction false} LowPlusHigh(x: int, k: nat)
    ensures x == Low(x, k) + Times(Pow2(k), High(x, k)) && Low(x, k) < Pow2(k)
    decreases k
  {
    hide Times;
    TimesDoubles(0, x);
    if k > 0 {
      LowPlusHigh(x / 2, k - 1);
      TimesDoubles(Pow2(k - 1), High(x, k));
    }
  }

  /** The low bits are the remainder modulo 2^k. */
  lemma LowIsRemainder(x: int, k: nat)
    ensures x == Low(x, k) + Pow2(k) * High(x, k) && Low(x, k) < Pow2(k)
  {
    LowPlusHigh(x, k);
  }

  lemma {:induction false} LowOfSmall(x: nat, k: nat)
    requires x < Pow2(k)
    ensures Low(x, k) == x && High(x, k) == 0
  {
    if k > 0 {
      LowOfSmall(x / 2, k - 1);
    }
  }

  lemma {:induction false} HighHigh(x: int, i: nat, j: nat)
    ensures High(High(x, i), j) == High(x, i + j)
    decreases i
  {
    if i > 0 {
      HighHigh(x / 2, i - 1, j);
    }
  }

  lemma {:induction false} LowHighDetermine(x: int, y: int, k: nat)
    requires Low(x, k) == Low(y, k) && High(x, k) == High(y, k)
    ensures x == y
    decreases k
  {
    if k > 0 {
      LowHighDetermine(x / 2, y / 2, k - 1);
    }
  }

  lemma PutHalves(v: nat, at: nat, w: nat, x: int)
    ensures at > 0 ==> Put(v, at, w, x) / 2 == Put(v / 2, at - 1, w, x)
    ensures at == 0 < w ==> Put(v, at, w, x) / 2 == Put(v / 2, 0, w - 1, x / 2) && Put(v, at, w, x) % 2 == x % 2
  {
  }

  lemma {:induction false} PutOwn(v: nat, at: nat, w: nat, x: int)
    ensures Bits(Put(v, at, w, x), at, w) == Low(x, w)
  {
    hide Put;
    PutHalves(v, at, w, x);
    if at > 0 {
      PutOwn(v / 2, at - 1, w, x);
    } else if w > 0 {
      PutOwn(v / 2, 0, w - 1, x / 2);
    }
  }

  /** A write leaves every range of bits that does not meet its own as it was. */
  lemma {:induction false} PutElsewhere(v: nat, at: nat, w: nat, x: int, at2: nat, w2: nat)
    requires at2 + w2 <= at || at + w <= at2
    ensures Bits(Put(v, at, w, x), at2, w2) == Bits(v, at2, w2)
    decreases at2 + w2
  {
    if at == 0 && w == 0 {
    } else if at2 > 0 {
      if at > 0 {
        PutElsewhere(v / 2, at - 1, w, x, at2 - 1, w2);
      } else {
        PutElsewhere(v / 2, 0, w - 1, x / 2, at2 - 1, w2);
      }
    } else if w2 > 0 {
      PutElsewhere(v / 2, at - 1, w, x, 0, w2 - 1);
    }
  }

  lemma {:induction false} PutAbove(v: nat, at: nat, w: nat, x: int, k: nat)
    requires at + w <= k
    ensures High(Put(v, at, w, x), k) == High(v, k)
  {
    if at > 0 {
      PutAbove(v / 2, at - 1, w, x, k - 1);
    } else if w > 0 {
      PutAbove(v / 2, 0, w - 1, x / 2, k - 1);
    }
  }

  lemma {:induction false} OffsetsAscend(l: Layout, i: nat, j: nat)
    requires i < j <= |l|
    ensures Offset(l, i) + l[i].width <= Offset(l, j)
  {
    if i < j - 1 {
      OffsetsAscend(l, i, j - 1);
    }
  }

  // ----- Fields -----

  /** Writing one slot stores the value modulo two to the slot's width and changes no other slot
      and nothing above the layout. */
  lemma SetChangesOnlyItsSlot(v: nat, l: Layout, i: nat, x: int)
    requires i < |l|
    ensures Get(Set(v, l, i, x), l, i) == Low(x, l[i].width)
    ensures forall j :: 0 <= j < |l| && j != i ==> Get(Set(v, l, i, x), l, j) == Get(v, l, j)
    ensures Above(Set(v, l, i, x), l) == Above(v, l)
  {
    hide Bits, Put;
    var at, w, r := Offset(l, i), l[i].width, Set(v, l, i, x);
    PutOwn(v, at, w, x);
    forall j | 0 <= j < |l| && j != i ensures Get(r, l, j) == Get(v, l, j) {
      if j < i { OffsetsAscend(l, j, i); } else { OffsetsAscend(l, i, j); }
      PutElsewhere(v, at, w, x, Offset(l, j), l[j].width);
    }
    OffsetsAscend(l, i, |l|);
    PutAbove(v, at, w, x, Offset(l, |l|));
  }

  /** In particular no single bit outside the slot changes. */
  lemma SetKeepsOtherBits(v: nat, l: Layout, i: nat, x: int, k: nat)
    requires i < |l| && (k < Offset(l, i) || k >= Offset(l, i) + l[i].width)
    ensures Bits(Set(v, l, i, x), k, 1) == Bits(v, k, 1)
  {
    PutElsewhere(v, Offset(l, i), l[i].width, x, k, 1);
  }

  lemma {:induction false} SlotsDetermineFrom(v: nat, u: nat, l: Layout, n: nat)
    requires n <= |l| && High(v, Offset(l, n)) == High(u, Offset(l, n))
    requires forall i :: 0 <= i < |l| ==> Get(v, l, i) == Get(u, l, i)
    ensures v == u
  {
    if n > 0 {
      hide High, Low;
      var at, w := Offset(l, n - 1), l[n - 1].width;
      HighHigh(v, at, w);
      HighHigh(u, at, w);
      assert Get(v, l, n - 1) == Get(u, l, n - 1);
      LowHighDetermine(High(v, at), High(u, at), w);
      SlotsDetermineFrom(v, u, l, n - 1);
    }
  }

  /** A value is determined by its slots and the bits above them. */
  lemma SlotsDetermine(v: nat, u: nat, l: Layout)
    requires Above(v, l) == Above(u, l)
    requires forall i :: 0 <= i < |l| ==> Get(v, l, i) == Get(u, l, i)
    ensures v == u
  {
    SlotsDetermineFrom(v, u, l, |l|);
  }

  lemma {:induction false} LowTwice(x: int, k: nat)
    ensures Low(Low(x, k), k) == Low(x, k)
  {
    LowIsRemainder(x, k);
    LowOfSmall(Low(x, k), k);
  }

  /** Writing back what was read changes nothing. */
  lemma SetGet(v: nat, l: Layout, i: nat)
    requires i < |l|
    ensures Set(v, l, i, Get(v, l, i)) == v
  {
    var g := Get(v, l, i);
    LowTwice(High(v, Offset(l, i)), l[i].width);
    assert Low(g, l[i].width) == g;
    hide Get, Set, Above;
    SetChangesOnlyItsSlot(v, l, i, g);
    SlotsDetermine(Set(v, l, i, g), v, l);
  }

  /** The last of two writes wins. */
  lemma SetSet(v: nat, l: Layout, i: nat, x: int, y: int)
    requires i < |l|
    ensures Set(Set(v, l, i, x), l, i, y) == Set(v, l, i, y)
  {
    hide Get, Set, Above;
    SetChangesOnlyItsSlot(v, l, i, x);
    SetChangesOnlyItsSlot(v, l, i, y);
    SetChangesOnlyItsSlot(Set(v, l, i, x), l, i, y);
    SlotsDetermine(Set(Set(v, l, i, x), l, i, y), Set(v, l, i, y), l);
  }

  lemma {:induction false} HighIsZero(v: nat, k: nat)
    ensures High(v, k) == 0 <==> v < Pow2(k)
  {
    if k > 0 {
      HighIsZero(v / 2, k - 1);
    }
  }

  /** Writing within a 64-bit layout keeps a 64-bit value. */
  lemma SetStaysWithin(v: nat, l: Layout, i: nat, x: int)
    requires i < |l| && Offset(l, |l|) <= 64 && v < Pow2(64)
    ensures Set(v, l, i, x) < Pow2(64)
  {
    hide Pow2, High;
    OffsetsAscend(l, i, |l|);
    PutAbove(v, Offset(l, i), l[i].width, x, 64);
    HighIsZero(v, 64);
    HighIsZero(Set(v, l, i, x), 64);
  }

  // ----- Settings and values -----

  /** Positions of the named fields, in order. */
  function Fields(l: Layout): (r: seq<nat>)
    ensures forall k :: 0 <= k < |r| ==> r[k] < |l| && l[r[k]].Field?
    ensures forall j, k :: 0 <= j < k < |r| ==> r[j] < r[k]
    ensures forall i :: 0 <= i < |l| && l[i].Field? ==> i in r
  {
    if l == [] then []
    else
      var n := |l| - 1;
      Fields(l[..n]) + (if l[n].Field? then [n] else [])
  }

  /** The settings of a value: its fields, in order. */
  function Settings(v: nat, l: Layout): (r: seq<nat>)
    ensures |r| == |Fields(l)|
  {
    seq(|Fields(l)|, k requires 0 <= k < |Fields(l)| => Get(v, l, Fields(l)[k]))
  }

  /** r has the given settings, cut to their widths, and nothing in its padding or above it. */
  ghost predicate Encodes(r: nat, l: Layout, settings: seq<int>)
    requires |settings| == |Fields(l)|
  {
    && (forall k :: 0 <= k < |settings| ==> Get(r, l, Fields(l)[k]) == Low(settings[k], l[Fields(l)[k]].width))
    && (forall i :: 0 <= i < |l| && l[i].Pad? ==> Get(r, l, i) == 0)
    && Above(r, l) == 0
  }

  lemma {:induction false} ZeroBits(k: nat)
    ensures High(0, k) == 0 && Low(0, k) == 0
  {
    if k > 0 {
      ZeroBits(k - 1);
    }
  }

  /** Settings to value: the fields are assigned one by one, starting from zero. Reading the
      settings back gives each one cut to its width. */
  method ToValue(l: Layout, settings: seq<int>) returns (v: nat)
    requires |settings| == |Fields(l)|
    ensures Encodes(v, l, settings)
    ensures forall k :: 0 <= k < |settings| ==> Settings(v, l)[k] == Low(settings[k], l[Fields(l)[k]].width)
  {
    hide Get, Set, Above, Low, Fields;
    var fs := Fields(l);
    v := 0;
    AllZero(l);
    for k := 0 to |fs|
      invariant forall m :: 0 <= m < k ==> Get(v, l, fs[m]) == Low(settings[m], l[fs[m]].width)
      invariant forall i :: 0 <= i < |l| && l[i].Pad? ==> Get(v, l, i) == 0
      invariant Above(v, l) == 0
    {
      SetChangesOnlyItsSlot(v, l, fs[k], settings[k]);
      v := Set(v, l, fs[k], settings[k]);
    }
  }

  lemma AllZero(l: Layout)
    ensures Above(0, l) == 0 && forall i :: 0 <= i < |l| ==> Get(0, l, i) == 0
  {
    ZeroBits(Offset(l, |l|));
    forall i | 0 <= i < |l| ensures Get(0, l, i) == 0 {
      ZeroBits(Offset(l, i));
      ZeroBits(l[i].width);
    }
  }

  /** What the tool makes of the value it is given: numbers from 2^63 on are too large for its
      parser, which returns the largest number it knows. */
  function Parsed(v: nat): nat {
    if v >= Pow2(63) then Pow2(63) - 1 else v
  }

  /** Value to settings. */
  method ToSettings(l: Layout, v: nat) returns (settings: seq<nat>)
    ensures settings == Settings(Parsed(v), l)
  {
    var value := Parsed(v);
    settings := [];
    var fs := Fields(l);
    for k := 0 to |fs|
      invariant settings == Settings(value, l)[..k]
    {
      settings := settings + [Get(value, l, fs[k])];
    }
  }

  lemma Pow2Doubles(k: nat)
    requires k > 0
    ensures Pow2(k) == 2 * Pow2(k - 1)
  {
  }

  lemma OnesHalve(k: nat)
    requires k > 0
    ensures (Pow2(k) - 1) / 2 == Pow2(k - 1) - 1 && (Pow2(k) - 1) % 2 == 1
  {
  }

  lemma {:induction false} OnesHigh(k: nat, at: nat)
    requires at <= k
    ensures High(Pow2(k) - 1, at) == Pow2(k - at) - 1
  {
    hide Pow2;
    if at > 0 {
      OnesHalve(k);
      OnesHigh(k - 1, at - 1);
    }
  }

  lemma {:induction false} OnesLow(k: nat, w: nat)
    requires w <= k
    ensures Low(Pow2(k) - 1, w) == Pow2(w) - 1
  {
    if w == 0 {
      assert Pow2(0) == 1;
    } else {
      hide Pow2;
      OnesHalve(k);
      OnesLow(k - 1, w - 1);
      Pow2Doubles(w);
    }
  }

  lemma {:induction false} HighBounds(v: nat, at: nat, k: nat)
    ensures v >= Pow2(at + k) <==> High(v, at) >= Pow2(k)
    ensures High(v, at) >= 0
    decreases at
  {
    if at > 0 {
      HighBounds(v / 2, at - 1, k);
    }
  }

  /** A field of the number the parser returns, for a field below bit 63 and for one that ends with
      it: all ones, and less than any field with its top bit set. */
  lemma ParsedField(v: nat, at: nat, w: nat)
    requires Pow2(63) <= v < Pow2(64) && at + w <= 64
    ensures at + w <= 63 ==> Bits(Pow2(63) - 1, at, w) == Pow2(w) - 1
    ensures at + w == 64 && w > 0 ==> Bits(Pow2(63) - 1, at, w) != Bits(v, at, w)
  {
    hide High, Low, Pow2;
    if at + w <= 63 {
      OnesHigh(63, at);
      OnesLow(63 - at, w);
    } else if w > 0 {
      OnesHigh(63, at);
      HighBounds(v, at, w - 1);
      HighBounds(v, at, w);
      Pow2Doubles(w);
      LowOfSmall(High(v, at), w);
      LowOfSmall(Pow2(w - 1) - 1, w);
    }
  }

  /** The tool shows the settings of the value it was given if and only if the value is below 2^63 or
      every field lies below bit 63 and has all its bits set. */
  lemma ParsedSettingsIff(v: nat, l: Layout)
    requires v < Pow2(64) && Offset(l, |l|) <= 64
    requires forall i :: 0 <= i < |l| ==> l[i].width > 0
    ensures Settings(Parsed(v), l) == Settings(v, l) <==>
      (v < Pow2(63) || forall i :: 0 <= i < |l| && l[i].Field? ==>
        Offset(l, i) + l[i].width <= 63 && Get(v, l, i) == Pow2(l[i].width) - 1)
  {
    hide Pow2, Bits;
    if v >= Pow2(63) {
      var u := Parsed(v);
      forall i | 0 <= i < |l| && l[i].Field?
        ensures Get(u, l, i) == Get(v, l, i) <==>
          (Offset(l, i) + l[i].width <= 63 && Get(v, l, i) == Pow2(l[i].width) - 1)
      {
        OffsetsAscend(l, i, |l|);
        ParsedField(v, Offset(l, i), l[i].width);
      }
      SameSettingsIff(u, v, l);
    }
  }

  lemma SameSettingsIff(u: nat, v: nat, l: Layout)
    ensures Settings(u, l) == Settings(v, l) <==>
      forall i :: 0 <= i < |l| && l[i].Field? ==> Get(u, l, i) == Get(v, l, i)
  {
    hide Get;
    if Settings(u, l) == Settings(v, l) {
      forall i | 0 <= i < |l| && l[i].Field? ensures Get(u, l, i) == Get(v, l, i) {
        var k :| 0 <= k < |Fields(l)| && Fields(l)[k] == i;
        assert Settings(u, l)[k] == Settings(v, l)[k];
      }
    }
  }

  /** At most one value carries given settings and nothing else. */
  lemma EncodesUnique(v: nat, u: nat, l: Layout, settings: seq<int>)
    requires |settings| == |Fields(l)| && Encodes(v, l, settings) && Encodes(u, l, settings)
    ensures v == u
  {
    hide Get, Above;
    forall i | 0 <= i < |l| ensures Get(v, l, i) == Get(u, l, i) {
      if l[i].Field? {
        var k :| 0 <= k < |Fields(l)| && Fields(l)[k] == i;
        assert Get(v, l, Fields(l)[k]) == Get(u, l, Fields(l)[k]);
      }
    }
    SlotsDetermine(v, u, l);
  }

  /** A value's settings lead back to the value with its padding, and whatever lies above the
      layout, cleared. */
  lemma ValueRoundTrip(v: nat, r: nat, l: Layout)
    requires Encodes(r, l, Settings(v, l))
    ensures forall i :: 0 <= i < |l| ==> Get(r, l, i) == if l[i].Field? then Get(v, l, i) else 0
    ensures Above(r, l) == 0
    ensures r == v <==> Above(v, l) == 0 && forall i :: 0 <= i < |l| && l[i].Pad? ==> Get(v, l, i) == 0
  {
    hide Get, Above;
    forall i | 0 <= i < |l| ensures Get(r, l, i) == if l[i].Field? then Get(v, l, i) else 0 {
      if l[i].Field? {
        var k :| 0 <= k < |Fields(l)| && Fields(l)[k] == i;
        assert Get(r, l, Fields(l)[k]) == Low(Settings(v, l)[k], l[i].width);
        GetIsShort(v, l, i);
      }
    }
    if Above(v, l) == 0 && forall i :: 0 <= i < |l| && l[i].Pad? ==> Get(v, l, i) == 0 {
      SlotsDetermine(r, v, l);
    }
  }

  lemma GetIsShort(v: nat, l: Layout, i: nat)
    requires i < |l|
    ensures Low(Get(v, l, i), l[i].width) == Get(v, l, i)
  {
    LowTwice(High(v, Offset(l, i)), l[i].width);
  }

  // ----- The registers -----

  const MSR_1A4: Layout := [
    Field(1), Field(1), Field(1), Field(1), Field(1), Field(1), Field(1), Field(1), Field(1), Pad(3), Field(1)]
  const MSR_1320: Layout := [
    Field(5), Pad(1), Field(3), Field(3), Field(5), Field(3), Field(5), Field(3), Pad(2), Field(1), Field(1),
    Field(5), Field(6), Field(1), Field(3), Field(5), Pad(1), Field(5), Field(5)]
  const MSR_1321: Layout := [
    Field(1), Pad(10), Field(1), Field(4), Field(4), Field(1), Field(8), Field(4), Pad(3), Field(1), Pad(3),
    Field(1), Field(6), Pad(16), Field(1)]
  const MSR_1322: Layout := [
    Field(3), Field(3), Field(3), Field(3), Pad(2), Field(9), Field(4), Field(6), Field(6), Field(6), Field(6),
    Pad(8), Field(3)]
  const MSR_1323: Layout := [
    Pad(34), Field(1), Field(1), Pad(1), Field(1), Field(1), Field(1), Field(1), Field(1), Pad(1), Field(1),
    Field(1), Field(1), Field(1), Field(1), Field(1)]
  const MSR_1324: Layout := [Pad(54), Field(8)]
  const MSR_1325: Layout := [
    Field(5), Field(1), Field(5), Pad(3), Field(3), Field(3), Pad(12), Field(8), Field(5), Field(5), Field(6),
    Field(3), Field(1)]
  const MSR_1326: Layout := [Pad(56), Field(6)]
  const MSR_1327: Layout := [
    Field(4), Field(4), Field(3), Field(3), Field(3), Field(3), Field(3), Field(3), Field(1)]

  const REGISTERS: seq<Layout> := [
    MSR_1A4, MSR_1320, MSR_1321, MSR_1322, MSR_1323, MSR_1324, MSR_1325, MSR_1326, MSR_1327]

  /** The slots of the layout start at these bits; the last number is where the layout ends. */
  ghost predicate Positions(l: Layout, at: seq<nat>) {
    |at| == |l| + 1 && forall i :: 0 <= i <= |l| ==> Offset(l, i) == at[i]
  }

  /** Running sums of the widths are the positions. */
  lemma {:induction false} PositionsAre(l: Layout, at: seq<nat>, n: nat)
    requires |at| == |l| + 1 && at[0] == 0 && n <= |l|
    requires forall i :: 0 <= i < |l| ==> at[i + 1] == at[i] + l[i].width
    ensures forall i :: 0 <= i <= n ==> Offset(l, i) == at[i]
  {
    if n > 0 {
      PositionsAre(l, at, n - 1);
    }
  }

  ghost predicate Ascends(xs: seq<nat>) {
    forall j, k :: 0 <= j < k < |xs| ==> xs[j] < xs[k]
  }

  lemma {:induction false} AscendingUnique(xs: seq<nat>, ys: seq<nat>)
    requires Ascends(xs) && Ascends(ys) && forall i :: i in xs <==> i in ys
    ensures xs == ys
  {
    assert ys != [] ==> ys[0] in xs;
    if xs != [] {
      assert xs[0] in ys;
      var m, n := |xs| - 1, |ys| - 1;
      assert xs[m] in ys && ys[n] in xs;
      assert xs[m] == ys[n];
      forall i ensures i in xs[..m] <==> i in ys[..n] {
        assert i in xs[..m] <==> i in xs && i != xs[m] by { SplitLast(xs, i); }
        assert i in ys[..n] <==> i in ys && i != ys[n] by { SplitLast(ys, i); }
      }
      AscendingUnique(xs[..m], ys[..n]);
    }
  }

  lemma SplitLast(xs: seq<nat>, i: nat)
    requires xs != [] && Ascends(xs)
    ensures i in xs[..|xs| - 1] <==> i in xs && i != xs[|xs| - 1]
  {
    if i in xs && i != xs[|xs| - 1] {
      var k :| 0 <= k < |xs| && xs[k] == i;
      assert xs[..|xs| - 1][k] == i;
    }
  }

  /** The named fields of a layout, given in order. */
  lemma FieldsAre(l: Layout, fs: seq<nat>)
    requires Ascends(fs) && forall i: nat :: i in fs <==> i < |l| && l[i].Field?
    ensures Fields(l) == fs
  {
    hide Fields;
    var gs := Fields(l);
    forall i ensures i in gs <==> i in fs {
      if i in gs {
        var k :| 0 <= k < |gs| && gs[k] == i;
      }
    }
    AscendingUnique(gs, fs);
  }

  lemma Fits1A4()
    ensures Positions(MSR_1A4, [
      0, 1, 2, 3, 4, 5, 6, 7, 8, 9, 12, 13])
    ensures Offset(MSR_1A4, |MSR_1A4|) == 13
  {
    PositionsAre(MSR_1A4, [
      0, 1, 2, 3, 4, 5, 6, 7, 8, 9, 12, 13], |MSR_1A4|);
  }

  lemma Fields1A4()
    ensures Fields(MSR_1A4) == [0, 1, 2, 3, 4, 5, 6, 7, 8, 10]
  {
    FieldsAre(MSR_1A4, [0, 1, 2, 3, 4, 5, 6, 7, 8, 10]);
  }

  lemma Fits1320()
    ensures Positions(MSR_1320, [
      0, 5, 6, 9, 12, 17, 20, 25, 28, 30, 31, 32, 37, 43, 44, 47, 52, 53, 58, 63])
    ensures Offset(MSR_1320, |MSR_1320|) == 63
  {
    PositionsAre(MSR_1320, [
      0, 5, 6, 9, 12, 17, 20, 25, 28, 30, 31, 32, 37, 43, 44, 47, 52, 53, 58, 63], |MSR_1320|);
  }

  lemma Fields1320()
    ensures Fields(MSR_1320) == [0, 2, 3, 4, 5, 6, 7, 9, 10, 11, 12, 13, 14, 15, 17, 18]
  {
    FieldsAre(MSR_1320, [0, 2, 3, 4, 5, 6, 7, 9, 10, 11, 12, 13, 14, 15, 17, 18]);
  }

  lemma Fits1321()
    ensures Positions(MSR_1321, [
      0, 1, 11, 12, 16, 20, 21, 29, 33, 36, 37, 40, 41, 47, 63, 64])
    ensures Offset(MSR_1321, |MSR_1321|) == 64
  {
    PositionsAre(MSR_1321, [
      0, 1, 11, 12, 16, 20, 21, 29, 33, 36, 37, 40, 41, 47, 63, 64], |MSR_1321|);
  }

  lemma Fields1321()
    ensures Fields(MSR_1321) == [0, 2, 3, 4, 5, 6, 7, 9, 11, 12, 14]
  {
    FieldsAre(MSR_1321, [0, 2, 3, 4, 5, 6, 7, 9, 11, 12, 14]);
  }

  lemma Fits1322()
    ensures Positions(MSR_1322, [
      0, 3, 6, 9, 12, 14, 23, 27, 33, 39, 45, 51, 59, 62])
    ensures Offset(MSR_1322, |MSR_1322|) == 62
  {
    PositionsAre(MSR_1322, [
      0, 3, 6, 9, 12, 14, 23, 27, 33, 39, 45, 51, 59, 62], |MSR_1322|);
  }

  lemma Fields1322()
    ensures Fields(MSR_1322) == [0, 1, 2, 3, 5, 6, 7, 8, 9, 10, 12]
  {
    FieldsAre(MSR_1322, [0, 1, 2, 3, 5, 6, 7, 8, 9, 10, 12]);
  }

  lemma Fits1323()
    ensures Positions(MSR_1323, [
      0, 34, 35, 36, 37, 38, 39, 40, 41, 42, 43, 44, 45, 46, 47, 48, 49])
    ensures Offset(MSR_1323, |MSR_1323|) == 49
  {
    PositionsAre(MSR_1323, [
      0, 34, 35, 36, 37, 38, 39, 40, 41, 42, 43, 44, 45, 46, 47, 48, 49], |MSR_1323|);
  }

  lemma Fields1323()
    ensures Fields(MSR_1323) == [1, 2, 4, 5, 6, 7, 8, 10, 11, 12, 13, 14, 15]
  {
    FieldsAre(MSR_1323, [1, 2, 4, 5, 6, 7, 8, 10, 11, 12, 13, 14, 15]);
  }

  lemma Fits1324()
    ensures Positions(MSR_1324, [
      0, 54, 62])
    ensures Offset(MSR_1324, |MSR_1324|) == 62
  {
    PositionsAre(MSR_1324, [
      0, 54, 62], |MSR_1324|);
  }

  lemma Fields1324()
    ensures Fields(MSR_1324) == [1]
  {
    FieldsAre(MSR_1324, [1]);
  }

  lemma Fits1325()
    ensures Positions(MSR_1325, [
      0, 5, 6, 11, 14, 17, 20, 32, 40, 45, 50, 56, 59, 60])
    ensures Offset(MSR_1325, |MSR_1325|) == 60
  {
    PositionsAre(MSR_1325, [
      0, 5, 6, 11, 14, 17, 20, 32, 40, 45, 50, 56, 59, 60], |MSR_1325|);
  }

  lemma Fields1325()
    ensures Fields(MSR_1325) == [0, 1, 2, 4, 5, 7, 8, 9, 10, 11, 12]
  {
    FieldsAre(MSR_1325, [0, 1, 2, 4, 5, 7, 8, 9, 10, 11, 12]);
  }

  lemma Fits1326()
    ensures Positions(MSR_1326, [
      0, 56, 62])
    ensures Offset(MSR_1326, |MSR_1326|) == 62
  {
    PositionsAre(MSR_1326, [
      0, 56, 62], |MSR_1326|);
  }

  lemma Fields1326()
    ensures Fields(MSR_1326) == [1]
  {
    FieldsAre(MSR_1326, [1]);
  }

  lemma Fits1327()
    ensures Positions(MSR_1327, [
      0, 4, 8, 11, 14, 17, 20, 23, 26, 27])
    ensures Offset(MSR_1327, |MSR_1327|) == 27
  {
    PositionsAre(MSR_1327, [
      0, 4, 8, 11, 14, 17, 20, 23, 26, 27], |MSR_1327|);
  }

  lemma Fields1327()
    ensures Fields(MSR_1327) == [0, 1, 2, 3, 4, 5, 6, 7, 8]
  {
    FieldsAre(MSR_1327, [0, 1, 2, 3, 4, 5, 6, 7, 8]);
  }

  // ----- A documented value -----

  lemma {:induction false} Pow2Sum(i: nat, j: nat)
    ensures Pow2(i + j) == Times(Pow2(i), Pow2(j))
  {
    hide Times;
    TimesDoubles(0, Pow2(j));
    if i > 0 {
      Pow2Sum(i - 1, j);
      TimesDoubles(Pow2(i - 1), Pow2(j));
    }
  }

  lemma SmallPowers()
    ensures Pow2(0) == 0x1 && Pow2(1) == 0x2 && Pow2(5) == 0x20 && Pow2(6) == 0x40 && Pow2(7) == 0x80
  {
    assert Pow2(2) == 4;
    assert Pow2(3) == 8;
    assert Pow2(4) == 16;
  }

  lemma PowersOfTwo()
    ensures Pow2(20) == 0x10_0000 && Pow2(30) == 0x4000_0000 && Pow2(37) == 0x20_0000_0000
    ensures Pow2(43) == 0x800_0000_0000 && Pow2(58) == 0x400_0000_0000_0000
  {
    SmallPowers();
    hide Pow2;
    Pow2Sum(5, 5);
    Pow2Sum(10, 10);
    Pow2Sum(10, 20);
    Pow2Sum(30, 7);
    Pow2Sum(37, 6);
    Pow2Sum(10, 5);
    Pow2Sum(43, 15);
  }

  lemma HighByDivision(v: nat, at: nat, d: nat)
    requires d == Pow2(at)
    ensures High(v, at) == v / d
  {
    hide Low, High, Pow2, Times;
    LowPlusHigh(v, at);
    HighBounds(v, at, 0);
    DivisionIsQuotient(v, d);
    QuotientUnique(v, d, High(v, at), v / d);
  }

  lemma LowByRemainder(q: nat, w: nat, e: nat)
    requires e == Pow2(w)
    ensures Low(q, w) == q % e
  {
    hide Low, High, Pow2, Times;
    LowPlusHigh(q, w);
    HighByDivision(q, w, e);
    RemainderOf(q, e);
  }

  /** Bits by division. */
  lemma BitsByDivision(v: nat, at: nat, w: nat, d: nat, e: nat)
    requires d == Pow2(at) && e == Pow2(w)
    ensures Bits(v, at, w) == v / d % e
  {
    hide Low, High, Pow2;
    HighByDivision(v, at, d);
    LowByRemainder(v / d, w, e);
  }

  lemma RemainderOf(q: nat, e: nat)
    requires e > 0
    ensures q % e == q - Times(e, q / e)
  {
  }

  /** The value in the tool's usage text has the settings that the text gives, in the fields for the
      queue thresholds, the distances and the two switches. */
  lemma UsageExample()
    ensures var v := 0x7000_07e0_4100_0018;
      && Bits(v, 0, 5) == 0x18 && Bits(v, 20, 5) == 0x10 && Bits(v, 30, 1) == 0x01
      && Bits(v, 37, 6) == 0x3f && Bits(v, 43, 1) == 0x00 && Bits(v, 58, 5) == 0x1c
  {
    SmallPowers();
    PowersOfTwo();
    UsageQuotients();
    hide Pow2, Bits;
    var v := 0x7000_07e0_4100_0018;
    FieldByDivision(v, 0, 5, 0x1, 0x20, v, 0x18);
    FieldByDivision(v, 20, 5, 0x10_0000, 0x20, 0x700_007e_0410, 0x10);
    FieldByDivision(v, 30, 1, 0x4000_0000, 0x2, 0x1_c000_1f81, 0x01);
    FieldByDivision(v, 37, 6, 0x20_0000_0000, 0x40, 0x380_003f, 0x3f);
    FieldByDivision(v, 43, 1, 0x800_0000_0000, 0x2, 0xe_0000, 0x00);
    FieldByDivision(v, 58, 5, 0x400_0000_0000_0000, 0x20, 0x1c, 0x1c);
  }

  lemma FieldByDivision(v: nat, at: nat, w: nat, d: nat, e: nat, q: nat, x: nat)
    requires d == Pow2(at) && e == Pow2(w) && v / d == q && q % e == x
    ensures Bits(v, at, w) == x
  {
    BitsByDivision(v, at, w, d, e);
  }

  lemma UsageQuotients()
    ensures var v := 0x7000_07e0_4100_0018;
      && v / 1 % 0x20 == 0x18 && v / 0x10_0000 == 0x700_007e_0410 && v / 0x4000_0000 == 0x1_c000_1f81
      && v / 0x20_0000_0000 == 0x380_003f && v / 0x800_0000_0000 == 0xe_0000 && v / 0x400_0000_0000_0000 == 0x1c
  {
  }

  /** Every register fits 64 bits. */
  lemma RegistersFit()
    ensures forall l :: l in REGISTERS ==> Offset(l, |l|) <= 64
  {
    Fits1A4();
    Fits1320();
    Fits1321();
    Fits1322();
    Fits1323();
    Fits1324();
    Fits1325();
    Fits1326();
    Fits1327();
    hide Offset;
  }

  /** A setter works in place on one register of a table. */
  method SetField(table: array<nat>, index: nat, l: Layout, i: nat, value: int)
    requires index < table.Length && i < |l|
    modifies table
    ensures table[..] == old(table[..])[index := Set(old(table[index]), l, i, value)]
    ensures Get(table[index], l, i) == Low(value, l[i].width)
    ensures forall j :: 0 <= j < |l| && j != i ==> Get(table[index], l, j) == Get(old(table[index]), l, j)
  {
    SetChangesOnlyItsSlot(table[index], l, i, value);
    table[index] := Set(table[index], l, i, value);
  }
}
