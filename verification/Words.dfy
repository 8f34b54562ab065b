/** Machine words: unsigned 32- and 64-bit values and their wrapping operations; optional values. */
module Words {
  datatype Option<+T> = None | Some(value: T)

  // Error codes.
  const ENOMEM := 12
  const EFAULT := 14
  const EINVAL := 22
  const ENOSPC := 28
  const ENODATA := 61

  const U32_SIZE: nat := 0x1_0000_0000
  const U64_SIZE: nat := 0x1_0000_0000_0000_0000

  type u32 = x: nat | x < 0x1_0000_0000
  type u64 = x: nat | x < 0x1_0000_0000_0000_0000

  /** Multiplication under a name, so that proofs can treat a product as a whole. */
  function Times(a: int, b: int): int {
    a * b
  }

  /** Unsigned 64-bit subtraction: the borrow is dropped. */
  function Sub64(a: u64, b: u64): u64 {
    (a - b) % U64_SIZE
  }

  function Add64(a: u64, b: u64): u64 {
    (a + b) % U64_SIZE
  }

  function Mul64(a: u64, b: u64): u64 {
    (a * b) % U64_SIZE
  }

  /** An unsigned value stored in a signed 32-bit variable. */
  function ToInt32(x: nat): (r: int)
    ensures x < 0x8000_0000 ==> r == x
  {
    var low := x % U32_SIZE;
    if low < 0x8000_0000 then low else low - U32_SIZE
  }

  /** Unsigned 32-bit addition: the carry is dropped. */
  function Add32(a: u32, b: u32): u32 {
    (a + b) % U32_SIZE
  }

  // ----- Quotients -----

  /** q is a / d, rounded down. */
  predicate Quotient(a: nat, d: nat, q: nat) {
    Times(d, q) <= a < Times(d, q) + d
  }

  lemma DivisionIsQuotient(a: nat, d: nat)
    requires d > 0
    ensures Quotient(a, d, a / d)
  {
    assert a == d * (a / d) + a % d;
  }

  lemma TimesNext(d: nat, x: nat)
    ensures Times(d, x + 1) == Times(d, x) + d
  {
  }

  lemma TimesGrows(d: nat, x: nat, y: nat)
    requires x <= y
    ensures Times(d, x) <= Times(d, y)
  {
  }

  lemma TimesOrder(d: nat, x: nat, y: nat)
    ensures x <= y ==> Times(d, x) <= Times(d, y)
    ensures x < y ==> Times(d, x) + d <= Times(d, y)
  {
    hide Times;
    TimesNext(d, x);
    if x <= y {
      TimesGrows(d, x, y);
    }
    if x < y {
      TimesGrows(d, x + 1, y);
    }
  }

  lemma QuotientUnique(a: nat, d: nat, q: nat, r: nat)
    requires Quotient(a, d, q) && Quotient(a, d, r)
    ensures q == r
  {
    hide Times;
    TimesOrder(d, q, r);
    TimesOrder(d, r, q);
  }

  /** A rate reaches a limit exactly if the change reaches the limit for every unit of time. */
  lemma RateAtLeast(delta: nat, time: nat, rate: nat, limit: nat)
    requires time >= 1 && Quotient(delta, time, rate)
    ensures rate >= limit <==> delta >= Times(time, limit)
  {
    hide Times;
    TimesOrder(time, limit, rate);
    TimesOrder(time, rate, limit);
  }

  lemma TimesCommutes(a: int, b: int)
    ensures Times(a, b) == a * b == b * a
  {
  }

  /** The change of a 64-bit counter leads from its old value to the new one. */
  lemma DeltaIsAdvance(now: u64, before: u64)
    ensures (before + Sub64(now, before)) % U64_SIZE == now
  {
  }
}
