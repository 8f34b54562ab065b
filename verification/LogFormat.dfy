/** Byte layout of the log entries shared by the kernel module and its readers. */
module LogFormat {
  import opened Words

  type byte = x: nat | x < 256

  const ENTRY_SIZE := 76

  // ----- Little-endian words -----

  function Pow256(k: nat): nat {
    if k == 0 then 1 else 256 * Pow256(k - 1)
  }

  function Encode(n: nat, k: nat): (r: seq<byte>)
    ensures |r| == k
  {
    if k == 0 then [] else [n % 256] + Encode(n / 256, k - 1)
  }

  function Decode(bytes: seq<byte>): nat {
    if bytes == [] then 0 else bytes[0] + 256 * Decode(bytes[1..])
  }

  lemma {:induction false} DecodeEncode(n: nat, k: nat)
    requires n < Pow256(k)
    ensures Decode(Encode(n, k)) == n
  {
    if k > 0 {
      DecodeEncode(n / 256, k - 1);
      assert Encode(n, k)[1..] == Encode(n / 256, k - 1);
    }
  }

  lemma WordSizes()
    ensures Pow256(4) == U32_SIZE && Pow256(8) == U64_SIZE
  {
    assert Pow256(1) == 256;
    assert Pow256(2) == 256 * Pow256(1);
    assert Pow256(3) == 256 * Pow256(2);
    assert Pow256(4) == 256 * Pow256(3);
    assert Pow256(5) == 256 * Pow256(4);
    assert Pow256(6) == 256 * Pow256(5);
    assert Pow256(7) == 256 * Pow256(6);
  }

  // ----- Entries -----

  /** One sample: time stamp, core and the eight counters. */
  datatype Entry = Entry(timestamp: u64, core: u32, values: seq<u64>) {
    ghost predicate Valid() {
      |values| == 8
    }
  }

  function EncodeWords(ws: seq<u64>): (r: seq<byte>)
    ensures |r| == 8 * |ws|
  {
    if ws == [] then [] else Encode(ws[0], 8) + EncodeWords(ws[1..])
  }

  function DecodeWords(bytes: seq<byte>): (r: seq<u64>)
    requires |bytes| % 8 == 0
    ensures |r| == |bytes| / 8
  {
    if bytes == [] then [] else [Decode(bytes[..8]) % U64_SIZE] + DecodeWords(bytes[8..])
  }

  lemma {:induction false} DecodeEncodeWords(ws: seq<u64>)
    ensures DecodeWords(EncodeWords(ws)) == ws
  {
    if ws != [] {
      WordSizes();
      DecodeEncode(ws[0], 8);
      DecodeEncodeWords(ws[1..]);
      assert EncodeWords(ws)[..8] == Encode(ws[0], 8);
      assert EncodeWords(ws)[8..] == EncodeWords(ws[1..]);
    }
  }

  function EncodeEntry(e: Entry): (r: seq<byte>)
    requires e.Valid()
    ensures |r| == ENTRY_SIZE
  {
    Encode(e.timestamp, 8) + Encode(e.core, 4) + EncodeWords(e.values)
  }

  function DecodeEntry(bytes: seq<byte>): (r: Entry)
    requires |bytes| == ENTRY_SIZE
    ensures r.Valid()
  {
    Entry(Decode(bytes[..8]) % U64_SIZE, Decode(bytes[8..12]) % U32_SIZE, DecodeWords(bytes[12..]))
  }

  lemma DecodeEncodeEntry(e: Entry)
    requires e.Valid()
    ensures DecodeEntry(EncodeEntry(e)) == e
  {
    hide Encode, Decode, EncodeWords, DecodeWords, Pow256;
    WordSizes();
    DecodeEncode(e.timestamp, 8);
    DecodeEncode(e.core, 4);
    DecodeEncodeWords(e.values);
    var b := EncodeEntry(e);
    assert b[..8] == Encode(e.timestamp, 8);
    assert b[8..12] == Encode(e.core, 4);
    assert b[12..] == EncodeWords(e.values);
  }

  ghost predicate AllValid(es: seq<Entry>) {
    forall i :: 0 <= i < |es| ==> es[i].Valid()
  }

  function EncodeAll(es: seq<Entry>): (r: seq<byte>)
    requires AllValid(es)
    ensures |r| == ENTRY_SIZE * |es|
  {
    if es == [] then [] else EncodeEntry(es[0]) + EncodeAll(es[1..])
  }

  /** What the reader makes of a buffer of whole entries. */
  function DecodeAll(bytes: seq<byte>): (r: seq<Entry>)
    requires |bytes| % ENTRY_SIZE == 0
    ensures |r| == |bytes| / ENTRY_SIZE
  {
    if bytes == [] then [] else [DecodeEntry(bytes[..ENTRY_SIZE])] + DecodeAll(bytes[ENTRY_SIZE..])
  }

  lemma {:induction false} DecodeEncodeAll(es: seq<Entry>)
    requires AllValid(es)
    ensures DecodeAll(EncodeAll(es)) == es
  {
    if es != [] {
      hide EncodeEntry, DecodeEntry;
      DecodeEncodeEntry(es[0]);
      DecodeEncodeAll(es[1..]);
      assert EncodeAll(es)[..ENTRY_SIZE] == EncodeEntry(es[0]);
      assert EncodeAll(es)[ENTRY_SIZE..] == EncodeAll(es[1..]);
    }
  }

  lemma {:induction false} EncodeAllAppend(es: seq<Entry>, fs: seq<Entry>)
    requires AllValid(es) && AllValid(fs)
    ensures AllValid(es + fs) && EncodeAll(es + fs) == EncodeAll(es) + EncodeAll(fs)
  {
    hide EncodeEntry;
    if es == [] {
      assert es + fs == fs;
    } else {
      assert (es + fs)[1..] == es[1..] + fs;
      EncodeAllAppend(es[1..], fs);
    }
  }

  /** The first k entries' bytes are the first k * 76 bytes. */
  lemma EncodeAllPrefix(es: seq<Entry>, k: nat)
    requires AllValid(es) && k <= |es|
    ensures AllValid(es[..k]) && EncodeAll(es)[..ENTRY_SIZE * k] == EncodeAll(es[..k])
  {
    hide EncodeAll, EncodeEntry;
    assert es == es[..k] + es[k..];
    EncodeAllAppend(es[..k], es[k..]);
  }

  // ----- Where things are -----

  /** Words are stored with their low byte first. */
  lemma LowByteFirst(a: byte, b: byte, c: byte, d: byte)
    ensures Encode(a + 256 * b + 65536 * c + 16777216 * d, 4) == [a, b, c, d]
  {
    hide Encode;
    NextByte(a, b + 256 * (c + 256 * d), 3);
    NextByte(b, c + 256 * d, 2);
    NextByte(c, d, 1);
    NextByte(d, 0, 0);
    assert a + 256 * (b + 256 * (c + 256 * d)) == a + 256 * b + 65536 * c + 16777216 * d;
    assert Encode(0, 0) == [];
  }

  lemma NextByte(low: byte, rest: nat, k: nat)
    ensures Encode(low + 256 * rest, k + 1) == [low] + Encode(rest, k)
  {
    assert (low + 256 * rest) % 256 == low && (low + 256 * rest) / 256 == rest;
  }

  lemma {:induction false} WordAt(ws: seq<u64>, k: nat)
    requires k < |ws|
    ensures EncodeWords(ws)[8 * k..8 * k + 8] == Encode(ws[k], 8)
  {
    hide Encode;
    if k > 0 {
      WordAt(ws[1..], k - 1);
      assert EncodeWords(ws)[8 * k..8 * k + 8] == EncodeWords(ws[1..])[8 * (k - 1)..8 * (k - 1) + 8];
    }
  }

  /** An entry has its time stamp in bytes 0 to 7, its core in bytes 8 to 11, and its k-th counter in
      the eight bytes from 12 + 8 k on. */
  lemma EntryLayout(e: Entry, k: nat)
    requires e.Valid() && k < 8
    ensures var b := EncodeEntry(e);
      && Decode(b[0..8]) == e.timestamp && Decode(b[8..12]) == e.core
      && Decode(b[12 + 8 * k..20 + 8 * k]) == e.values[k]
  {
    hide Encode, Decode, EncodeWords, Pow256;
    WordSizes();
    DecodeEncode(e.timestamp, 8);
    DecodeEncode(e.core, 4);
    DecodeEncode(e.values[k], 8);
    WordAt(e.values, k);
    var b := EncodeEntry(e);
    assert b[0..8] == Encode(e.timestamp, 8) && b[8..12] == Encode(e.core, 4);
    assert b[12 + 8 * k..20 + 8 * k] == EncodeWords(e.values)[8 * k..8 * k + 8];
  }
}
