/** The kernel's sample log as its requests see it, and what any sequence of them leaves in it. */
module PmuLog {
  import opened LogFormat
  import opened Words

  /** An allocated buffer: its size in bytes and the entries written to it. */
  datatype Held = Held(capacity: u32, entries: seq<Entry>)

  datatype Log = Log(buffer: Option<Held>, logging: bool)

  ghost predicate Valid(l: Log) {
    l.buffer.Some? ==>
      && l.buffer.value.capacity > 0
      && AllValid(l.buffer.value.entries)
      && ENTRY_SIZE * |l.buffer.value.entries| <= l.buffer.value.capacity
  }

  /** Requests and appends, each with the outcomes of its allocations. */
  datatype Op =
    | Control(size: u32, mode: u32, replyOk: bool, bufferOk: bool)
    | Stop(replyOk: bool, secondReplyOk: bool)
    | Append(entry: Entry)
    | Read(maxBytes: u32, replyOk: bool)

  ghost predicate ValidOp(op: Op) {
    op.Append? ==> op.entry.Valid()
  }

  datatype Outcome = Outcome(log: Log, code: int)

  /** Configure or restart the log. A restart releases the old buffer before it knows whether the
      new one can be had, and failure leaves the logging flag as it was. */
  function OnControl(l: Log, size: u32, mode: u32, replyOk: bool, bufferOk: bool): Outcome {
    if !replyOk then Outcome(l, -ENOMEM)
    else if mode > 1 then Outcome(l, -EINVAL)
    else if l.buffer.None? || mode == 0 then
      if size == 0 then Outcome(l.(buffer := None), -EINVAL)
      else if !bufferOk then Outcome(l.(buffer := None), -ENOMEM)
      else Outcome(Log(Some(Held(size, [])), true), 0)
    else Outcome(l.(logging := true), 0)
  }

  function OnStop(l: Log, replyOk: bool, secondReplyOk: bool): Outcome {
    if !replyOk then Outcome(l, -ENOMEM)
    else if l.logging then Outcome(l.(logging := false), 0)
    else if !secondReplyOk then Outcome(l, -ENOMEM)
    else Outcome(l, -EINVAL)
  }

  function OnAppend(l: Log, e: Entry): Outcome {
    if !l.logging || l.buffer.None? then Outcome(l, -EINVAL)
    else
      var h := l.buffer.value;
      if ENTRY_SIZE * |h.entries| + ENTRY_SIZE > h.capacity then Outcome(l, -ENOSPC)
      else Outcome(l.(buffer := Some(h.(entries := h.entries + [e]))), 0)
  }

  /** Number of log bytes a read request returns. */
  function ReadLength(maxBytes: u32, size: nat): (r: nat)
    ensures r <= size
  {
    if maxBytes == 0 || size < maxBytes then size else maxBytes
  }

  function OnRead(l: Log, replyOk: bool): Outcome {
    if l.buffer.None? then Outcome(l, -ENODATA)
    else if !replyOk then Outcome(l, -ENOMEM)
    else Outcome(l, 0)
  }

  function Apply(l: Log, op: Op): Outcome {
    match op
    case Control(size, mode, replyOk, bufferOk) => OnControl(l, size, mode, replyOk, bufferOk)
    case Stop(replyOk, secondReplyOk) => OnStop(l, replyOk, secondReplyOk)
    case Append(e) => OnAppend(l, e)
    case Read(_, replyOk) => OnRead(l, replyOk)
  }

  function Run(ops: seq<Op>): Log {
    if ops == [] then Log(None, false) else Apply(Run(ops[..|ops| - 1]), ops[|ops| - 1]).log
  }

  // ----- What a history of requests amounts to -----
  //
  // These look at the requests and at which allocations were granted, never at the log itself.

  /** A control request gets as far as a new buffer: it restarts the log or finds none. */
  predicate Restarts(before: seq<Op>, op: Op) {
    op.Control? && op.replyOk && op.mode <= 1 && (op.mode == 0 || !HasBuffer(before))
  }

  /** A new buffer is asked for with a size and granted. */
  predicate Granted(op: Op)
    requires op.Control?
  {
    op.size > 0 && op.bufferOk
  }

  /** There is a buffer: the latest request to replace it was granted. */
  predicate HasBuffer(ops: seq<Op>)
    decreases |ops|, 0
  {
    ops != [] &&
    var before, op := ops[..|ops| - 1], ops[|ops| - 1];
    if op.Control? && op.replyOk && op.mode <= 1 && (op.mode == 0 || !HasBuffer(before)) then Granted(op)
    else HasBuffer(before)
  }

  /** The log is on: the latest control or stop request that succeeded was a control. */
  predicate TurnedOn(ops: seq<Op>) {
    ops != [] &&
    var before, op := ops[..|ops| - 1], ops[|ops| - 1];
    if op.Control? && op.replyOk && op.mode <= 1 && (Restarts(before, op) ==> Granted(op)) then true
    else if op.Stop? && op.replyOk then false
    else TurnedOn(before)
  }

  /** The size of the latest buffer. */
  function Capacity(ops: seq<Op>): u32 {
    if ops == [] then 0
    else
      var before, op := ops[..|ops| - 1], ops[|ops| - 1];
      if Restarts(before, op) && Granted(op) then op.size else Capacity(before)
  }

  /** Everything offered to the log while it was on, since the latest buffer was granted. */
  function Offered(ops: seq<Op>): seq<Entry> {
    if ops == [] then []
    else
      var before, op := ops[..|ops| - 1], ops[|ops| - 1];
      if Restarts(before, op) && Granted(op) then []
      else if op.Append? && TurnedOn(before) && HasBuffer(before) then Offered(before) + [op.entry]
      else Offered(before)
  }

  function Smaller(a: nat, b: nat): nat {
    if a < b then a else b
  }

  /** Over any sequence of requests and appends, with any allocation failing: the log is on exactly
      if the latest successful control or stop was a control, there is a buffer exactly if the latest
      request for one was granted, it has the size asked for, and it holds exactly the first entries
      offered to it since, as many as fit, in order. */
  lemma {:induction false} LogHoldsFirstOffered(ops: seq<Op>)
    requires forall i :: 0 <= i < |ops| ==> ValidOp(ops[i])
    ensures Valid(Run(ops))
    ensures Run(ops).logging == TurnedOn(ops) && Run(ops).buffer.Some? == HasBuffer(ops)
    ensures HasBuffer(ops) ==>
      var offered := Offered(ops);
      Run(ops).buffer.value == Held(Capacity(ops), offered[..Smaller(|offered|, Capacity(ops) / ENTRY_SIZE)])
  {
    if ops != [] {
      LogHoldsFirstOffered(ops[..|ops| - 1]);
    }
  }

  /** What the requests report, from the history alone. */
  lemma ReportsFollowHistory(ops: seq<Op>, op: Op)
    requires forall i :: 0 <= i < |ops| ==> ValidOp(ops[i])
    ensures op.Stop? ==> (Apply(Run(ops), op).code == 0 <==> op.replyOk && TurnedOn(ops))
    ensures op.Control? ==>
      (Apply(Run(ops), op).code == 0 <==> op.replyOk && op.mode <= 1 && (Restarts(ops, op) ==> Granted(op)))
    ensures op.Append? ==> (Apply(Run(ops), op).code == 0 <==>
      TurnedOn(ops) && HasBuffer(ops) && |Offered(ops)| < Capacity(ops) / ENTRY_SIZE)
    ensures op.Read? ==> (Apply(Run(ops), op).code == 0 <==> HasBuffer(ops) && op.replyOk)
  {
    hide Run, Offered, TurnedOn, HasBuffer, Capacity;
    LogHoldsFirstOffered(ops);
  }

  /** A stop that succeeds stops the log: until the next control request nothing more is stored,
      and the buffer stays as it was. */
  lemma {:induction false} StopStops(ops: seq<Op>, a: bool, b: bool, more: seq<Op>)
    requires Apply(Run(ops), Stop(a, b)).code == 0
    requires forall i :: 0 <= i < |more| ==> !more[i].Control?
    ensures var r := Run(ops + [Stop(a, b)] + more); !r.logging && r.buffer == Run(ops).buffer
  {
    var stopped := ops + [Stop(a, b)];
    if more == [] {
      assert stopped + more == stopped && stopped[..|stopped| - 1] == ops;
    } else {
      StopStops(ops, a, b, more[..|more| - 1]);
      assert (stopped + more)[..|stopped + more| - 1] == stopped + more[..|more| - 1];
    }
  }

  // ----- What the command-line tool asks for -----

  function Appends(es: seq<Entry>): (r: seq<Op>)
    ensures |r| == |es| && forall i :: 0 <= i < |es| ==> r[i] == Append(es[i])
  {
    seq(|es|, i requires 0 <= i < |es| => Append(es[i]))
  }

  /** One more append to a log that is on. */
  lemma OneMoreOffered(ops: seq<Op>, e: Entry)
    requires TurnedOn(ops) && HasBuffer(ops)
    ensures var more := ops + [Append(e)];
      TurnedOn(more) && HasBuffer(more) && Offered(more) == Offered(ops) + [e] && Capacity(more) == Capacity(ops)
  {
    assert (ops + [Append(e)])[..|ops + [Append(e)]| - 1] == ops;
  }

  lemma FreshLog(size: u32)
    requires size > 0
    ensures var ops := [Control(size, 0, true, true)];
      TurnedOn(ops) && HasBuffer(ops) && Offered(ops) == [] && Capacity(ops) == size
  {
    assert [Control(size, 0, true, true)][..0] == [];
  }

  lemma {:induction false} AppendsAreOffered(size: u32, es: seq<Entry>)
    requires size > 0
    ensures var ops := [Control(size, 0, true, true)] + Appends(es);
      TurnedOn(ops) && HasBuffer(ops) && Offered(ops) == es && Capacity(ops) == size
  {
    hide TurnedOn, HasBuffer, Offered, Capacity;
    var start := [Control(size, 0, true, true)];
    if es == [] {
      FreshLog(size);
      assert start + Appends(es) == start;
    } else {
      var before, e := es[..|es| - 1], es[|es| - 1];
      AppendsAreOffered(size, before);
      OneMoreOffered(start + Appends(before), e);
      assert start + Appends(es) == start + Appends(before) + [Append(e)];
      assert before + [e] == es;
    }
  }

  lemma {:induction false} AppendsWithoutLog(es: seq<Entry>)
    ensures Run([Control(0, 0, true, true)] + Appends(es)) == Log(None, false)
  {
    var ops := [Control(0, 0, true, true)] + Appends(es);
    if es == [] {
      assert ops == [Control(0, 0, true, true)] && ops[..0] == [];
    } else {
      AppendsWithoutLog(es[..|es| - 1]);
      assert ops[..|ops| - 1] == [Control(0, 0, true, true)] + Appends(es[..|es| - 1]);
    }
  }

  lemma SizeOfStart(n: nat)
    requires n > 0
    ensures var size := n % U32_SIZE; size / ENTRY_SIZE < n
  {
    assert n % U32_SIZE <= n;
  }

  /** The start command passes its number of entries where the kernel expects bytes, in 32 bits: a
      log started for n entries keeps only the first (n mod 2^32) / 76 of them, and there is none if
      n is a multiple of 2^32. */
  lemma StartKeepsTooFew(n: nat, es: seq<Entry>)
    requires n > 0 && |es| == n && AllValid(es)
    ensures var size := n % U32_SIZE;
      var l := Run([Control(size, 0, true, true)] + Appends(es));
      if size == 0 then l.buffer.None?
      else (l.buffer.Some? && l.buffer.value.entries == es[..size / ENTRY_SIZE] && |l.buffer.value.entries| < n)
  {
    hide Run, Offered, TurnedOn, HasBuffer, Capacity;
    var size := n % U32_SIZE;
    SizeOfStart(n);
    if size == 0 {
      AppendsWithoutLog(es);
    } else {
      var ops := [Control(size, 0, true, true)] + Appends(es);
      forall i | 0 <= i < |ops| ensures ValidOp(ops[i]) {
        assert i > 0 ==> ops[i] == Append(es[i - 1]);
      }
      AppendsAreOffered(size, es);
      LogHoldsFirstOffered(ops);
    }
  }

  /** The user-side start function sends its argument "reset" as the mode. With the value 1, which
      is meant to reset the log, a log that exists keeps its buffer and its entries. */
  lemma ResetArgumentAppends(l: Log, size: u32, bufferOk: bool)
    requires l.buffer.Some?
    ensures OnControl(l, size, 1, true, bufferOk) == Outcome(Log(l.buffer, true), 0)
    ensures OnControl(l, size, 0, true, true) == Outcome(Log(Some(Held(size, [])), true), 0) <==> size > 0
  {
  }

  // ----- What a reader gets -----

  /** The bytes a read request returns. */
  function ReadBytes(h: Held, maxBytes: u32): seq<byte>
    requires AllValid(h.entries)
  {
    EncodeAll(h.entries)[..ReadLength(maxBytes, ENTRY_SIZE * |h.entries|)]
  }

  /** With a limit of whole entries, as the dump command uses, decoding a read yields exactly the
      first entries of the log, as many as the limit covers; without a limit, all of them. */
  lemma DecodedReadIsPrefix(h: Held, maxBytes: u32)
    requires AllValid(h.entries) && maxBytes % ENTRY_SIZE == 0
    ensures |ReadBytes(h, maxBytes)| % ENTRY_SIZE == 0
    ensures DecodeAll(ReadBytes(h, maxBytes)) ==
      if maxBytes == 0 then h.entries else h.entries[..Smaller(|h.entries|, maxBytes / ENTRY_SIZE)]
  {
    hide DecodeAll, EncodeAll;
    var k := if maxBytes == 0 then |h.entries| else Smaller(|h.entries|, maxBytes / ENTRY_SIZE);
    assert ReadLength(maxBytes, ENTRY_SIZE * |h.entries|) == ENTRY_SIZE * k;
    EncodeAllPrefix(h.entries, k);
    DecodeEncodeAll(h.entries[..k]);
    assert h.entries[..|h.entries|] == h.entries;
  }

  /** The user-side reader copies what the kernel returns into a buffer of `room` bytes, after
      passing `room` on as a 32-bit limit. The copy fits exactly when that limit is not zero or
      the whole log fits. */
  lemma CopyFitsIff(room: nat, size: nat)
    ensures ReadLength(room % U32_SIZE, size) <= room <==> (room % U32_SIZE != 0 || size <= room)
  {
  }
}
