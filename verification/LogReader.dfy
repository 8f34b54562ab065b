/** The user side of the log: the two-stage read and the dump command. */
module LogReader {
  import opened Words
  import opened LogFormat
  import opened PmuLog
  import opened Channel
  import opened ChannelDriver

  /** Outcomes on the user side: the two allocations and the two copies out of the kernel. */
  datatype Io = Io(headAllocated: bool, headCopied: bool, grown: bool, dataCopied: bool)

  /** The fixed part of a log reply says how much data follows it. */
  lemma LogReplyParts(data: seq<byte>)
    requires |data| < U64_SIZE
    ensures Decode(LogReply(data)[HEADER_SIZE..LOG_REPLY_SIZE]) == |data|
    ensures LogReply(data)[LOG_REPLY_SIZE..] == data
  {
    hide Encode, Decode, Pow256;
    WordSizes();
    DecodeEncode(|data|, 8);
    assert LogReply(data)[HEADER_SIZE..LOG_REPLY_SIZE] == Encode(|data|, 8);
  }

  ghost predicate Readable(k: Driver)
    reads k, k.logData
  {
    k.logBlock.Some? && k.LogOk()
  }

  ghost function LogBytes(k: Driver, room: nat): seq<byte>
    reads k, k.logData
    requires Readable(k)
  {
    ReadBytes(Held(k.logCapacity, k.entries), room % U32_SIZE)
  }

  ghost predicate ReadSucceeds(k: Driver, room: nat, env: Env, io: Io)
    reads k, k.logData
  {
    && Readable(k) && Received(env) && env.replyAllocated
    && io.headAllocated && io.headCopied && io.grown && (io.dataCopied || LogBytes(k, room) == [])
  }

  lemma LogBytesShort(k: Driver, room: nat)
    requires Readable(k)
    ensures |LogBytes(k, room)| == ReadLength(room % U32_SIZE, k.logSize) < U32_SIZE
  {
  }

  /** What one log request leaves in the channel. */
  method RequestLog(k: Driver, room: nat, env: Env) returns (code: int)
    requires k.Valid() && ValidEnv(env, k.disabled.Length)
    modifies k, k.logData, k.disabled
    ensures k.Valid()
    ensures code >= 0 <==> old(Readable(k)) && Received(env) && env.replyAllocated
    ensures code >= 0 ==>
      k.response.Some? && k.responseBytes == LogReply(old(LogBytes(k, room)))
    ensures code >= 0 ==> k.logBlock.Some? && k.logCapacity == old(k.logCapacity) && k.entries == old(k.entries)
  {
    hide LogReply, ReadBytes, Driver.LogOk;
    assert k.logBlock.Some? ==> k.LogOk();
    code := k.ProcWrite(LOG_READ_SIZE, LogRead(room % U32_SIZE), env);
  }

  /** A read fails, writes past the end of the caller's buffer, or delivers so many bytes. */
  datatype ReadOutcome = Failed | Overran | Delivered(count: nat)

  /** Reads the log into `buffer`. Without an intervening request a read that gets that far delivers
      exactly the first bytes of the log, as many as the size of the buffer asks for, and leaves the
      rest of the buffer alone, unless that size is a multiple of 2^32 and the log is larger: then
      the copy overruns the buffer. */
  method ReadLog(k: Driver, buffer: array<byte>, env: Env, io: Io) returns (r: ReadOutcome)
    requires k.Valid() && ValidEnv(env, k.disabled.Length) && buffer != k.logData
    modifies k, k.logData, k.disabled, buffer
    ensures r.Failed? <==> !old(ReadSucceeds(k, buffer.Length, env, io))
    ensures r.Overran? <==>
      (old(ReadSucceeds(k, buffer.Length, env, io)) && buffer.Length % U32_SIZE == 0 && old(k.logSize) > buffer.Length)
    ensures r.Delivered? ==>
      && r.count == |old(LogBytes(k, buffer.Length))| <= buffer.Length
      && buffer[..r.count] == old(LogBytes(k, buffer.Length))
      && buffer[r.count..] == old(buffer[..])[r.count..]
    ensures !r.Delivered? ==> buffer[..] == old(buffer[..])
  {
    hide LogReply, LogBytes, Encode, Decode, Driver.Holds, Driver.LogOk;
    r := Failed;
    var room := buffer.Length;
    ghost var data := if Readable(k) then LogBytes(k, room) else [];
    if Readable(k) {
      LogBytesShort(k, room);
      CopyFitsIff(room, k.logSize);
    }
    var code := RequestLog(k, room, env);
    if code < 0 || !io.headAllocated {
      return;
    }
    LogReplyParts(data);
    var got, head, pos := k.ProcRead(LOG_REPLY_SIZE, 0, io.headCopied);
    if got < 0 || !io.grown {
      return;
    }
    assert head[HEADER_SIZE..LOG_REPLY_SIZE] == LogReply(data)[HEADER_SIZE..LOG_REPLY_SIZE];
    var size := Decode(head[HEADER_SIZE..LOG_REPLY_SIZE]);
    var bytes;
    got, bytes, pos := k.ProcRead(size, pos, io.dataCopied);
    if got < 0 {
      return;
    }
    assert bytes == LogReply(data)[LOG_REPLY_SIZE..];
    if |bytes| > room {
      return Overran;
    }
    CopyInto(buffer, 0, bytes);
    assert buffer[..|bytes|] == buffer[0..0 + |bytes|];
    r := Delivered(size);
  }

  // ----- The dump command -----

  lemma OneEntryLess(size: nat)
    requires size % ENTRY_SIZE == 0 && size > 0
    ensures size >= ENTRY_SIZE
    ensures (size - ENTRY_SIZE) % ENTRY_SIZE == 0 && (size - ENTRY_SIZE) / ENTRY_SIZE == size / ENTRY_SIZE - 1
  {
  }

  lemma {:induction false} DecodeAllAt(bytes: seq<byte>, i: nat)
    requires |bytes| % ENTRY_SIZE == 0 && i < |bytes| / ENTRY_SIZE
    ensures DecodeAll(bytes)[i] == DecodeEntry(bytes[ENTRY_SIZE * i..ENTRY_SIZE * (i + 1)])
  {
    hide DecodeEntry;
    var rest := bytes[ENTRY_SIZE..];
    OneEntryLess(|bytes|);
    assert DecodeAll(bytes) == [DecodeEntry(bytes[..ENTRY_SIZE])] + DecodeAll(rest);
    if i > 0 {
      hide DecodeAll;
      DecodeAllAt(rest, i - 1);
      assert rest[ENTRY_SIZE * (i - 1)..ENTRY_SIZE * i] == bytes[ENTRY_SIZE * i..ENTRY_SIZE * (i + 1)];
    }
  }

  /** The rows of the table: one per entry, in order; none for a size that is not whole entries. */
  method DumpRows(bytes: seq<byte>) returns (rows: Option<seq<Entry>>)
    ensures rows == if |bytes| % ENTRY_SIZE != 0 then None else Some(DecodeAll(bytes))
  {
    hide DecodeEntry, DecodeAll;
    if |bytes| % ENTRY_SIZE != 0 {
      return None;
    }
    var count := |bytes| / ENTRY_SIZE;
    var out: seq<Entry> := [];
    for i := 0 to count
      invariant out == DecodeAll(bytes)[..i]
    {
      DecodeAllAt(bytes, i);
      out := out + [DecodeEntry(bytes[ENTRY_SIZE * i..ENTRY_SIZE * (i + 1)])];
    }
    assert DecodeAll(bytes)[..count] == DecodeAll(bytes);
    return Some(out);
  }

  const DEFAULT_ENTRIES := 10000

  /** Dump in table form: the rows are the first entries of the log, at most 10000 of them, provided
      the read delivers any, the buffer for it can be had and the output file can be opened. */
  method Dump(k: Driver, env: Env, io: Io, allocates: bool, opens: bool) returns (rows: Option<seq<Entry>>)
    requires k.Valid() && ValidEnv(env, k.disabled.Length)
    modifies k, k.logData, k.disabled
    ensures rows.Some? <==>
      (allocates && opens && old(ReadSucceeds(k, ENTRY_SIZE * DEFAULT_ENTRIES, env, io) && k.entries != []))
    ensures rows.Some? ==> rows.value == old(k.entries)[..Smaller(|old(k.entries)|, DEFAULT_ENTRIES)]
  {
    hide DecodeAll, EncodeAll, Driver.Holds;
    if !allocates {
      return None;
    }
    var buffer := new byte[ENTRY_SIZE * DEFAULT_ENTRIES];
    if Readable(k) {
      DecodedReadIsPrefix(Held(k.logCapacity, k.entries), ENTRY_SIZE * DEFAULT_ENTRIES);
      LogBytesShort(k, ENTRY_SIZE * DEFAULT_ENTRIES);
    }
    var r := ReadLog(k, buffer, env, io);
    if !r.Delivered? || r.count == 0 || !opens {
      return None;
    }
    rows := DumpRows(buffer[..r.count]);
  }
}
