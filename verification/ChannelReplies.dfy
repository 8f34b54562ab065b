/** What the replies of the channel say, and which requests succeed. */
module ChannelReplies {
  import opened Words
  import opened LogFormat
  import opened PmuLog
  import opened Channel

  // ----- Reading replies -----

  /** The 32-bit words of a byte sequence. */
  function Halves(bytes: seq<byte>): seq<nat>
    requires |bytes| % 4 == 0
  {
    if bytes == [] then [] else [Decode(bytes[..4])] + Halves(bytes[4..])
  }

  lemma HalfFirst(x: u32, rest: seq<byte>)
    requires |rest| % 4 == 0
    ensures Halves(Encode(x, 4) + rest) == [x] + Halves(rest)
  {
    hide Encode, Decode, Pow256;
    WordSizes();
    DecodeEncode(x, 4);
    var bytes := Encode(x, 4) + rest;
    assert bytes[..4] == Encode(x, 4) && bytes[4..] == rest;
  }

  lemma OneHalf(x: u32)
    ensures Halves(Encode(x, 4)) == [x]
  {
    hide Encode, Decode;
    HalfFirst(x, []);
    assert Encode(x, 4) + [] == Encode(x, 4);
  }

  lemma ThreeHalves(x: u32, y: u32, z: u32)
    ensures Halves(Encode(x, 4) + Encode(y, 4) + Encode(z, 4)) == [x, y, z]
  {
    hide Encode, Decode, Halves;
    OneHalf(z);
    HalfFirst(y, Encode(z, 4));
    HalfFirst(x, Encode(y, 4) + Encode(z, 4));
    assert Encode(x, 4) + Encode(y, 4) + Encode(z, 4) == Encode(x, 4) + (Encode(y, 4) + Encode(z, 4));
  }

  lemma {:induction false} ManyHalves(ws: seq<u32>)
    ensures Halves(EncodeHalves(ws)) == ws
  {
    hide Encode, Decode, Halves;
    if ws == [] {
      NoHalves();
    } else {
      ManyHalves(ws[1..]);
      HalfFirst(ws[0], EncodeHalves(ws[1..]));
    }
  }

  lemma NoHalves()
    ensures Halves([]) == []
  {
  }

  // ----- Headers -----

  /** The number of a request's type. */
  function TypeOf(req: Request): nat {
    match req
    case Init => 0
    case CoreRange(_, _) => 1
    case DdrbwSet(_) => 2
    case CoreWeight(_) => 3
    case Tuning(_, _, _) => 4
    case MsrRead(_) => 5
    case PmuRead(_) => 6
    case DdrConfig(_, _, _) => 7
    case DdrBwRead => 8
    case LogControl(_, _) => 9
    case LogStop => 10
    case LogRead(_) => 11
    case Unknown(_) => 12
  }

  /** The reply starts with its type and, if it is short enough for 32 bits, its own size. */
  ghost predicate HasHeader(reply: seq<byte>, kind: nat) {
    && |reply| >= HEADER_SIZE && Decode(reply[..4]) == kind
    && (|reply| < U32_SIZE ==> Decode(reply[4..8]) == |reply|)
  }

  lemma ReplyHasHeader(kind: u32, payload: seq<byte>)
    ensures HasHeader(Reply(kind, payload), kind) && Reply(kind, payload)[HEADER_SIZE..] == payload
  {
    hide Encode, Decode, Pow256;
    WordSizes();
    DecodeEncode(kind, 4);
    var reply := Reply(kind, payload);
    assert reply[..4] == Encode(kind, 4) && reply[4..8] == Encode(|reply|, 4);
    if |reply| < U32_SIZE {
      DecodeEncode(|reply|, 4);
    }
  }

  /** Whatever request left a reply, the reply names the type of that request and its own size. */
  lemma ReplyNamesItsRequest(v: View, count: nat, req: Request, env: Env)
    requires PmuLog.Valid(v.log) && ValidEnv(env, |v.disabled|) && CountOk(count)
    ensures var r := OnWrite(v, count, req, env).view.reply;
      r.Some? ==> HasHeader(r.value, TypeOf(req)) && !req.Unknown?
  {
    hide Encode, EncodeHalves, EncodeWords, EncodeAll, ReadBytes, RangeDisabled, Reply, HasHeader, Decode;
    var r := OnWrite(v, count, req, env).view.reply;
    if r.Some? {
      var payload := PayloadOf(r.value, req, v, count, env);
      ReplyHasHeader(TypeOf(req), payload);
    }
  }

  /** The payload with which a request replied. */
  ghost function PayloadOf(reply: seq<byte>, req: Request, v: View, count: nat, env: Env): (payload: seq<byte>)
    requires PmuLog.Valid(v.log) && ValidEnv(env, |v.disabled|) && CountOk(count)
    requires OnWrite(v, count, req, env).view.reply == Some(reply)
    ensures reply == Reply(TypeOf(req), payload) && !req.Unknown?
  {
    hide Encode, EncodeHalves, EncodeWords, EncodeAll, ReadBytes, RangeDisabled, Reply;
    match req
    case Init => Encode(API_VERSION, 4)
    case CoreRange(first, last) => Encode(first, 4) + Encode(last, 4) + Encode(last - first + 1, 4)
    case DdrbwSet(target) => Encode(target, 4)
    case CoreWeight(weights) => Encode(|weights|, 4) + EncodeHalves(weights)
    case Tuning(enable, algorithm, aggr) =>
      Encode(enable, 4) + Encode(algorithm, 4) + Encode(ClampedAggr(aggr) / 10, 4)
    case MsrRead(_) => EncodeWords(env.registers)
    case PmuRead(_) => EncodeWords(env.counters)
    case DdrConfig(bar, cpuType, _) => Encode(bar, 8) + Encode(cpuType, 4) + Encode(env.padding, 4)
    case DdrBwRead => Encode(env.ddrRead, 8) + Encode(env.ddrWrite, 8)
    case LogControl(_, mode) =>
      Encode(OnWrite(v, count, req, env).view.log.buffer.value.capacity, 4) + Encode(mode, 4) + Encode(0, 4)
    case LogStop => if v.log.logging then Encode(0, 4) else Encode(U32_SIZE - EINVAL, 4)
    case LogRead(maxBytes) =>
      var data := ReadBytes(v.log.buffer.value, maxBytes);
      Encode(|data|, 8) + data
    case Unknown(_) => assert false; []
  }

  // ----- Contents -----

  /** What a reply carries after its header, for the requests that are answered in 32-bit words. */
  ghost function Answered(v: View, count: nat, req: Request, env: Env): seq<int>
    requires PmuLog.Valid(v.log) && ValidEnv(env, |v.disabled|)
  {
    var after := OnWrite(v, count, req, env).view;
    match req
    case Init => [1]
    case CoreRange(first, last) => [first, last, last - first + 1]
    case DdrbwSet(target) => [target]
    case Tuning(enable, algorithm, _) => [enable, algorithm, after.settings.aggr]
    case LogControl(_, mode) => [if after.log.buffer.Some? then after.log.buffer.value.capacity else 0, mode, 0]
    case LogStop => [if v.log.logging then 0 else 0xFFFF_FFEA]
    case _ => []
  }

  predicate InWords(req: Request) {
    req.Init? || req.CoreRange? || req.DdrbwSet? || req.Tuning? || req.LogControl? || req.LogStop?
  }

  ghost predicate Carries(reply: seq<byte>, words: seq<int>) {
    |reply| >= HEADER_SIZE && |reply| % 4 == 0 && Halves(reply[HEADER_SIZE..]) == words
  }

  /** These replies confirm what was asked and what is now in force. */
  lemma ReplyConfirms(v: View, count: nat, req: Request, env: Env)
    requires PmuLog.Valid(v.log) && ValidEnv(env, |v.disabled|) && CountOk(count) && InWords(req)
    requires |v.disabled| < U32_SIZE
    ensures var r := OnWrite(v, count, req, env).view.reply;
      r.Some? ==> Carries(r.value, Answered(v, count, req, env))
  {
    hide Encode, EncodeAll, Reply, Halves, Decode, RangeDisabled;
    var after := OnWrite(v, count, req, env).view;
    if after.reply.Some? {
      var payload := PayloadOf(after.reply.value, req, v, count, env);
      ReplyHasHeader(TypeOf(req), payload);
      match req
      case Init => OneHalf(1);
      case CoreRange(first, last) => ThreeHalves(first, last, last - first + 1);
      case DdrbwSet(target) => OneHalf(target);
      case Tuning(enable, algorithm, aggr) => ThreeHalves(enable, algorithm, ClampedAggr(aggr) / 10);
      case LogControl(_, mode) => ThreeHalves(after.log.buffer.value.capacity, mode, 0);
      case LogStop => OneHalf(if v.log.logging then 0 else 0xFFFF_FFEA);
    }
  }

  /** The weights come back as they were sent, after their number. */
  lemma WeightsComeBack(v: View, count: nat, weights: seq<u32>, env: Env)
    requires PmuLog.Valid(v.log) && ValidEnv(env, |v.disabled|) && CountOk(count) && |weights| < U32_SIZE
    ensures var r := OnWrite(v, count, CoreWeight(weights), env).view.reply;
      r.Some? ==> Carries(r.value, [|weights|] + weights)
  {
    hide Encode, Reply, Halves, Decode, EncodeHalves;
    var r := OnWrite(v, count, CoreWeight(weights), env).view.reply;
    if r.Some? {
      ReplyHasHeader(3, Encode(|weights|, 4) + EncodeHalves(weights));
      ManyHalves(weights);
      HalfFirst(|weights|, EncodeHalves(weights));
    }
  }

  /** What the machine answered to a request that reads it. */
  function Readings(req: Request, env: Env): seq<nat> {
    match req
    case MsrRead(_) => env.registers
    case PmuRead(_) => env.counters
    case _ => [env.ddrRead, env.ddrWrite]
  }

  /** Registers, counters and traffic come back as they were read, in 64-bit words. */
  lemma ReadingsComeBack(v: View, count: nat, req: Request, env: Env)
    requires PmuLog.Valid(v.log) && ValidEnv(env, |v.disabled|) && CountOk(count)
    requires req.MsrRead? || req.PmuRead? || req.DdrBwRead?
    ensures var r := OnWrite(v, count, req, env).view.reply;
      r.Some? ==> |r.value| >= 8 && |r.value| % 8 == 0 && DecodeWords(r.value[8..]) == Readings(req, env)
  {
    hide Encode, Reply, Decode, EncodeWords, DecodeWords;
    var r := OnWrite(v, count, req, env).view.reply;
    if r.Some? {
      var payload := PayloadOf(r.value, req, v, count, env);
      ReplyHasHeader(TypeOf(req), payload);
      DecodeEncodeWords(env.registers);
      DecodeEncodeWords(env.counters);
      DecodeEncodeWords([env.ddrRead, env.ddrWrite]);
      TwoWords(env.ddrRead, env.ddrWrite);
    }
  }

  lemma TwoWords(x: u64, y: u64)
    ensures EncodeWords([x, y]) == Encode(x, 8) + Encode(y, 8)
  {
    hide Encode;
    assert [x, y][1..] == [y] && [y][1..] == [];
    assert EncodeWords([y]) == Encode(y, 8) + EncodeWords([]);
  }

  // ----- Success and failure -----

  /** The module can do what is asked. */
  predicate Admissible(v: View, req: Request, env: Env) {
    match req
    case CoreRange(first, last) => first <= last < |v.disabled|
    case MsrRead(core) => core < |v.disabled| && !v.disabled[core]
    case PmuRead(core) => core < |v.disabled| && !v.disabled[core]
    case DdrConfig(_, cpuType, controllers) => 1 <= controllers <= 16 && 1 <= cpuType <= 2 && env.ddrMapped
    case LogControl(size, mode) =>
      (mode == 1 && v.log.buffer.Some?) || (mode <= 1 && size > 0 && env.secondAllocated)
    case LogStop => v.log.logging
    case LogRead(_) => v.log.buffer.Some?
    case Unknown(_) => false
    case _ => true
  }

  /** A write succeeds if and only if it has an acceptable size, arrives whole, gets a reply buffer and
      asks for what can be done. A failed copy, and a log that is not there, have error codes of their
      own; lack of memory is reported only where an allocation was refused. */
  lemma ServedIff(v: View, count: nat, req: Request, env: Env)
    requires PmuLog.Valid(v.log) && ValidEnv(env, |v.disabled|)
    ensures var code := OnWrite(v, count, req, env).code;
      && (code == count <==> 8 <= count <= 1024 && Received(env) && env.replyAllocated && Admissible(v, req, env))
      && (code == -EFAULT <==>
        8 <= count <= 1024 && (!env.headerCopied || (env.messageAllocated && !env.bodyCopied)))
      && (code == -ENODATA <==> 8 <= count <= 1024 && Received(env) && req.LogRead? && v.log.buffer.None?)
      && (code == -ENOMEM ==> !env.messageAllocated || !env.replyAllocated || !env.secondAllocated)
      && (code == count || code == -EFAULT || code == -ENODATA || code == -ENOMEM || code == -EINVAL)
  {
    hide Encode, EncodeHalves, EncodeWords, Reply, LogReply, ReadBytes, RangeDisabled, PmuLog.Valid;
  }
}
