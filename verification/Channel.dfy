/** The /proc request and response channel as its users see it: what each request publishes, what
    it changes, and how its runs project onto the log. */
module Channel {
  import opened Words
  import opened LogFormat
  import opened PmuLog

  const HEADER_SIZE := 8
  const LOG_READ_SIZE := 12
  const LOG_REPLY_SIZE := 16
  const MAX_MSG_SIZE := 1024
  const API_VERSION := 1
  const MAX_AGGR := 100
  const MAX_CONTROLLERS := 16
  const DDR_CLIENT := 1
  const DDR_GRR_SRF := 2
  const MSRS := 7
  const COUNTERS := 8

  datatype Request =
    | Init
    | CoreRange(first: u32, last: u32)
    | DdrbwSet(target: u32)
    | CoreWeight(weights: seq<u32>)
    | Tuning(enable: u32, algorithm: u32, aggr: u32)
    | MsrRead(core: u32)
    | PmuRead(core: u32)
    | DdrConfig(bar: u64, cpuType: u32, controllers: u32)
    | DdrBwRead
    | LogControl(size: u32, mode: u32)
    | LogStop
    | LogRead(maxBytes: u32)
    | Unknown(kind: u32)

  /** What the rest of the system answers while a request is served: copies from user space,
      allocations, register and counter values, the outcome of mapping the memory controllers, the
      cores that are online, and the unset padding of one reply. */
  datatype Env = Env(
    headerCopied: bool, messageAllocated: bool, bodyCopied: bool,
    replyAllocated: bool, secondAllocated: bool, maskAllocated: seq<bool>,
    registers: seq<u64>, counters: seq<u64>, ddrRead: u64, ddrWrite: u64,
    ddrMapped: bool, online: seq<bool>, padding: u32)

  ghost predicate ValidEnv(env: Env, cores: nat) {
    |env.maskAllocated| == cores && |env.online| == cores && |env.registers| == MSRS && |env.counters| == COUNTERS
  }

  /** The memory controllers: how they were last configured, and how many are mapped. */
  datatype Ddr = Ddr(bar: u64, cpuType: u32, controllers: u32, mapped: nat)

  /** What requests have set: the core range, the algorithm with its aggressiveness, the bandwidth
      target, and the flag that keeps the periodic work going. */
  datatype Settings = Settings(
    firstCore: nat, activeCores: nat, algorithm: u32, aggr: u32, target: u32, running: bool)

  datatype View = View(reply: Option<seq<byte>>, log: Log, disabled: seq<bool>, settings: Settings, ddr: Ddr)

  datatype Served = Served(view: View, code: int)

  /** A reply is its type, its whole size, and its payload. */
  function Reply(kind: nat, payload: seq<byte>): (r: seq<byte>)
    ensures |r| == HEADER_SIZE + |payload|
  {
    Encode(kind, 4) + Encode(HEADER_SIZE + |payload|, 4) + payload
  }

  function EncodeHalves(ws: seq<u32>): (r: seq<byte>)
    ensures |r| == 4 * |ws|
  {
    if ws == [] then [] else Encode(ws[0], 4) + EncodeHalves(ws[1..])
  }

  function Answer(v: View, replyAllocated: bool, reply: seq<byte>): Served {
    if replyAllocated then Served(v.(reply := Some(reply)), 0) else Served(v, -ENOMEM)
  }

  predicate RangeOk(cores: nat, first: u32, last: u32) {
    first <= last < cores
  }

  function RangeDisabled(cores: nat, first: u32, last: u32, online: seq<bool>): (r: seq<bool>)
    requires |online| == cores
    ensures |r| == cores
  {
    seq(cores, i requires 0 <= i < cores => i < first || i > last || !online[i])
  }

  function OnCoreRange(v: View, first: u32, last: u32, env: Env): Served
    requires |env.online| == |v.disabled|
  {
    if !RangeOk(|v.disabled|, first, last) then Served(v, -EINVAL)
    else if !env.replyAllocated then Served(v, -ENOMEM)
    else Served(v.(
      reply := Some(Reply(1, Encode(first, 4) + Encode(last, 4) + Encode(last - first + 1, 4))),
      settings := v.settings.(firstCore := first, activeCores := last + 1 - first),
      disabled := RangeDisabled(|v.disabled|, first, last, env.online)), 0)
  }

  function ClampedAggr(aggr: u32): (r: u32)
    ensures r <= MAX_AGGR
  {
    if aggr > MAX_AGGR then MAX_AGGR else aggr
  }

  function OnTuning(v: View, enable: u32, algorithm: u32, aggr: u32, env: Env): Served {
    if !env.replyAllocated then Served(v, -ENOMEM)
    else
      var tenth := ClampedAggr(aggr) / 10;
      Served(v.(reply := Some(Reply(4, Encode(enable, 4) + Encode(algorithm, 4) + Encode(tenth, 4))),
        settings := v.settings.(algorithm := algorithm, aggr := tenth, running := enable == 1)), 0)
  }

  function OnDdrbwSet(v: View, target: u32, env: Env): Served {
    if !env.replyAllocated then Served(v, -ENOMEM)
    else Served(v.(settings := v.settings.(target := target), reply := Some(Reply(2, Encode(target, 4)))), 0)
  }

  /** The old mappings go and the new configuration is stored before it is known to work. */
  function OnDdrConfig(v: View, bar: u64, cpuType: u32, controllers: u32, env: Env): Served {
    if controllers == 0 || controllers > MAX_CONTROLLERS then Served(v, -EINVAL)
    else if !env.replyAllocated then Served(v, -ENOMEM)
    else if (cpuType != DDR_CLIENT && cpuType != DDR_GRR_SRF) || !env.ddrMapped then
      Served(v.(ddr := Ddr(bar, cpuType, controllers, 0)), -EINVAL)
    else Served(v.(
      ddr := Ddr(bar, cpuType, controllers, controllers),
      reply := Some(Reply(7, Encode(bar, 8) + Encode(cpuType, 4) + Encode(env.padding, 4)))), 0)
  }

  function OnLogControlRequest(v: View, size: u32, mode: u32, env: Env): Served {
    var o := OnControl(v.log, size, mode, env.replyAllocated, env.secondAllocated);
    if o.code == 0 && o.log.buffer.Some? then
      Served(v.(log := o.log, settings := v.settings.(running := true),
        reply := Some(Reply(9, Encode(o.log.buffer.value.capacity, 4) + Encode(mode, 4) + Encode(0, 4)))), 0)
    else Served(v.(log := o.log), o.code)
  }

  /** A stop that finds the log off is an error to the writer and still publishes a reply. */
  function OnLogStopRequest(v: View, env: Env): Served {
    var o := OnStop(v.log, env.replyAllocated, env.secondAllocated);
    if o.code == 0 then
      Served(v.(log := o.log, settings := v.settings.(running := false),
        reply := Some(Reply(10, Encode(0, 4)))), 0)
    else if o.code == -EINVAL then
      Served(v.(log := o.log, reply := Some(Reply(10, Encode(U32_SIZE - EINVAL, 4)))), o.code)
    else Served(v.(log := o.log), o.code)
  }

  function LogReply(data: seq<byte>): (r: seq<byte>)
    ensures |r| == LOG_REPLY_SIZE + |data|
  {
    Reply(11, Encode(|data|, 8) + data)
  }

  ghost function OnLogReadRequest(v: View, maxBytes: u32, env: Env): Served
    requires PmuLog.Valid(v.log)
  {
    var o := OnRead(v.log, env.replyAllocated);
    if o.code == 0 && v.log.buffer.Some? then
      Served(v.(reply := Some(LogReply(ReadBytes(v.log.buffer.value, maxBytes)))), 0)
    else Served(v, o.code)
  }

  predicate CoreOff(v: View, core: u32) {
    core >= |v.disabled| || v.disabled[core]
  }

  /** The handler each message type selects. */
  ghost function Handle(v: View, req: Request, env: Env): Served
    requires PmuLog.Valid(v.log) && ValidEnv(env, |v.disabled|)
  {
    match req
    case Init => Answer(v, env.replyAllocated, Reply(0, Encode(API_VERSION, 4)))
    case CoreRange(first, last) => OnCoreRange(v, first, last, env)
    case DdrbwSet(target) => OnDdrbwSet(v, target, env)
    case CoreWeight(weights) =>
      Answer(v, env.replyAllocated, Reply(3, Encode(|weights|, 4) + EncodeHalves(weights)))
    case Tuning(enable, algorithm, aggr) => OnTuning(v, enable, algorithm, aggr, env)
    case MsrRead(core) =>
      if CoreOff(v, core) then Served(v, -EINVAL)
      else Answer(v, env.replyAllocated, Reply(5, EncodeWords(env.registers)))
    case PmuRead(core) =>
      if CoreOff(v, core) then Served(v, -EINVAL)
      else Answer(v, env.replyAllocated, Reply(6, EncodeWords(env.counters)))
    case DdrConfig(bar, cpuType, controllers) => OnDdrConfig(v, bar, cpuType, controllers, env)
    case DdrBwRead => Answer(v, env.replyAllocated, Reply(8, Encode(env.ddrRead, 8) + Encode(env.ddrWrite, 8)))
    case LogControl(size, mode) => OnLogControlRequest(v, size, mode, env)
    case LogStop => OnLogStopRequest(v, env)
    case LogRead(maxBytes) => OnLogReadRequest(v, maxBytes, env)
    case Unknown(_) => Served(v, -EINVAL)
  }

  predicate CountOk(count: nat) {
    HEADER_SIZE <= count <= MAX_MSG_SIZE
  }

  predicate Received(env: Env) {
    env.headerCopied && env.messageAllocated && env.bodyCopied
  }

  /** A write of an acceptable size, once the previous reply is gone. */
  ghost function Serve(v: View, count: nat, req: Request, env: Env): Served
    requires PmuLog.Valid(v.log) && ValidEnv(env, |v.disabled|)
  {
    if !env.headerCopied then Served(v, -EFAULT)
    else if !env.messageAllocated then Served(v, -ENOMEM)
    else if !env.bodyCopied then Served(v, -EFAULT)
    else
      var s := Handle(v, req, env);
      Served(s.view, if s.code < 0 then s.code else count)
  }

  /** One write to the channel. A write of a wrong size touches nothing; any other drops the
      previous reply before it can fail. */
  ghost function OnWrite(v: View, count: nat, req: Request, env: Env): Served
    requires PmuLog.Valid(v.log) && ValidEnv(env, |v.disabled|)
  {
    if !CountOk(count) then Served(v, -EINVAL) else Serve(v.(reply := None), count, req, env)
  }

  /** A reply is there to be read after a write exactly when the write succeeded, with one
      exception: stopping a log that is already off fails and still answers. */
  lemma ReplyIffServed(v: View, count: nat, req: Request, env: Env)
    requires PmuLog.Valid(v.log) && ValidEnv(env, |v.disabled|) && CountOk(count)
    ensures var s := OnWrite(v, count, req, env);
      s.view.reply.Some? <==> (s.code == count
        || (s.code == -EINVAL && Received(env) && req.LogStop? && !v.log.logging
          && env.replyAllocated && env.secondAllocated))
  {
    hide Encode, EncodeHalves, EncodeWords, EncodeAll;
  }

  // ----- Runs of the channel, with samples appended between requests -----

  datatype Event =
    | Write(count: nat, req: Request, env: Env)
    | Sample(entry: Entry)

  ghost predicate ValidEvent(e: Event, cores: nat) {
    match e
    case Write(_, _, env) => ValidEnv(env, cores)
    case Sample(entry) => entry.Valid()
  }

  /** The log operation an event amounts to, if any. */
  function LogOp(e: Event): seq<Op> {
    match e
    case Sample(entry) => [Append(entry)]
    case Write(count, req, env) =>
      if !CountOk(count) || !Received(env) then []
      else match req
        case LogControl(size, mode) => [Control(size, mode, env.replyAllocated, env.secondAllocated)]
        case LogStop => [Stop(env.replyAllocated, env.secondAllocated)]
        case LogRead(maxBytes) => [Read(maxBytes, env.replyAllocated)]
        case _ => []
  }

  function LogOps(es: seq<Event>): seq<Op> {
    if es == [] then [] else LogOps(es[..|es| - 1]) + LogOp(es[|es| - 1])
  }

  ghost function React(v: View, e: Event): View
    requires PmuLog.Valid(v.log) && ValidEvent(e, |v.disabled|)
  {
    match e
    case Write(count, req, env) => OnWrite(v, count, req, env).view
    case Sample(entry) => v.(log := OnAppend(v.log, entry).log)
  }

  /** A received request changes the log as its log operation does, or not at all. */
  lemma HandleIsLogOp(v: View, count: nat, req: Request, env: Env)
    requires PmuLog.Valid(v.log) && ValidEnv(env, |v.disabled|) && CountOk(count) && Received(env)
    ensures var w, ops := Handle(v, req, env).view, LogOp(Write(count, req, env));
      && |w.disabled| == |v.disabled|
      && w.log == (if ops == [] then v.log else Apply(v.log, ops[0]).log)
  {
    hide Encode, EncodeHalves, EncodeWords, EncodeAll, RangeDisabled, Reply, LogReply, ReadBytes, PmuLog.Valid;
  }

  lemma ApplyKeepsValid(l: Log, op: Op)
    requires PmuLog.Valid(l) && ValidOp(op)
    ensures PmuLog.Valid(Apply(l, op).log)
  {
  }

  lemma ReactIsLogOp(v: View, e: Event)
    requires PmuLog.Valid(v.log) && ValidEvent(e, |v.disabled|)
    ensures var w := React(v, e);
      && PmuLog.Valid(w.log) && |w.disabled| == |v.disabled|
      && w.log == (if LogOp(e) == [] then v.log else Apply(v.log, LogOp(e)[0]).log)
      && (forall i :: 0 <= i < |LogOp(e)| ==> ValidOp(LogOp(e)[i]))
  {
    hide Handle, PmuLog.Valid;
    if e.Write? && CountOk(e.count) && Received(e.env) {
      HandleIsLogOp(v.(reply := None), e.count, e.req, e.env);
    }
    if LogOp(e) != [] {
      ApplyKeepsValid(v.log, LogOp(e)[0]);
    }
  }

  ghost predicate ValidEvents(es: seq<Event>, cores: nat) {
    forall i :: 0 <= i < |es| ==> ValidEvent(es[i], cores)
  }

  ghost function After(v: View, es: seq<Event>): (w: View)
    requires PmuLog.Valid(v.log) && ValidEvents(es, |v.disabled|)
    ensures PmuLog.Valid(w.log) && |w.disabled| == |v.disabled|
  {
    if es == [] then v
    else
      var u := After(v, es[..|es| - 1]);
      ReactIsLogOp(u, es[|es| - 1]);
      React(u, es[|es| - 1])
  }

  lemma {:induction false} RunLogs(v: View, es: seq<Event>)
    requires v.log == Log(None, false) && ValidEvents(es, |v.disabled|)
    ensures Run(LogOps(es)) == After(v, es).log
    ensures forall i :: 0 <= i < |LogOps(es)| ==> ValidOp(LogOps(es)[i])
  {
    if es != [] {
      hide React, Apply, LogOp, ValidOp;
      var before, e := es[..|es| - 1], es[|es| - 1];
      RunLogs(v, before);
      ReactIsLogOp(After(v, before), e);
      LogOpShort(e);
      RunExtends(LogOps(before), LogOp(e));
    }
  }

  lemma LogOpShort(e: Event)
    ensures |LogOp(e)| <= 1
  {
  }

  lemma RunExtends(ops: seq<Op>, more: seq<Op>)
    requires |more| <= 1
    ensures Run(ops + more) == if more == [] then Run(ops) else Apply(Run(ops), more[0]).log
  {
    if more == [] {
      assert ops + more == ops;
    } else {
      assert (ops + more)[..|ops + more| - 1] == ops;
    }
  }

  /** Over any run of writes of any kind and size, with any failure, and samples in between, the log
      is what the log requests among them amount to: on or off, with a buffer or without, and holding
      the first entries offered since its buffer was granted, as many as fit. */
  lemma ChannelLogHoldsFirstOffered(v: View, es: seq<Event>)
    requires v.log == Log(None, false) && ValidEvents(es, |v.disabled|)
    ensures var l, ops := After(v, es).log, LogOps(es);
      && l.logging == TurnedOn(ops) && l.buffer.Some? == HasBuffer(ops)
      && (l.buffer.Some? ==>
        l.buffer.value == Held(Capacity(ops),
          Offered(ops)[..Smaller(|Offered(ops)|, Capacity(ops) / ENTRY_SIZE)]))
  {
    hide TurnedOn, HasBuffer, Capacity, Offered, After;
    RunLogs(v, es);
    LogHoldsFirstOffered(LogOps(es));
  }
}
