/** The kernel side of the channel on its own mutable state: owned allocations, the lock, and the
    log buffer, each request proved against its specification. */
module ChannelDriver {
  import opened Words
  import opened LogFormat
  import opened PmuLog
  import opened Channel

  function Blocks(p: Option<nat>): set<nat> {
    if p.Some? then {p.value} else {}
  }

  /** Copies `src` into `dst` from position `at` on. */
  method CopyInto(dst: array<byte>, at: nat, src: seq<byte>)
    requires at + |src| <= dst.Length
    modifies dst
    ensures dst[..at] == old(dst[..at])
    ensures dst[at..at + |src|] == src
    ensures dst[at + |src|..] == old(dst[at + |src|..])
  {
    var i := 0;
    while i < |src|
      invariant 0 <= i <= |src|
      invariant forall k :: 0 <= k < dst.Length ==>
        dst[k] == if at <= k < at + i then src[k - at] else old(dst[k])
    {
      dst[at + i] := src[i];
      i := i + 1;
    }
  }

  class Driver {
    // The kernel's allocator: blocks handed out and not yet freed.
    var live: set<nat>
    var next: nat

    var locked: bool
    var response: Option<nat>
    var responseBytes: seq<byte>
    var logBlock: Option<nat>
    var logData: array<byte>
    var logCapacity: u32
    var logSize: nat
    var logging: bool
    const disabled: array<bool>
    var settings: Settings
    var ddr: Ddr
    ghost var entries: seq<Entry>

    ghost function Owned(): set<nat>
      reads this`response, this`logBlock
    {
      Blocks(response) + Blocks(logBlock)
    }

    ghost predicate LogOk()
      reads this`logCapacity, this`logSize, this`logData, this`entries, logData
    {
      && 0 < logCapacity && logData.Length == logCapacity
      && AllValid(entries)
      && logSize == ENTRY_SIZE * |entries| <= logCapacity
      && logData[..logSize] == EncodeAll(entries)
    }

    /** The live blocks are exactly the response, the log buffer and the blocks in `extra`. */
    ghost predicate Holds(extra: set<nat>)
      reads this`live, this`next, this`response, this`logBlock
      reads this`logCapacity, this`logSize, this`logData, this`entries, logData
    {
      && live == Owned() + extra && Owned() !! extra
      && Blocks(response) !! Blocks(logBlock)
      && (forall p :: p in live ==> p < next)
      && (logBlock.Some? ==> LogOk())
    }

    /** Between requests nothing but the response and the log buffer is allocated, and the lock is
        free. */
    ghost predicate Valid()
      reads this, logData
    {
      Holds({}) && !locked
    }

    ghost function Abs(): View
      reads this`response, this`responseBytes, this`logBlock, this`logCapacity, this`entries, this`logging
      reads this`settings, this`ddr, disabled
    {
      View(if response.Some? then Some(responseBytes) else None,
        Log(if logBlock.Some? then Some(Held(logCapacity, entries)) else None, logging),
        disabled[..], settings, ddr)
    }

    /** The module's data before its load function runs: nothing allocated, all cores off. */
    constructor (cores: nat)
      ensures Valid() && fresh(logData) && fresh(disabled)
      ensures Abs() == View(None, Log(None, false), seq(cores, _ => true),
        Settings(0, 0, 0, 0, 0, false), Ddr(0, 0, 0, 0))
    {
      live, next, locked := {}, 0, false;
      response, responseBytes := None, [];
      logBlock, logData, logCapacity, logSize, logging := None, new byte[0], 0, 0, false;
      disabled := new bool[cores](_ => true);
      settings, ddr := Settings(0, 0, 0, 0, 0, false), Ddr(0, 0, 0, 0);
      entries := [];
      new;
      assert disabled[..] == seq(cores, _ => true);
    }

    /** Module load: an empty response is allocated, and freed again if the channel's file cannot be
        made. */
    method Load(granted: bool, created: bool) returns (code: int)
      requires Valid() && response.None?
      modifies this`live, this`next, this`response, this`responseBytes
      ensures Valid() && code == if granted && created then 0 else -ENOMEM
      ensures Abs() == old(Abs()).(reply := if code == 0 then Some([]) else None)
    {
      var p := Kmalloc(granted, {});
      if p.None? {
        return -ENOMEM;
      }
      if !created {
        Release(p, {});
        return -ENOMEM;
      }
      response, responseBytes := p, [];
      return 0;
    }

    // ----- Allocation -----

    method Kmalloc(granted: bool, ghost extra: set<nat>) returns (p: Option<nat>)
      requires Holds(extra)
      modifies this`live, this`next
      ensures p.Some? == granted
      ensures if granted then Holds(extra + {p.value}) && p.value !in extra else Holds(extra)
    {
      p := None;
      if granted {
        p := Some(next);
        live, next := live + {next}, next + 1;
      }
    }

    /** Freeing is allowed for live blocks only, so no caller can free twice. */
    method Kfree(p: Option<nat>)
      requires Blocks(p) <= live
      modifies this`live
      ensures live == old(live) - Blocks(p)
    {
      if p.Some? {
        live := live - {p.value};
      }
    }

    method Release(p: Option<nat>, ghost extra: set<nat>)
      requires p.Some? && p.value !in extra && Holds(extra + {p.value})
      modifies this`live
      ensures Holds(extra)
    {
      Kfree(p);
    }

    method Publish(p: Option<nat>, bytes: seq<byte>, ghost extra: set<nat>)
      requires p.Some? && p.value !in extra && Holds(extra + {p.value})
      modifies this`live, this`response, this`responseBytes
      ensures Holds(extra)
      ensures Abs() == old(Abs()).(reply := Some(bytes))
    {
      Kfree(response);
      response, responseBytes := p, bytes;
    }

    method AnswerWith(granted: bool, bytes: seq<byte>, ghost extra: set<nat>) returns (code: int)
      requires Holds(extra)
      modifies this`live, this`next, this`response, this`responseBytes
      ensures Holds(extra)
      ensures Served(Abs(), code) == Answer(old(Abs()), granted, bytes)
    {
      var p := Kmalloc(granted, extra);
      if p.None? {
        return -ENOMEM;
      }
      Publish(p, bytes, extra);
      return 0;
    }

    /** The mask that selects the core is freed before the call returns. */
    method ConfigurePmu(granted: bool, ghost extra: set<nat>) returns (code: int)
      requires Holds(extra)
      modifies this`live, this`next
      ensures Holds(extra)
      ensures code == if granted then 0 else -ENOMEM
    {
      var mask := Kmalloc(granted, extra);
      if mask.None? {
        return -ENOMEM;
      }
      Release(mask, extra);
      return 0;
    }

    method ConfigureEnabled(granted: seq<bool>, ghost extra: set<nat>)
      requires Holds(extra) && |granted| == disabled.Length
      modifies this`live, this`next
      ensures Holds(extra)
    {
      for i := 0 to disabled.Length
        invariant Holds(extra)
      {
        if !disabled[i] {
          var _ := ConfigurePmu(granted[i], extra);
        }
      }
    }

    // ----- Requests -----

    method EnableRange(first: u32, last: u32, env: Env, ghost extra: set<nat>)
      requires Holds(extra) && ValidEnv(env, disabled.Length)
      modifies this`live, this`next, disabled
      ensures Holds(extra)
      ensures disabled[..] == RangeDisabled(disabled.Length, first, last, env.online)
    {
      hide Holds;
      for core := 0 to disabled.Length
        invariant Holds(extra)
        invariant forall i :: 0 <= i < core ==> disabled[i] == (i < first || i > last || !env.online[i])
      {
        disabled[core] := core < first || core > last;
        if !disabled[core] {
          if env.online[core] {
            var _ := ConfigurePmu(env.maskAllocated[core], extra);
          } else {
            disabled[core] := true;
          }
        }
      }
    }

    method ApiCoreRange(first: u32, last: u32, env: Env, ghost extra: set<nat>) returns (code: int)
      requires Holds(extra) && ValidEnv(env, disabled.Length)
      modifies this`live, this`next, this`response, this`responseBytes, this`settings, disabled
      ensures Holds(extra)
      ensures Served(Abs(), code) == OnCoreRange(old(Abs()), first, last, env)
    {
      hide Holds, Encode, Reply;
      if last >= disabled.Length || first > last {
        return -EINVAL;
      }
      var p := Kmalloc(env.replyAllocated, extra);
      if p.None? {
        return -ENOMEM;
      }
      var reply := Reply(1, Encode(first, 4) + Encode(last, 4) + Encode(last - first + 1, 4));
      settings := settings.(firstCore := first, activeCores := last + 1 - first);
      EnableRange(first, last, env, extra + {p.value});
      Publish(p, reply, extra);
      return 0;
    }

    method ApiTuning(enable: u32, alg: u32, factor: u32, env: Env, ghost extra: set<nat>) returns (code: int)
      requires Holds(extra)
      modifies this`live, this`next, this`response, this`responseBytes, this`settings
      ensures Holds(extra)
      ensures Served(Abs(), code) == OnTuning(old(Abs()), enable, alg, factor, env)
    {
      hide Holds, Encode, Reply;
      var p := Kmalloc(env.replyAllocated, extra);
      if p.None? {
        return -ENOMEM;
      }
      var clamped := factor;
      if clamped > MAX_AGGR {
        clamped := MAX_AGGR;
      }
      settings := settings.(algorithm := alg, aggr := clamped / 10, running := enable == 1);
      Publish(p, Reply(4, Encode(enable, 4) + Encode(settings.algorithm, 4) + Encode(settings.aggr, 4)), extra);
      return 0;
    }

    method ApiDdrbwSet(bandwidth: u32, env: Env, ghost extra: set<nat>) returns (code: int)
      requires Holds(extra)
      modifies this`live, this`next, this`response, this`responseBytes, this`settings
      ensures Holds(extra)
      ensures Served(Abs(), code) == OnDdrbwSet(old(Abs()), bandwidth, env)
    {
      hide Holds, Encode, Reply;
      var p := Kmalloc(env.replyAllocated, extra);
      if p.None? {
        return -ENOMEM;
      }
      settings := settings.(target := bandwidth);
      Publish(p, Reply(2, Encode(bandwidth, 4)), extra);
      return 0;
    }

    /** Register and counter reads: refused for a core that is off. */
    method ReadCore(core: u32, bytes: seq<byte>, env: Env, ghost extra: set<nat>) returns (code: int)
      requires Holds(extra)
      modifies this`live, this`next, this`response, this`responseBytes
      ensures Holds(extra)
      ensures var v := old(Abs());
        Served(Abs(), code) == if CoreOff(v, core) then Served(v, -EINVAL) else Answer(v, env.replyAllocated, bytes)
    {
      hide Holds;
      if core >= disabled.Length || disabled[core] {
        return -EINVAL;
      }
      code := AnswerWith(env.replyAllocated, bytes, extra);
    }

    method ApiDdrConfig(bar: u64, cpuType: u32, controllers: u32, env: Env, ghost extra: set<nat>)
      returns (code: int)
      requires Holds(extra)
      modifies this`live, this`next, this`response, this`responseBytes, this`ddr
      ensures Holds(extra)
      ensures Served(Abs(), code) == OnDdrConfig(old(Abs()), bar, cpuType, controllers, env)
    {
      hide Holds, Encode, Reply;
      if controllers == 0 || controllers > MAX_CONTROLLERS {
        return -EINVAL;
      }
      var p := Kmalloc(env.replyAllocated, extra);
      if p.None? {
        return -ENOMEM;
      }
      ddr := Ddr(bar, cpuType, controllers, 0);
      if cpuType == DDR_CLIENT || cpuType == DDR_GRR_SRF {
        if !env.ddrMapped {
          Release(p, extra);
          return -EINVAL;
        }
      } else {
        Release(p, extra);
        return -EINVAL;
      }
      ddr := ddr.(mapped := controllers);
      Publish(p, Reply(7, Encode(bar, 8) + Encode(cpuType, 4) + Encode(env.padding, 4)), extra);
      return 0;
    }

    method DropResponse(ghost extra: set<nat>)
      requires Holds(extra)
      modifies this`live, this`response, this`responseBytes
      ensures Holds(extra)
      ensures Abs() == old(Abs()).(reply := None)
    {
      Kfree(response);
      response, responseBytes := None, [];
    }

    method DropLog(ghost extra: set<nat>)
      requires Holds(extra)
      modifies this`live, this`logBlock
      ensures Holds(extra) && logBlock.None?
    {
      if logBlock.Some? {
        Kfree(logBlock);
        logBlock := None;
      }
    }

    method InstallLog(p: Option<nat>, size: u32, ghost extra: set<nat>)
      requires p.Some? && p.value !in extra && Holds(extra + {p.value}) && logBlock.None? && size > 0
      modifies this`logBlock, this`logData, this`logCapacity, this`logSize, this`entries
      ensures Holds(extra) && fresh(logData)
      ensures logBlock == p && logCapacity == size && entries == []
    {
      logBlock, logCapacity, logSize, entries := p, size, 0, [];
      logData := new byte[size](_ => 0);
      assert logData[..0] == EncodeAll([]);
    }

    /** Replaces the log buffer: the old one goes first, whatever becomes of the new one. */
    method RestartLog(size: u32, granted: bool, ghost extra: set<nat>) returns (code: int)
      requires Holds(extra)
      modifies this`live, this`next, this`logBlock, this`logData, this`logCapacity, this`logSize, this`entries
      ensures Holds(extra) && (logData == old(logData) || fresh(logData))
      ensures code == if size == 0 then -EINVAL else if !granted then -ENOMEM else 0
      ensures Abs() == old(Abs()).(log := Log(if code == 0 then Some(Held(size, [])) else None, logging))
    {
      hide Holds, Encode, Reply;
      DropLog(extra);
      if size == 0 {
        return -EINVAL;
      }
      var p := Kmalloc(granted, extra);
      if p.None? {
        return -ENOMEM;
      }
      InstallLog(p, size, extra);
      return 0;
    }

    method ApiLogControl(size: u32, mode: u32, env: Env, ghost extra: set<nat>) returns (code: int)
      requires Holds(extra) && ValidEnv(env, disabled.Length)
      modifies this`live, this`next, this`response, this`responseBytes, this`logging, this`settings,
        this`logBlock, this`logData, this`logCapacity, this`logSize, this`entries
      ensures Holds(extra) && (logData == old(logData) || fresh(logData))
      ensures Served(Abs(), code) == OnLogControlRequest(old(Abs()), size, mode, env)
    {
      hide Holds, Encode, Reply;
      var p := Kmalloc(env.replyAllocated, extra);
      if p.None? {
        return -ENOMEM;
      }
      if mode > 1 {
        Release(p, extra);
        return -EINVAL;
      }
      if logBlock.None? || mode == 0 {
        code := RestartLog(size, env.secondAllocated, extra + {p.value});
        if code < 0 {
          Release(p, extra);
          return;
        }
      }
      FinishControl(mode, p, env, extra);
      return 0;
    }

    method FinishControl(mode: u32, p: Option<nat>, env: Env, ghost extra: set<nat>)
      requires p.Some? && p.value !in extra && Holds(extra + {p.value})
      requires logBlock.Some? && ValidEnv(env, disabled.Length)
      modifies this`live, this`next, this`response, this`responseBytes, this`logging, this`settings
      ensures Holds(extra)
      ensures Abs() == old(Abs()).(log := Log(Some(Held(logCapacity, entries)), true),
        settings := old(settings).(running := true),
        reply := Some(Reply(9, Encode(logCapacity, 4) + Encode(mode, 4) + Encode(0, 4))))
    {
      hide Holds, Encode, Reply;
      if mode == 0 || !logging {
        ConfigureEnabled(env.maskAllocated, extra + {p.value});
      }
      if !settings.running {
        settings := settings.(running := true);
      }
      logging := true;
      Publish(p, Reply(9, Encode(logCapacity, 4) + Encode(mode, 4) + Encode(0, 4)), extra);
    }

    method ApiLogStop(env: Env, ghost extra: set<nat>) returns (code: int)
      requires Holds(extra) && ValidEnv(env, disabled.Length)
      modifies this`live, this`next, this`response, this`responseBytes, this`logging, this`settings
      ensures Holds(extra)
      ensures Served(Abs(), code) == OnLogStopRequest(old(Abs()), env)
    {
      hide Holds, Encode, Reply;
      var p := Kmalloc(env.replyAllocated, extra);
      if p.None? {
        return -ENOMEM;
      }
      if !logging {
        Release(p, extra);
        p := Kmalloc(env.secondAllocated, extra);
        if p.None? {
          return -ENOMEM;
        }
        Publish(p, Reply(10, Encode(U32_SIZE - EINVAL, 4)), extra);
        return -EINVAL;
      }
      logging := false;
      settings := settings.(running := false);
      ConfigureEnabled(env.maskAllocated, extra + {p.value});
      Publish(p, Reply(10, Encode(0, 4)), extra);
      return 0;
    }

    method ApiLogRead(maxBytes: u32, env: Env, ghost extra: set<nat>) returns (code: int)
      requires Holds(extra)
      modifies this`live, this`next, this`response, this`responseBytes
      ensures Holds(extra)
      ensures PmuLog.Valid(old(Abs()).log)
      ensures Served(Abs(), code) == OnLogReadRequest(old(Abs()), maxBytes, env)
    {
      hide EncodeAll, Encode;
      if logBlock.None? || logCapacity == 0 {
        return -ENODATA;
      }
      if logSize == 0 {
        code := AnswerWith(env.replyAllocated, LogReply([]), extra);
        assert EncodeAll(entries)[..0] == [];
        return;
      }
      var n := if maxBytes == 0 then logSize else if maxBytes < logSize then maxBytes else logSize;
      assert logData[..n] == logData[..logSize][..n];
      code := AnswerWith(env.replyAllocated, LogReply(logData[..n]), extra);
    }

    method Dispatch(req: Request, env: Env, ghost extra: set<nat>) returns (code: int)
      requires Holds(extra) && ValidEnv(env, disabled.Length)
      modifies this`live, this`next, this`response, this`responseBytes, this`logging,
        this`logBlock, this`logData, this`logCapacity, this`logSize, this`entries,
        this`settings, this`ddr, disabled
      ensures Holds(extra) && (logData == old(logData) || fresh(logData))
      ensures PmuLog.Valid(old(Abs()).log)
      ensures Served(Abs(), code) == Handle(old(Abs()), req, env)
    {
      LogIsValid(extra);
      hide Encode, EncodeAll, EncodeHalves, EncodeWords, Reply, LogReply, RangeDisabled, ReadBytes;
      hide Holds, Abs, PmuLog.Valid, CoreOff, Answer, OnCoreRange, OnTuning, OnDdrbwSet, OnDdrConfig;
      hide OnLogControlRequest, OnLogStopRequest, OnLogReadRequest;
      match req {
        case Init => code := AnswerWith(env.replyAllocated, Reply(0, Encode(API_VERSION, 4)), extra);
        case CoreRange(first, last) => code := ApiCoreRange(first, last, env, extra);
        case DdrbwSet(bandwidth) => code := ApiDdrbwSet(bandwidth, env, extra);
        case CoreWeight(weights) =>
          code := AnswerWith(env.replyAllocated, Reply(3, Encode(|weights|, 4) + EncodeHalves(weights)), extra);
        case Tuning(enable, alg, factor) => code := ApiTuning(enable, alg, factor, env, extra);
        case MsrRead(core) => code := ReadCore(core, Reply(5, EncodeWords(env.registers)), env, extra);
        case PmuRead(core) => code := ReadCore(core, Reply(6, EncodeWords(env.counters)), env, extra);
        case DdrConfig(bar, cpuType, controllers) => code := ApiDdrConfig(bar, cpuType, controllers, env, extra);
        case DdrBwRead =>
          code := AnswerWith(env.replyAllocated, Reply(8, Encode(env.ddrRead, 8) + Encode(env.ddrWrite, 8)), extra);
        case LogControl(size, mode) => code := ApiLogControl(size, mode, env, extra);
        case LogStop => code := ApiLogStop(env, extra);
        case LogRead(maxBytes) => code := ApiLogRead(maxBytes, env, extra);
        case Unknown(_) => code := -EINVAL;
      }
    }

    /** One write to the channel. On every path the message buffer and the lock are given back. */
    method ProcWrite(count: nat, req: Request, env: Env) returns (code: int)
      requires Valid() && ValidEnv(env, disabled.Length)
      modifies this, logData, disabled
      ensures Valid() && (logData == old(logData) || fresh(logData))
      ensures PmuLog.Valid(old(Abs()).log)
      ensures Served(Abs(), code) == OnWrite(old(Abs()), count, req, env)
    {
      hide Holds, Serve, Abs, PmuLog.Valid;
      LogIsValid({});
      if count < HEADER_SIZE || count > MAX_MSG_SIZE {
        return -EINVAL;
      }
      locked := true;
      DropResponse({});
      code := ServeLocked(count, req, env);
    }

    /** The part of a write that runs under the lock, up to and including its release. */
    method ServeLocked(count: nat, req: Request, env: Env) returns (code: int)
      requires Holds({}) && locked && ValidEnv(env, disabled.Length)
      modifies this, logData, disabled
      ensures Valid() && (logData == old(logData) || fresh(logData))
      ensures PmuLog.Valid(old(Abs()).log)
      ensures Served(Abs(), code) == Serve(old(Abs()), count, req, env)
    {
      hide Holds, Handle, PmuLog.Valid, Abs;
      LogIsValid({});
      if !env.headerCopied {
        locked := false;
        return -EFAULT;
      }
      var message := Kmalloc(env.messageAllocated, {});
      if message.None? {
        locked := false;
        return -ENOMEM;
      }
      assert {} + {message.value} == {message.value};
      code := ServeMessage(message, count, req, env);
    }

    method ServeMessage(message: Option<nat>, count: nat, req: Request, env: Env) returns (code: int)
      requires message.Some? && Holds({message.value}) && locked && ValidEnv(env, disabled.Length)
      requires env.headerCopied && env.messageAllocated
      modifies this, logData, disabled
      ensures Valid() && (logData == old(logData) || fresh(logData))
      ensures PmuLog.Valid(old(Abs()).log)
      ensures Served(Abs(), code) == Serve(old(Abs()), count, req, env)
    {
      hide Holds, Handle, PmuLog.Valid, Abs;
      assert {} + {message.value} == {message.value};
      LogIsValid({message.value});
      if !env.bodyCopied {
        Release(message, {});
        locked := false;
        return -EFAULT;
      }
      code := Dispatch(req, env, {message.value});
      Release(message, {});
      locked := false;
      code := if code < 0 then code else count;
    }

    lemma LogIsValid(extra: set<nat>)
      requires Holds(extra)
      ensures PmuLog.Valid(Abs().log) && |Abs().disabled| == disabled.Length
    {
    }

    /** A read from position `pos`: the rest of the reply, or as much of it as was asked for. */
    method ProcRead(count: nat, pos: nat, copied: bool) returns (code: int, data: seq<byte>, after: nat)
      ensures var all := if response.Some? then responseBytes else [];
        if pos >= |all| then code == 0 && data == [] && after == pos
        else if !copied then code == -EFAULT && data == [] && after == pos
        else (code == |data| && |data| == Smaller(count, |all| - pos)
          && data == all[pos..pos + |data|] && after == pos + |data|)
    {
      if response.None? || |responseBytes| == 0 {
        return 0, [], pos;
      }
      if pos >= |responseBytes| {
        return 0, [], pos;
      }
      var n := if count < |responseBytes| - pos then count else |responseBytes| - pos;
      if !copied {
        return -EFAULT, [], pos;
      }
      return n, responseBytes[pos..pos + n], pos + n;
    }

    // ----- Samples -----

    /** A sample taken by a core's periodic work. */
    method AppendSample(e: Entry) returns (code: int)
      requires Valid() && e.Valid()
      modifies this`logSize, this`entries, logData
      ensures Valid()
      ensures Abs() == old(Abs()).(log := OnAppend(old(Abs()).log, e).log)
      ensures code == OnAppend(old(Abs()).log, e).code
    {
      hide EncodeAll, EncodeEntry;
      if !logging || logBlock.None? || logCapacity == 0 {
        return -EINVAL;
      }
      var bytes := EncodeEntry(e);
      if logSize + |bytes| > logCapacity {
        return -ENOSPC;
      }
      CopyInto(logData, logSize, bytes);
      EncodeAllAppend(entries, [e]);
      EncodeOne(e);
      assert logData[..logSize + |bytes|] == logData[..logSize] + logData[logSize..logSize + |bytes|];
      logSize := logSize + |bytes|;
      entries := entries + [e];
      return 0;
    }

    /** Module unload stops the work and frees what is left: nothing stays allocated or mapped. */
    method Unload()
      requires Valid()
      modifies this
      ensures live == {} && logBlock.None? && !settings.running && ddr.mapped == 0
    {
      settings := settings.(running := false);
      Kfree(response);
      if logBlock.Some? {
        Kfree(logBlock);
        logBlock, logCapacity, logSize, logging := None, 0, 0, false;
      }
      ddr := ddr.(mapped := 0);
    }
  }

  lemma EncodeOne(e: Entry)
    requires e.Valid()
    ensures EncodeAll([e]) == EncodeEntry(e)
  {
    assert [e][1..] == [];
    assert EncodeAll([]) == [];
  }
}
