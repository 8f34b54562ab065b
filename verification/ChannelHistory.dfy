/** What is in force after any run of the channel, from the requests alone: for each setting, the
    latest request that set it. */
module ChannelHistory {
  import opened Words
  import opened LogFormat
  import opened PmuLog
  import opened Channel

  datatype Kind = Target | Algorithm | Range | Controllers

  /** A write that arrives whole and gets a reply buffer. */
  predicate Taken(e: Event) {
    e.Write? && CountOk(e.count) && Received(e.env) && e.env.replyAllocated
  }

  /** The event sets this kind of setting, on a machine with so many cores. A configuration of memory
      controllers does so even if it fails to map them. */
  predicate Sets(e: Event, kind: Kind, cores: nat) {
    Taken(e) &&
    match kind
    case Target => e.req.DdrbwSet?
    case Algorithm => e.req.Tuning?
    case Range => e.req.CoreRange? && e.req.first <= e.req.last < cores
    case Controllers => e.req.DdrConfig? && 1 <= e.req.controllers <= 16
  }

  function Latest(es: seq<Event>, kind: Kind, cores: nat): (r: Option<Event>)
    ensures r.Some? ==> r.value in es && Sets(r.value, kind, cores)
    ensures r.None? ==> forall i :: 0 <= i < |es| ==> !Sets(es[i], kind, cores)
  {
    if es == [] then None
    else if Sets(es[|es| - 1], kind, cores) then Some(es[|es| - 1])
    else Latest(es[..|es| - 1], kind, cores)
  }

  /** The periodic work goes on: the latest of these started it. A tuning request starts or stops it, a
      log that is turned on starts it, and one that is turned off stops it. */
  predicate Working(start: bool, es: seq<Event>) {
    if es == [] then start
    else
      var before, e := es[..|es| - 1], es[|es| - 1];
      if !Taken(e) then Working(start, before)
      else match e.req
        case Tuning(enable, _, _) => enable == 1
        case LogControl(_, _) => TurnsOn(LogOps(before), LogOp(e)[0]) || Working(start, before)
        case LogStop => !TurnedOn(LogOps(before)) && Working(start, before)
        case _ => Working(start, before)
  }

  /** A control request that succeeds. */
  predicate TurnsOn(before: seq<Op>, op: Op)
    requires op.Control?
  {
    op.replyOk && op.mode <= 1 && (Restarts(before, op) ==> Granted(op))
  }

  // ----- One event -----

  /** What one event sets is what it asks for, and the rest stays. */
  ghost predicate Follows(v: View, w: View, e: Event)
    requires ValidEvent(e, |v.disabled|)
  {
    var cores := |v.disabled|;
    && |w.disabled| == cores
    && w.settings.target == (if Sets(e, Target, cores) then e.req.target else v.settings.target)
    && (if Sets(e, Algorithm, cores) then HasAlgorithm(w, e.req)
        else w.settings.algorithm == v.settings.algorithm && w.settings.aggr == v.settings.aggr)
    && (if Sets(e, Range, cores) then HasRange(w, e.req, e.env) else SameRange(v, w))
    && (if Sets(e, Controllers, cores) then HasControllers(w, e.req, e.env) else w.ddr == v.ddr)
  }

  /** The algorithm asked for, with the aggressiveness in tenths, of at most 100. */
  ghost predicate HasAlgorithm(w: View, req: Request)
    requires req.Tuning?
  {
    var asked := Smaller(req.aggr, 100);
    w.settings.algorithm == req.algorithm && 10 * w.settings.aggr <= asked < 10 * w.settings.aggr + 10
  }

  /** Exactly the cores of the range that were online are on. */
  ghost predicate HasRange(w: View, req: Request, env: Env)
    requires req.CoreRange?
  {
    && w.settings.firstCore == req.first && w.settings.firstCore + w.settings.activeCores == req.last + 1
    && |env.online| == |w.disabled|
    && forall c :: 0 <= c < |w.disabled| ==> (!w.disabled[c] <==> req.first <= c <= req.last && env.online[c])
  }

  ghost predicate SameRange(v: View, w: View) {
    && w.disabled == v.disabled && w.settings.firstCore == v.settings.firstCore
    && w.settings.activeCores == v.settings.activeCores
  }

  /** The controllers asked for, all mapped or none. */
  ghost predicate HasControllers(w: View, req: Request, env: Env)
    requires req.DdrConfig?
  {
    && w.ddr.bar == req.bar && w.ddr.cpuType == req.cpuType && w.ddr.controllers == req.controllers
    && w.ddr.mapped == if (req.cpuType == 1 || req.cpuType == 2) && env.ddrMapped then req.controllers else 0
  }

  lemma HandlerSets(v: View, count: nat, req: Request, env: Env)
    requires PmuLog.Valid(v.log) && ValidEnv(env, |v.disabled|) && CountOk(count) && Received(env)
    ensures Follows(v, Handle(v, req, env).view, Write(count, req, env))
  {
    hide Encode, EncodeHalves, EncodeWords, Reply, LogReply, ReadBytes, PmuLog.Valid;
    hide OnControl, OnStop, OnRead;
  }

  lemma EventSets(v: View, e: Event)
    requires PmuLog.Valid(v.log) && ValidEvent(e, |v.disabled|)
    ensures Follows(v, React(v, e), e)
  {
    hide Handle, PmuLog.Valid;
    if e.Write? && CountOk(e.count) && Received(e.env) {
      HandlerSets(v.(reply := None), e.count, e.req, e.env);
    }
  }

  /** Whether the event leaves the periodic work going. */
  lemma EventWorks(v: View, e: Event, before: seq<Op>)
    requires PmuLog.Valid(v.log) && ValidEvent(e, |v.disabled|)
    requires v.log.logging == TurnedOn(before) && v.log.buffer.Some? == HasBuffer(before)
    ensures React(v, e).settings.running ==
      if !Taken(e) then v.settings.running
      else if e.req.Tuning? then e.req.enable == 1
      else if e.req.LogControl? then TurnsOn(before, LogOp(e)[0]) || v.settings.running
      else if e.req.LogStop? then !TurnedOn(before) && v.settings.running
      else v.settings.running
  {
    hide Encode, EncodeHalves, EncodeWords, Reply, LogReply, ReadBytes, PmuLog.Valid, RangeDisabled;
    hide TurnedOn, HasBuffer;
  }

  // ----- Every run -----

  /** What is in force after a run. */
  ghost predicate InForce(v: View, w: View, es: seq<Event>) {
    var cores := |v.disabled|;
    && |w.disabled| == cores
    && (match Latest(es, Target, cores)
        case Some(e) => w.settings.target == e.req.target
        case None => w.settings.target == v.settings.target)
    && (match Latest(es, Algorithm, cores)
        case Some(e) => HasAlgorithm(w, e.req)
        case None => w.settings.algorithm == v.settings.algorithm && w.settings.aggr == v.settings.aggr)
    && (match Latest(es, Range, cores)
        case Some(e) => HasRange(w, e.req, e.env)
        case None => SameRange(v, w))
    && (match Latest(es, Controllers, cores)
        case Some(e) => HasControllers(w, e.req, e.env)
        case None => w.ddr == v.ddr)
  }

  lemma NothingYet(v: View)
    ensures InForce(v, v, [])
  {
  }

  lemma OneMoreEvent(v: View, u: View, w: View, es: seq<Event>)
    requires es != [] && ValidEvent(es[|es| - 1], |v.disabled|)
    requires InForce(v, u, es[..|es| - 1]) && Follows(u, w, es[|es| - 1])
    ensures InForce(v, w, es)
  {
    hide Taken;
  }

  /** After any run of writes and samples, whatever failed in it, each setting is what the latest
      request that set it asked for. */
  lemma {:induction false} LatestRequestIsInForce(v: View, es: seq<Event>)
    requires PmuLog.Valid(v.log) && ValidEvents(es, |v.disabled|)
    ensures InForce(v, After(v, es), es)
  {
    hide React, Follows, InForce, Taken;
    if es != [] {
      var before, e := es[..|es| - 1], es[|es| - 1];
      LatestRequestIsInForce(v, before);
      EventSets(After(v, before), e);
      OneMoreEvent(v, After(v, before), After(v, es), es);
    } else {
      NothingYet(v);
    }
  }

  /** And the periodic work goes on exactly if the latest request that started or stopped it started
      it. */
  lemma {:induction false} WorkFollowsHistory(v: View, es: seq<Event>)
    requires v.log == Log(None, false) && ValidEvents(es, |v.disabled|)
    ensures After(v, es).settings.running == Working(v.settings.running, es)
  {
    hide React, Taken, TurnedOn, HasBuffer, TurnsOn, LogOps, Run;
    if es != [] {
      var before, e := es[..|es| - 1], es[|es| - 1];
      WorkFollowsHistory(v, before);
      RunLogs(v, before);
      LogHoldsFirstOffered(LogOps(before));
      EventWorks(After(v, before), e, LogOps(before));
    }
  }
}
