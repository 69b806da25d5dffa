/**
 What an IPv6 tracepath run does, as a state machine over its visible steps: packets sent,
 queue messages reported, attempts ended and lines printed. It keeps the unbounded send log,
 never the ring. `Tracepath` proves that the program's own steps are the run of this machine.
 */
module TracepathMachine {
  import opened Basics
  import opened SendLogs

  const MAX_PROBES := 3
  const SO_EE_ORIGIN_LOCAL: U8 := 1
  const SO_EE_ORIGIN_ICMP6: U8 := 3
  const ICMPV6_TIME_EXCEED: U8 := 3
  const ICMPV6_EXC_HOPLIMIT: U8 := 0
  const EACCES := 13
  const ENETUNREACH := 101
  const ETIMEDOUT := 110
  const ECONNREFUSED := 111
  const EHOSTUNREACH := 113

  datatype ResponseType = Reached | TimeExceeded | Unreachable

  datatype ErrorInfo = ErrorInfo(errno: nat, origin: U8, errorType: U8, code: U8, hasSource: bool)
  {
    predicate IsLocal() { origin == SO_EE_ORIGIN_LOCAL }

    predicate IsHopLimit() {
      origin == SO_EE_ORIGIN_ICMP6 && errorType == ICMPV6_TIME_EXCEED && code == ICMPV6_EXC_HOPLIMIT
    }

    /** What ends the run when this message is read while waiting for an answer. */
    function Terminal(): Option<ResponseType> {
      if IsLocal() then
        if errno == EHOSTUNREACH || errno == ENETUNREACH || errno == EACCES then Some(Unreachable) else None
      else if errno == ECONNREFUSED then Some(Reached)
      else if errno == EHOSTUNREACH && !IsHopLimit() then Some(Unreachable)
      else None
    }

    /** Whether this message, attributed to the current TTL, counts as that TTL's answer. */
    predicate Counts() {
      || IsLocal()
      || errno == ECONNREFUSED
      || (errno == EHOSTUNREACH && (IsHopLimit() ==> hasSource))
      || (errno == ETIMEDOUT && hasSource)
    }

    /** What ends the run when this message is read while clearing the queue before a send. */
    predicate EndsClearing() { errno == ECONNREFUSED || errno == EHOSTUNREACH }
  }

  datatype Message = Message(info: ErrorInfo, port: U16, recvTime: Instant)

  datatype Stage = Discovery | Clearing | AfterSend | Waiting
  {
    /** The stages that record their messages in the table of answered TTLs. */
    predicate Marks() { Clearing? || Waiting? }
  }

  datatype Outcome = SendFailed | TimedOut | Delayed | Answered(response: ResponseType)
  {
    predicate IsMiss() { SendFailed? || TimedOut? }
  }

  datatype Event =
    | Discover(time: Instant)
    | StartHop(ttl: U8)
    | ProbeSent(port: U16, time: Instant)
    | Poll
    | Reply(stage: Stage, message: Message, ttl: U8, rtt: nat)
    | Ended(outcome: Outcome)
    | NoReply(ttl: U8)
    | TooManyHops
    | Stopped
    | Interrupted

  // ---------------------------------------------------------------- the environment

  /** One pass of the wait loop: the interrupt flag it sees and the messages then in the queue. */
  datatype Round = Round(running: bool, messages: seq<Message>)

  datatype Sending = Failure | Success(time: Instant, immediate: Option<Message>)

  /** `rounds` are the passes of the wait loop before its five seconds are over. */
  datatype Attempt = Attempt(late: seq<Message>, sending: Sending, rounds: seq<Round>)

  /** The discovery packet; a message is read back only when sending it fails. */
  datatype Discovery = Discovery(time: Instant, failed: bool, message: Option<Message>)
  {
    function Heard(): Option<Message> { if failed then message else None }
  }

  /** Everything outside the program: `attempt(t, a)` is what happens at attempt `a` of TTL `t`. */
  datatype Env = Env(base: U16, maxHops: U8, discovery: Discovery, attempt: (nat, nat) -> Attempt)

  // ---------------------------------------------------------------- states and steps

  datatype Phase =
    | Start
    | Discovering(checked: bool)
    | Between
    | InFlight(checked: bool)
    | Draining(terminal: Option<ResponseType>, found: bool, halted: bool)
    | Arrived
    | Stopping
    | Closed
    | Done

  /**
   `sent` counts this hop's probes, `polls` this attempt's rounds and `read` the messages read
   since the attempt or the round began. `reach` is the TTL of the last reply from the target.
   */
  datatype View = View(
    log: SendLog,
    hops: U8,
    marked: set<U8>,
    tries: seq<Outcome>,
    sent: nat,
    polls: nat,
    read: nat,
    resolved: bool,
    reach: Option<U8>,
    phase: Phase)
  {
    function Now(env: Env): Attempt { env.attempt(hops, |tries|) }

    /** The queue of the round being drained. */
    function Queue(env: Env): seq<Message> {
      if 1 <= polls <= |Now(env).rounds| then Now(env).rounds[polls - 1].messages else []
    }
  }

  function Init(env: Env): View {
    View(SendLog(env.base, 1, [], {}, None, None), 0, {}, [], 0, 0, 0, false, None, Start)
  }

  function Answer(v: View, stage: Stage, m: Message): Event {
    var a := v.log.Lookup(m.port, m.recvTime);
    Reply(stage, m, a.ttl, a.rtt)
  }

  function Advance(env: Env, v: View): Event {
    if v.hops < env.maxHops then StartHop(v.hops + 1) else TooManyHops
  }

  /** No verdict yet: poll again unless the time is over or the user has interrupted. */
  function Wait(env: Env, v: View): Event {
    if v.polls >= |v.Now(env).rounds| then Ended(TimedOut)
    else if v.Now(env).rounds[v.polls].running then Poll
    else Interrupted
  }

  predicate MayTry(v: View) {
    v.phase.Between? && !v.resolved && |v.tries| < MAX_PROBES
  }

  /** An attempt first clears the queue, then sends. */
  function Try(env: Env, v: View): Event {
    var now := v.Now(env);
    if v.read < |now.late| then Answer(v, Clearing, now.late[v.read])
    else match now.sending
      case Failure => Ended(SendFailed)
      case Success(time, _) => ProbeSent(v.log.PortOf(|v.log.probes|), time)
  }

  function Next(env: Env, v: View): Option<Event> {
    match v.phase
    case Start => Some(Discover(env.discovery.time))
    case Discovering(checked) =>
      if !checked && env.discovery.Heard().Some?
      then Some(Answer(v, Stage.Discovery, env.discovery.Heard().value))
      else Some(Advance(env, v))
    case Between =>
      if MayTry(v) then Some(Try(env, v))
      else if v.hops in v.marked then Some(Advance(env, v))
      else Some(NoReply(v.hops))
    case InFlight(checked) =>
      var sending := v.Now(env).sending;
      if !checked && sending.Success? && sending.immediate.Some?
      then Some(Answer(v, AfterSend, sending.immediate.value))
      else Some(Wait(env, v))
    case Draining(terminal, found, halted) =>
      if !halted && v.read < |v.Queue(env)| then Some(Answer(v, Waiting, v.Queue(env)[v.read]))
      else if terminal.Some? then Some(Ended(Answered(terminal.value)))
      else if found then Some(Ended(Answered(TimeExceeded)))
      else if v.hops in v.marked then Some(Ended(Delayed))
      else Some(Wait(env, v))
    case Arrived => Some(Ended(Answered(Reached)))
    case Stopping => Some(Stopped)
    case Closed => Some(Advance(env, v))
    case Done => None
  }

  function AfterReply(v: View, stage: Stage, info: ErrorInfo, ttl: U8): Phase {
    match stage
    case Discovery => Discovering(true)
    case Clearing => if info.EndsClearing() then Stopping else v.phase
    case AfterSend => if !info.IsLocal() && info.errno == ECONNREFUSED then Arrived else InFlight(true)
    case Waiting =>
      if v.phase.Draining? then
        var terminal := if info.Terminal().Some? then info.Terminal() else v.phase.terminal;
        Draining(terminal, v.phase.found || (info.Counts() && ttl == v.log.ttl), info.IsLocal() && terminal.Some?)
      else v.phase
  }

  predicate Reaches(stage: Stage, info: ErrorInfo) {
    (stage.AfterSend? || stage.Waiting?) && !info.IsLocal() && info.errno == ECONNREFUSED
  }

  function AfterEnd(o: Outcome): Phase {
    if o.Answered? && !o.response.TimeExceeded? then Stopping else Between
  }

  function Apply(v: View, e: Event): View {
    match e
    case Discover(t) =>
      v.(log := v.log.(ttl := 1, pmtu := Some(t), lastSend := Some(t)), phase := Discovering(false))
    case StartHop(t) =>
      v.(log := v.log.(ttl := t), hops := t, tries := [], sent := 0, polls := 0, read := 0,
         resolved := false, phase := Between)
    case ProbeSent(_, t) =>
      v.(log := v.log.Record(t), sent := v.sent + 1, read := 0, phase := InFlight(false))
    case Poll => v.(polls := v.polls + 1, read := 0, phase := Draining(None, false, false))
    case Reply(stage, m, ttl, _) =>
      v.(log := v.log.Lookup(m.port, m.recvTime).log,
         read := v.read + 1,
         marked := if stage.Marks() then v.marked + {ttl} else v.marked,
         reach := if Reaches(stage, m.info) then Some(ttl) else v.reach,
         phase := AfterReply(v, stage, m.info, ttl))
    case Ended(o) =>
      v.(tries := v.tries + [o], polls := 0, read := 0,
         resolved := !o.SendFailed? && (o.TimedOut? ==> v.hops in v.marked),
         phase := AfterEnd(o))
    case NoReply(_) => v.(phase := Closed)
    case TooManyHops => v.(phase := Done)
    case Stopped => v.(phase := Done)
    case Interrupted => v.(phase := Done)
  }

  /** `views[i]` is the state before event number i. */
  ghost predicate IsRun(env: Env, trace: seq<Event>, views: seq<View>) {
    && |views| == |trace| + 1
    && views[0] == Init(env)
    && forall i {:trigger trace[i]} | 0 <= i < |trace| ::
         Next(env, views[i]) == Some(trace[i]) && views[i + 1] == Apply(views[i], trace[i])
  }

  /** A finished run is the only finished run of its environment. */
  lemma {:induction false} SameViews(env: Env, s: seq<Event>, sv: seq<View>, t: seq<Event>, tv: seq<View>, i: nat)
    requires IsRun(env, s, sv) && IsRun(env, t, tv) && i <= |s| && i <= |t|
    ensures sv[i] == tv[i]
    ensures forall j | 0 <= j < i :: s[j] == t[j]
  {
    if i > 0 {
      SameViews(env, s, sv, t, tv, i - 1);
      assert Some(s[i - 1]) == Some(t[i - 1]);
    }
  }

  lemma NotDoneYet(env: Env, trace: seq<Event>, views: seq<View>, i: nat)
    requires IsRun(env, trace, views) && i < |trace|
    ensures !views[i].phase.Done?
  {
    assert Next(env, views[i]) == Some(trace[i]);
  }

  lemma Deterministic(env: Env, s: seq<Event>, sv: seq<View>, t: seq<Event>, tv: seq<View>)
    requires IsRun(env, s, sv) && sv[|s|].phase.Done?
    requires IsRun(env, t, tv) && tv[|t|].phase.Done?
    ensures s == t && sv == tv
  {
    var n := if |s| <= |t| then |s| else |t|;
    SameViews(env, s, sv, t, tv, n);
    if n < |s| { NotDoneYet(env, s, sv, n); }
    if n < |t| { NotDoneYet(env, t, tv, n); }
    forall i | 0 <= i <= n ensures sv[i] == tv[i] { SameViews(env, s, sv, t, tv, i); }
  }

  /** The events of a finished run. */
  ghost predicate IsOutput(env: Env, trace: seq<Event>) {
    exists views: seq<View> :: IsRun(env, trace, views) && views[|trace|].phase.Done?
  }

  /** An environment leaves no choice: two finished runs show the same events. */
  lemma OutputIsUnique(env: Env, s: seq<Event>, t: seq<Event>)
    requires IsOutput(env, s) && IsOutput(env, t)
    ensures s == t
  {
    var sv: seq<View> :| IsRun(env, s, sv) && sv[|s|].phase.Done?;
    var tv: seq<View> :| IsRun(env, t, tv) && tv[|t|].phase.Done?;
    Deterministic(env, s, sv, t, tv);
  }

  // ---------------------------------------------------------------- the invariant

  ghost predicate InRange(p: seq<Probe>, hops: nat) {
    forall i | 0 <= i < |p| :: 1 <= p[i].ttl <= hops
  }

  ghost predicate Sorted(p: seq<Probe>) {
    forall i, j | 0 <= i < j < |p| :: p[i].ttl <= p[j].ttl
  }

  ghost predicate AtMostThree(p: seq<Probe>) {
    forall i, j | 0 <= i < |p| && j == i + MAX_PROBES && j < |p| :: p[i].ttl < p[j].ttl
  }

  /** The first n probes went out for earlier hops. */
  ghost predicate Earlier(p: seq<Probe>, n: nat, hops: nat)
    requires n <= |p|
  {
    forall i | 0 <= i < n :: p[i].ttl < hops
  }

  /** Probe TTLs never decrease and no TTL is sent more than three times. */
  ghost predicate Paced(v: View) {
    var p := v.log.probes;
    InRange(p, v.hops) && Sorted(p) && AtMostThree(p) && v.sent <= |p| && Earlier(p, |p| - v.sent, v.hops)
  }

  predicate Busy(phase: Phase) {
    phase.InFlight? || phase.Draining? || phase.Arrived?
  }

  ghost predicate Inv(v: View) {
    && v.log.WellFormed()
    && Paced(v)
    && |v.tries| + (if Busy(v.phase) then 1 else 0) <= MAX_PROBES
    && v.sent <= |v.tries| + (if Busy(v.phase) || v.phase.Done? then 1 else 0)
    && v.log.ttl == (if v.hops == 0 then 1 else v.hops)
    && (v.phase.Start? || v.phase.Discovering? ==> v.hops == 0)
    && (v.hops == 0 ==> v.phase.Start? || v.phase.Discovering? || v.phase.Done?)
    && (forall t | t in v.marked :: 1 <= t <= v.hops)
    && (v.log.pmtu.Some? || v.hops == 0 ==> v.log.probes == [])
    && (v.phase.Between? && v.resolved ==> v.hops in v.marked)
    && (v.phase.Draining? && v.phase.found ==> v.hops in v.marked)
    && (v.phase.Draining? && v.phase.halted ==> v.phase.terminal.Some?)
    && (v.phase.Draining? ==> v.phase.terminal != Some(TimeExceeded))
    && (v.phase.Closed? ==> v.hops !in v.marked)
    && ((v.phase.Between? && !v.resolved) || Busy(v.phase) ==> forall o | o in v.tries :: o.IsMiss())
  }

  lemma InRangeSnoc(p: seq<Probe>, q: Probe, hops: nat)
    requires InRange(p, hops) && 1 <= q.ttl <= hops
    ensures InRange(p + [q], hops)
  {
  }

  lemma SortedSnoc(p: seq<Probe>, q: Probe)
    requires InRange(p, q.ttl) && Sorted(p)
    ensures Sorted(p + [q])
  {
  }

  /** A fourth probe of the same TTL would need three of this hop before it. */
  lemma AtMostThreeSnoc(p: seq<Probe>, q: Probe, sent: nat)
    requires AtMostThree(p) && sent <= |p| && sent < MAX_PROBES && Earlier(p, |p| - sent, q.ttl)
    ensures AtMostThree(p + [q])
  {
    forall i, j | 0 <= i < |p| + 1 && j == i + MAX_PROBES && j < |p| + 1
      ensures (p + [q])[i].ttl < (p + [q])[j].ttl
    {
      if j == |p| { assert i < |p| - sent; }
    }
  }

  lemma EarlierSnoc(p: seq<Probe>, q: Probe, n: nat, hops: nat)
    requires n <= |p| && Earlier(p, n, hops)
    ensures Earlier(p + [q], n, hops)
  {
  }

  lemma PacedAfterSend(v: View, time: Instant)
    requires Paced(v) && MayTry(v) && v.log.ttl == v.hops >= 1 && v.sent <= |v.tries|
    ensures Paced(Apply(v, ProbeSent(v.log.PortOf(|v.log.probes|), time)))
  {
    var p, q := v.log.probes, Probe(v.log.ttl, v.log.PortOf(|v.log.probes|), time);
    InRangeSnoc(p, q, v.hops);
    SortedSnoc(p, q);
    AtMostThreeSnoc(p, q, v.sent);
    EarlierSnoc(p, q, |p| - v.sent, v.hops);
    var w := Apply(v, ProbeSent(q.port, time));
    assert w.log.probes == p + [q];
  }

  lemma InvAfterSend(v: View, time: Instant)
    requires Inv(v) && MayTry(v)
    ensures Inv(Apply(v, ProbeSent(v.log.PortOf(|v.log.probes|), time)))
  {
    PacedAfterSend(v, time);
    var w := Apply(v, ProbeSent(v.log.PortOf(|v.log.probes|), time));
    assert w.log.WellFormed() by {
      forall k | 0 <= k < |w.log.probes|
        ensures w.log.probes[k].port == w.log.PortOf(k)
      {
        if k < |v.log.probes| { assert w.log.probes[k] == v.log.probes[k]; }
      }
    }
  }

  /** Where each kind of message is read. */
  predicate Reads(v: View, stage: Stage) {
    match stage
    case Discovery => v.phase.Discovering?
    case Clearing => MayTry(v)
    case AfterSend => v.phase.InFlight?
    case Waiting => v.phase.Draining? && !v.phase.halted
  }

  lemma LookupFacts(v: View, m: Message)
    requires Inv(v)
    ensures var a := v.log.Lookup(m.port, m.recvTime);
            && a.log.WellFormed() && a.log.probes == v.log.probes && a.log.ttl == v.log.ttl
            && (a.log.pmtu.Some? ==> v.log.pmtu.Some?)
            && 1 <= a.ttl && (v.hops > 0 ==> a.ttl <= v.hops)
  {
  }

  lemma InvAfterReply(v: View, stage: Stage, m: Message)
    requires Inv(v) && Reads(v, stage)
    ensures Inv(Apply(v, Answer(v, stage, m)))
  {
    var w := Apply(v, Answer(v, stage, m));
    LookupFacts(v, m);
    assert w.log.probes == v.log.probes && Paced(w);
    forall t | t in w.marked ensures 1 <= t <= w.hops { MarkStep(v, Answer(v, stage, m), t); }
  }

  lemma InvAfterEnd(env: Env, v: View, o: Outcome)
    requires Inv(v) && Next(env, v) == Some(Ended(o))
    ensures Inv(Apply(v, Ended(o)))
  {
    var w := Apply(v, Ended(o));
    assert w.log == v.log && Paced(w);
  }

  lemma InvAfterHop(v: View)
    requires Inv(v) && (v.phase.Closed? || v.phase.Discovering? || (v.phase.Between? && v.hops in v.marked))
    requires v.hops < 0xFF
    ensures Inv(Apply(v, StartHop(v.hops + 1)))
  {
    var w := Apply(v, StartHop(v.hops + 1));
    assert w.log.probes == v.log.probes && Paced(w);
  }

  lemma InvAfterOther(v: View, e: Event)
    requires Inv(v)
    requires match e
             case Discover(_) => v.phase.Start?
             case Poll => v.phase.InFlight? || v.phase.Draining?
             case NoReply(_) => v.phase.Between? && v.hops !in v.marked
             case TooManyHops | Stopped => !Busy(v.phase)
             case Interrupted => true
             case _ => false
    ensures Inv(Apply(v, e))
  {
    assert Apply(v, e).log.probes == v.log.probes && Paced(Apply(v, e));
  }

  /** What each kind of step takes for granted. */
  lemma StepGuards(env: Env, v: View, e: Event)
    requires Next(env, v) == Some(e)
    ensures match e
            case Discover(_) => v.phase.Start?
            case StartHop(t) =>
              && t == v.hops + 1 && v.hops < env.maxHops
              && (v.phase.Closed? || v.phase.Discovering? || (v.phase.Between? && v.hops in v.marked))
            case ProbeSent(port, _) => MayTry(v) && port == v.log.PortOf(|v.log.probes|)
            case Poll => v.phase.InFlight? || v.phase.Draining?
            case Reply(stage, m, _, _) => Reads(v, stage) && e == Answer(v, stage, m)
            case NoReply(t) => v.phase.Between? && !MayTry(v) && t == v.hops && t !in v.marked
            case TooManyHops | Stopped => !Busy(v.phase)
            case Interrupted | Ended(_) => true
  {
  }

  lemma InvStep(env: Env, v: View, e: Event)
    requires Inv(v) && Next(env, v) == Some(e)
    ensures Inv(Apply(v, e))
  {
    StepGuards(env, v, e);
    match e
    case ProbeSent(_, time) => InvAfterSend(v, time);
    case Reply(stage, m, _, _) => InvAfterReply(v, stage, m);
    case Ended(o) => InvAfterEnd(env, v, o);
    case StartHop(_) => InvAfterHop(v);
    case _ => InvAfterOther(v, e);
  }

  lemma BoundsStep(env: Env, v: View, e: Event)
    requires Next(env, v) == Some(e) && v.hops <= env.maxHops
    ensures Apply(v, e).log.base == v.log.base && Apply(v, e).hops <= env.maxHops
    ensures Apply(v, e).tries ==
            (if e.StartHop? then [] else if e.Ended? then v.tries + [e.outcome] else v.tries)
  {
    StepGuards(env, v, e);
  }

  lemma StepAt(env: Env, trace: seq<Event>, views: seq<View>, i: nat)
    requires IsRun(env, trace, views) && i < |trace|
    ensures Next(env, views[i]) == Some(trace[i]) && views[i + 1] == Apply(views[i], trace[i])
  {
    var e := trace[i];
  }

  lemma {:induction false} InvAlways(env: Env, trace: seq<Event>, views: seq<View>, i: nat)
    requires IsRun(env, trace, views) && i <= |trace|
    ensures Inv(views[i])
    ensures views[i].log.base == env.base && views[i].hops <= env.maxHops
  {
    if i > 0 {
      InvAlways(env, trace, views, i - 1);
      StepAt(env, trace, views, i - 1);
      InvStep(env, views[i - 1], trace[i - 1]);
      BoundsStep(env, views[i - 1], trace[i - 1]);
    }
  }

  // ---------------------------------------------------------------- the theorems

  lemma {:induction false} TtlClimbs(v: View, k: nat, m: nat)
    requires Paced(v) && k + MAX_PROBES * m < |v.log.probes|
    ensures v.log.probes[k].ttl + m <= v.log.probes[k + MAX_PROBES * m].ttl
  {
    if m > 0 {
      TtlClimbs(v, k, m - 1);
      assert k + MAX_PROBES * m == k + MAX_PROBES * (m - 1) + MAX_PROBES;
    }
  }

  /** From the first probe of TTL t up to the end of TTL t + d at most 3(d + 1) probes go out. */
  lemma ProbesSince(v: View, k: nat)
    requires Paced(v) && k < |v.log.probes|
    ensures |v.log.probes| - k <= MAX_PROBES * (v.hops - v.log.probes[k].ttl + 1)
  {
    TtlClimbs(v, k, (|v.log.probes| - 1 - k) / MAX_PROBES);
  }

  /**
   The late-reply window. A reply to an unanswered probe of TTL t that is read while the current
   TTL is at most t + 20 is reported with TTL t and with that probe's own round-trip time.
   */
  lemma LateReplyWindow(env: Env, trace: seq<Event>, views: seq<View>, i: nat, k: nat)
    requires IsRun(env, trace, views) && 0 < env.base <= 65472
    requires i < |trace| && trace[i].Reply?
    requires k < |views[i].log.probes| && k !in views[i].log.answered
    requires trace[i].message.port == views[i].log.probes[k].port
    requires views[i].log.ttl <= views[i].log.probes[k].ttl + 20
    ensures trace[i].ttl == views[i].log.probes[k].ttl
    ensures trace[i].rtt == Since(views[i].log.probes[k].time, trace[i].message.recvTime)
    ensures views[i + 1].log.answered == views[i].log.answered + {k}
  {
    InvAlways(env, trace, views, i);
    ProbesSince(views[i], k);
    AttributedIffRecent(views[i].log, k, trace[i].message.recvTime);
    assert Next(env, views[i]) == Some(trace[i]);
  }

  /** A queue message read while clearing or waiting and attributed to TTL t. */
  predicate Drains(e: Event, t: U8) {
    e.Reply? && (e.stage.Clearing? || e.stage.Waiting?) && e.ttl == t
  }

  lemma MarkStep(v: View, e: Event, t: U8)
    ensures t in Apply(v, e).marked <==> t in v.marked || Drains(e, t)
  {
  }

  /** One of the first i events drains a message attributed to TTL t. */
  ghost predicate DrainedBefore(trace: seq<Event>, i: nat, t: U8)
    requires i <= |trace|
  {
    exists j :: 0 <= j < i && Drains(trace[j], t)
  }

  lemma DrainedSnoc(trace: seq<Event>, i: nat, t: U8)
    requires 0 < i <= |trace|
    ensures DrainedBefore(trace, i, t) <==> DrainedBefore(trace, i - 1, t) || Drains(trace[i - 1], t)
  {
  }

  /** The table of answered TTLs holds exactly the TTLs of the replies read while clearing or waiting. */
  lemma {:induction false} MarkedIffDrained(env: Env, trace: seq<Event>, views: seq<View>, i: nat, t: U8)
    requires IsRun(env, trace, views) && i <= |trace|
    ensures t in views[i].marked <==> DrainedBefore(trace, i, t)
  {
    if i > 0 {
      MarkedIffDrained(env, trace, views, i - 1, t);
      StepAt(env, trace, views, i - 1);
      MarkStep(views[i - 1], trace[i - 1], t);
      DrainedSnoc(trace, i, t);
    }
  }

  /** How the attempts since the last hop started have ended, read off the trace. */
  function EndedThisHop(trace: seq<Event>, i: nat): seq<Outcome>
    requires i <= |trace|
  {
    if i == 0 || trace[i - 1].StartHop? then []
    else if trace[i - 1].Ended? then EndedThisHop(trace, i - 1) + [trace[i - 1].outcome]
    else EndedThisHop(trace, i - 1)
  }

  /** What a step does to the list of ended attempts. */
  function TriesAfter(tries: seq<Outcome>, e: Event): seq<Outcome> {
    match e
    case StartHop(_) => []
    case Ended(o) => tries + [o]
    case _ => tries
  }

  ghost predicate TriesFollow(trace: seq<Event>, tries: seq<seq<Outcome>>) {
    && |tries| == |trace| + 1 && tries[0] == []
    && forall i {:trigger tries[i + 1]} | 0 <= i < |trace| :: tries[i + 1] == TriesAfter(tries[i], trace[i])
  }

  lemma {:induction false} TriesAreEnded(trace: seq<Event>, tries: seq<seq<Outcome>>, i: nat)
    requires TriesFollow(trace, tries) && i <= |trace|
    ensures tries[i] == EndedThisHop(trace, i)
  {
    if i > 0 {
      TriesAreEnded(trace, tries, i - 1);
      var j := i - 1;
      assert tries[j + 1] == TriesAfter(tries[j], trace[j]);
    }
  }

  lemma TriesStep(env: Env, trace: seq<Event>, views: seq<View>, i: nat)
    requires IsRun(env, trace, views) && i < |trace|
    ensures views[i + 1].tries == TriesAfter(views[i].tries, trace[i])
  {
    InvAlways(env, trace, views, i);
    StepAt(env, trace, views, i);
    BoundsStep(env, views[i], trace[i]);
  }

  lemma {:induction false} TriesAreThisHop(env: Env, trace: seq<Event>, views: seq<View>, i: nat)
    requires IsRun(env, trace, views) && i <= |trace|
    ensures views[i].tries == EndedThisHop(trace, i)
  {
    var tries := seq(|views|, (j: nat) requires j < |views| => views[j].tries);
    forall j: nat | j < |trace| ensures tries[j + 1] == TriesAfter(tries[j], trace[j]) {
      TriesStep(env, trace, views, j);
    }
    TriesAreEnded(trace, tries, i);
  }

  /**
   Soundness of "no reply": the line for TTL t comes after exactly three attempts at t, each of
   which failed to send or timed out, and after no clearing or waiting step reported t.
   */
  lemma {:induction false} NoReplyIsSound(env: Env, trace: seq<Event>, views: seq<View>, i: nat)
    requires IsRun(env, trace, views) && i < |trace| && trace[i].NoReply?
    ensures trace[i].ttl == views[i].hops
    ensures |EndedThisHop(trace, i)| == MAX_PROBES
    ensures forall o | o in EndedThisHop(trace, i) :: o.IsMiss()
    ensures forall j | 0 <= j < i :: !Drains(trace[j], trace[i].ttl)
  {
    InvAlways(env, trace, views, i);
    TriesAreThisHop(env, trace, views, i);
    MarkedIffDrained(env, trace, views, i, trace[i].ttl);
    assert Next(env, views[i]) == Some(trace[i]);
  }

  /** A timed-out wait that polled at all has left its TTL unmarked, with the last queue read to its end. */
  lemma TimedOutIsSound(env: Env, trace: seq<Event>, views: seq<View>, i: nat)
    requires IsRun(env, trace, views) && i < |trace| && trace[i] == Ended(TimedOut)
    requires views[i].phase.Draining?
    ensures views[i].hops !in views[i].marked
    ensures views[i].read >= |views[i].Queue(env)| && views[i].polls >= |views[i].Now(env).rounds|
  {
    InvAlways(env, trace, views, i);
    assert Next(env, views[i]) == Some(trace[i]);
  }

  /**
   Completeness of "no reply": when the run moves past TTL t, the line for t has just been
   printed if and only if no clearing or waiting step has reported t.
   */
  lemma NoReplyIffUnmarked(env: Env, trace: seq<Event>, views: seq<View>, i: nat)
    requires IsRun(env, trace, views) && i < |trace|
    requires trace[i].StartHop? || trace[i].TooManyHops?
    requires views[i].hops >= 1
    ensures i >= 1 && (trace[i - 1] == NoReply(views[i].hops) <==> views[i].hops !in views[i].marked)
  {
    InvAlways(env, trace, views, i);
    StepGuards(env, views[i], trace[i]);
    if i > 0 {
      StepAt(env, trace, views, i - 1);
      StepGuards(env, views[i - 1], trace[i - 1]);
      ClosedByNoReply(env, views[i - 1], trace[i - 1]);
    }
  }

  /** Only the line closes a hop. */
  lemma ClosedByNoReply(env: Env, v: View, e: Event)
    requires Next(env, v) == Some(e)
    ensures Apply(v, e).phase.Closed? <==> e == NoReply(v.hops)
    ensures e == NoReply(v.hops) ==> v.hops !in v.marked && Apply(v, e).hops == v.hops && Apply(v, e).marked == v.marked
  {
  }

  /** Marks only grow, and only for TTLs already probed: 1 up to the current one. */
  lemma {:induction false} MarksGrow(env: Env, trace: seq<Event>, views: seq<View>, i: nat, j: nat)
    requires IsRun(env, trace, views) && i <= j <= |trace|
    ensures views[i].marked <= views[j].marked
    ensures forall t | t in views[j].marked :: 1 <= t <= views[j].hops
  {
    InvAlways(env, trace, views, j);
    if i < j {
      MarksGrow(env, trace, views, i, j - 1);
      assert views[j] == Apply(views[j - 1], trace[j - 1]);
    }
  }

  /** Probe number k leaves from port base + (k mod 64) and no run sends more than three probes a hop. */
  lemma ProbePortsAndCount(env: Env, trace: seq<Event>, views: seq<View>, i: nat, k: nat)
    requires IsRun(env, trace, views) && i <= |trace| && env.base <= 65472
    ensures |views[i].log.probes| <= MAX_PROBES * views[i].hops <= MAX_PROBES * env.maxHops
    ensures k < |views[i].log.probes| ==> views[i].log.probes[k].port == env.base + k % HIS_ARRAY_SIZE
  {
    InvAlways(env, trace, views, i);
    PortsFitIff(views[i].log);
    if |views[i].log.probes| > 0 { ProbesSince(views[i], 0); }
  }

  // ---------------------------------------------------------------- what ends a run

  /** The target itself has answered: its port is closed. */
  predicate IsTargetAnswer(e: Event) {
    && e.Reply? && (e.stage.AfterSend? || e.stage.Waiting?)
    && e.message.info.origin != SO_EE_ORIGIN_LOCAL && e.message.info.errno == ECONNREFUSED
  }

  /** The wait is told that there is no way: by the host itself, or by an error that is not a hop limit. */
  predicate SaysUnreachable(e: Event) {
    && e.Reply? && e.stage.Waiting?
    && var m := e.message.info;
       || (m.origin == SO_EE_ORIGIN_LOCAL && (m.errno == EHOSTUNREACH || m.errno == ENETUNREACH || m.errno == EACCES))
       || (m.origin != SO_EE_ORIGIN_LOCAL && m.errno == EHOSTUNREACH
           && !(m.origin == SO_EE_ORIGIN_ICMP6 && m.errorType == ICMPV6_TIME_EXCEED && m.code == ICMPV6_EXC_HOPLIMIT))
  }

  /** Found while clearing the queue, any refused connection or unreachable host ends the run. */
  predicate EndsWhileClearing(e: Event) {
    e.Reply? && e.stage.Clearing? && (e.message.info.errno == ECONNREFUSED || e.message.info.errno == EHOSTUNREACH)
  }

  predicate Decisive(e: Event) {
    IsTargetAnswer(e) || SaysUnreachable(e) || EndsWhileClearing(e)
  }

  /** The end of the run is settled. */
  predicate Doomed(v: View) {
    || v.phase.Arrived? || v.phase.Stopping?
    || (v.phase.Draining? && v.phase.terminal.Some? && v.phase.terminal != Some(TimeExceeded))
  }

  /** A run is settled by decisive messages, and by nothing else. */
  lemma DoomedStep(env: Env, v: View, e: Event)
    requires Inv(v) && Next(env, v) == Some(e)
    ensures Decisive(e) ==> Doomed(Apply(v, e))
    ensures Doomed(Apply(v, e)) ==> Doomed(v) || Decisive(e)
    ensures Doomed(v) ==>
              && (e.Reply? || e.Ended? || e.Stopped?)
              && (if e.Stopped? then Apply(v, e).phase.Done? else Doomed(Apply(v, e)))
    ensures e.Stopped? ==> Doomed(v)
  {
    StepGuards(env, v, e);
  }

  /** Settled, or already stopped. */
  ghost predicate DoomedBy(trace: seq<Event>, views: seq<View>, j: nat)
    requires 0 < j <= |trace| && |views| == |trace| + 1
  {
    Doomed(views[j]) || (views[j].phase.Done? && trace[j - 1].Stopped?)
  }

  lemma DoomedNext(env: Env, trace: seq<Event>, views: seq<View>, j: nat)
    requires IsRun(env, trace, views) && j < |trace|
    ensures Decisive(trace[j]) ==> DoomedBy(trace, views, j + 1)
    ensures j > 0 && DoomedBy(trace, views, j) ==> DoomedBy(trace, views, j + 1)
  {
    StepAt(env, trace, views, j);
    InvAlways(env, trace, views, j);
    DoomedStep(env, views[j], trace[j]);
  }

  /** Marks that each event may set, and that stay set. */
  ghost predicate SetFrom(trace: seq<Event>, flags: seq<bool>) {
    && |flags| == |trace| + 1
    && forall i {:trigger flags[i + 1]} | 0 <= i < |trace| :: Decisive(trace[i]) || flags[i] ==> flags[i + 1]
  }

  lemma {:induction false} StaysSet(trace: seq<Event>, flags: seq<bool>, i: nat, j: nat)
    requires SetFrom(trace, flags) && i < j <= |trace| && Decisive(trace[i])
    ensures flags[j]
  {
    var k := j - 1;
    if i < k { StaysSet(trace, flags, i, k); }
    assert Decisive(trace[k]) || flags[k] ==> flags[k + 1];
  }

  lemma {:induction false} DoomedFrom(env: Env, trace: seq<Event>, views: seq<View>, i: nat, j: nat)
    requires IsRun(env, trace, views) && i < j <= |trace| && Decisive(trace[i])
    ensures DoomedBy(trace, views, j)
  {
    var settled := seq(|views|, (k: nat) requires k < |views| => 0 < k <= |trace| && DoomedBy(trace, views, k));
    forall k: nat | k < |trace| ensures Decisive(trace[k]) || settled[k] ==> settled[k + 1] {
      DoomedNext(env, trace, views, k);
    }
    StaysSet(trace, settled, i, j);
  }

  /**
   Once the target has answered, or the way is known to be closed, nothing is sent or printed as a
   new hop any more: only what is left in the queue is read, and the run stops.
   */
  lemma NothingAfterDecision(env: Env, trace: seq<Event>, views: seq<View>, i: nat, j: nat)
    requires IsRun(env, trace, views) && i < j < |trace| && Decisive(trace[i])
    ensures trace[j].Reply? || trace[j].Ended? || trace[j].Stopped?
  {
    DoomedFrom(env, trace, views, i, j);
    StepAt(env, trace, views, j);
    InvAlways(env, trace, views, j);
    DoomedStep(env, views[j], trace[j]);
  }

  ghost predicate DecidedBefore(trace: seq<Event>, i: nat)
    requires i <= |trace|
  {
    exists j :: 0 <= j < i && Decisive(trace[j])
  }

  lemma DecidedSnoc(trace: seq<Event>, i: nat)
    requires 0 < i <= |trace|
    ensures DecidedBefore(trace, i) <==> DecidedBefore(trace, i - 1) || Decisive(trace[i - 1])
  {
  }

  lemma {:induction false} DoomedWasDecided(env: Env, trace: seq<Event>, views: seq<View>, i: nat)
    requires IsRun(env, trace, views) && i <= |trace| && Doomed(views[i])
    ensures DecidedBefore(trace, i)
  {
    if i > 0 {
      StepAt(env, trace, views, i - 1);
      InvAlways(env, trace, views, i - 1);
      DoomedStep(env, views[i - 1], trace[i - 1]);
      DecidedSnoc(trace, i);
      if Doomed(views[i - 1]) { DoomedWasDecided(env, trace, views, i - 1); }
    }
  }

  /** A finished run has stopped, instead of running out of hops or being interrupted, if and only if it read a decisive message. */
  lemma StoppedIffDecided(env: Env, trace: seq<Event>, views: seq<View>)
    requires IsRun(env, trace, views) && views[|trace|].phase.Done?
    ensures |trace| > 0 && (trace[|trace| - 1].Stopped? <==> DecidedBefore(trace, |trace|))
  {
    var n := |trace| - 1;
    StepAt(env, trace, views, n);
    InvAlways(env, trace, views, n);
    DoomedStep(env, views[n], trace[n]);
    if trace[n].Stopped? {
      DoomedWasDecided(env, trace, views, n);
    }
    if DecidedBefore(trace, |trace|) {
      var i :| 0 <= i < |trace| && Decisive(trace[i]);
      DoomedFrom(env, trace, views, i, |trace|);
    }
  }

  /** The TTL of the last answer of the target among the first i events. */
  function LastTarget(trace: seq<Event>, i: nat): Option<U8>
    requires i <= |trace|
  {
    if i == 0 then None
    else if IsTargetAnswer(trace[i - 1]) then Some(trace[i - 1].ttl)
    else LastTarget(trace, i - 1)
  }

  lemma ReachStep(v: View, e: Event)
    ensures Apply(v, e).reach == if IsTargetAnswer(e) then Some(e.ttl) else v.reach
  {
  }

  ghost predicate ReachFollows(trace: seq<Event>, reach: seq<Option<U8>>) {
    && |reach| == |trace| + 1 && reach[0] == None
    && forall i {:trigger reach[i + 1]} | 0 <= i < |trace| ::
         reach[i + 1] == if IsTargetAnswer(trace[i]) then Some(trace[i].ttl) else reach[i]
  }

  lemma {:induction false} ReachIsLast(trace: seq<Event>, reach: seq<Option<U8>>, i: nat)
    requires ReachFollows(trace, reach) && i <= |trace|
    ensures reach[i] == LastTarget(trace, i)
  {
    if i > 0 {
      ReachIsLast(trace, reach, i - 1);
      var j := i - 1;
      assert reach[j + 1] == if IsTargetAnswer(trace[j]) then Some(trace[j].ttl) else reach[j];
    }
  }

  /** The hop count recorded for the summary is the TTL of the target's last answer. */
  lemma {:induction false} ReachIsLastTarget(env: Env, trace: seq<Event>, views: seq<View>, i: nat)
    requires IsRun(env, trace, views) && i <= |trace|
    ensures views[i].reach == LastTarget(trace, i)
  {
    var reach := seq(|views|, (j: nat) requires j < |views| => views[j].reach);
    forall j: nat | j < |trace|
      ensures reach[j + 1] == if IsTargetAnswer(trace[j]) then Some(trace[j].ttl) else reach[j]
    {
      StepAt(env, trace, views, j);
      ReachStep(views[j], trace[j]);
    }
    ReachIsLast(trace, reach, i);
  }

  function HopsShown(trace: seq<Event>): U8 {
    match LastTarget(trace, |trace|)
    case Some(t) => t
    case None => 0
  }

  predicate WaitRead(e: Event) { e.Reply? && e.stage.Waiting? }

  /** The last verdict among the messages read since the last poll. */
  function Verdict(trace: seq<Event>, i: nat): Option<ResponseType>
    requires i <= |trace|
  {
    if i == 0 || !WaitRead(trace[i - 1]) then None
    else if IsTargetAnswer(trace[i - 1]) then Some(Reached)
    else if SaysUnreachable(trace[i - 1]) then Some(Unreachable)
    else Verdict(trace, i - 1)
  }

  /** A message that, under the current TTL, is an answer: a refusal, a closed way, or a router that names itself. */
  predicate IsHopAnswer(e: Event, hop: nat) {
    && WaitRead(e) && e.ttl == hop
    && var m := e.message.info;
       || m.origin == SO_EE_ORIGIN_LOCAL
       || IsTargetAnswer(e) || SaysUnreachable(e)
       || ((m.errno == EHOSTUNREACH || m.errno == ETIMEDOUT) && m.hasSource)
  }

  /** One of the messages read since the last poll answers this hop. */
  predicate HopAnswered(trace: seq<Event>, i: nat, hop: nat)
    requires i <= |trace|
  {
    i > 0 && WaitRead(trace[i - 1]) && (IsHopAnswer(trace[i - 1], hop) || HopAnswered(trace, i - 1, hop))
  }

  lemma VerdictStep(env: Env, v: View, e: Event)
    requires Inv(v) && Next(env, v) == Some(e)
    ensures var w := Apply(v, e);
            w.phase.Draining? ==>
              if WaitRead(e) then
                && v.phase.Draining? && w.hops == v.hops
                && w.phase.terminal == (if IsTargetAnswer(e) then Some(Reached)
                                        else if SaysUnreachable(e) then Some(Unreachable) else v.phase.terminal)
                && w.phase.found == (v.phase.found || IsHopAnswer(e, v.hops))
              else w.phase.terminal == None && !w.phase.found
  {
    StepGuards(env, v, e);
  }

  /** While a queue is drained, the program knows exactly the last verdict in it and whether the hop was answered. */
  lemma {:induction false} VerdictIs(env: Env, trace: seq<Event>, views: seq<View>, i: nat)
    requires IsRun(env, trace, views) && i <= |trace| && views[i].phase.Draining?
    ensures views[i].phase.terminal == Verdict(trace, i)
    ensures views[i].phase.found == HopAnswered(trace, i, views[i].hops)
  {
    if i > 0 {
      StepAt(env, trace, views, i - 1);
      InvAlways(env, trace, views, i - 1);
      VerdictStep(env, views[i - 1], trace[i - 1]);
      if WaitRead(trace[i - 1]) { VerdictIs(env, trace, views, i - 1); }
    }
  }

  /**
   How an attempt may end with an answer: as the last verdict read in the queue says; as "next hop"
   if and only if there is no verdict but the hop was answered; and, right after a send, only by the
   target.
   */
  lemma AnswerWasRead(env: Env, trace: seq<Event>, views: seq<View>, i: nat)
    requires IsRun(env, trace, views) && i < |trace| && trace[i].Ended? && trace[i].outcome.Answered?
    ensures i > 0
    ensures if views[i].phase.Draining? then
              trace[i].outcome.response == (if Verdict(trace, i).Some? then Verdict(trace, i).value else TimeExceeded)
              && (Verdict(trace, i).Some? || HopAnswered(trace, i, views[i].hops))
            else
              trace[i].outcome.response.Reached? && IsTargetAnswer(trace[i - 1])
  {
    InvAlways(env, trace, views, i);
    StepAt(env, trace, views, i);
    StepAt(env, trace, views, i - 1);
    if views[i].phase.Draining? {
      VerdictIs(env, trace, views, i);
    }
  }

  /** A hop whose current TTL has been reported while waiting is over. */
  predicate HopOver(v: View, hop: nat) {
    || v.hops > hop
    || (v.hops == hop && hop in v.marked &&
        (v.phase.Draining? || (v.phase.Between? && v.resolved) || v.phase.Stopping? || v.phase.Done?))
  }

  lemma HopOverStep(env: Env, v: View, e: Event, hop: nat)
    requires Inv(v) && Next(env, v) == Some(e)
    ensures WaitRead(e) && e.ttl == hop == v.hops ==> HopOver(Apply(v, e), hop)
    ensures HopOver(v, hop) ==> HopOver(Apply(v, e), hop) && (e.ProbeSent? ==> v.hops > hop)
  {
    StepGuards(env, v, e);
  }

  lemma {:induction false} HopOverFrom(env: Env, trace: seq<Event>, views: seq<View>, i: nat, j: nat)
    requires IsRun(env, trace, views) && i < j <= |trace|
    requires WaitRead(trace[i]) && trace[i].ttl == views[i].hops
    ensures HopOver(views[j], views[i].hops)
  {
    StepAt(env, trace, views, j - 1);
    InvAlways(env, trace, views, j - 1);
    HopOverStep(env, views[j - 1], trace[j - 1], views[i].hops);
    if i < j - 1 { HopOverFrom(env, trace, views, i, j - 1); }
  }

  /** Whatever a wait reads for the current TTL ends the probing of that TTL: every later probe is for a later hop. */
  lemma NoProbeAfterAnswer(env: Env, trace: seq<Event>, views: seq<View>, i: nat, j: nat)
    requires IsRun(env, trace, views) && i < j < |trace|
    requires WaitRead(trace[i]) && trace[i].ttl == views[i].hops && trace[j].ProbeSent?
    ensures views[j].hops > views[i].hops
  {
    HopOverFrom(env, trace, views, i, j);
    StepAt(env, trace, views, j);
    InvAlways(env, trace, views, j);
    HopOverStep(env, views[j], trace[j], views[i].hops);
  }

  /** The run gives up for want of hops only at the limit. */
  lemma TooManyHopsIsSound(env: Env, trace: seq<Event>, views: seq<View>, i: nat)
    requires IsRun(env, trace, views) && i < |trace| && trace[i].TooManyHops?
    ensures views[i].hops == env.maxHops
  {
    InvAlways(env, trace, views, i);
    StepAt(env, trace, views, i);
  }

  ghost predicate Started(trace: seq<Event>, i: nat, t: nat)
    requires i <= |trace|
  {
    exists j :: 0 <= j < i && trace[j].StartHop? && trace[j].ttl == t
  }

  lemma StartedSnoc(trace: seq<Event>, i: nat, t: nat)
    requires 0 < i <= |trace|
    ensures Started(trace, i, t) <==> Started(trace, i - 1, t) || (trace[i - 1].StartHop? && trace[i - 1].ttl == t)
  {
  }

  lemma HopsStep(env: Env, v: View, e: Event)
    requires Next(env, v) == Some(e)
    ensures Apply(v, e).hops == if e.StartHop? then v.hops + 1 else v.hops
    ensures e.StartHop? ==> e.ttl == v.hops + 1
  {
    StepGuards(env, v, e);
  }

  /** No hop is skipped: all TTLs from 1 to the current one have been started. */
  lemma {:induction false} EveryHopStarted(env: Env, trace: seq<Event>, views: seq<View>, i: nat, t: nat)
    requires IsRun(env, trace, views) && i <= |trace|
    ensures Started(trace, i, t) <==> 1 <= t <= views[i].hops
  {
    if i > 0 {
      EveryHopStarted(env, trace, views, i - 1, t);
      StepAt(env, trace, views, i - 1);
      HopsStep(env, views[i - 1], trace[i - 1]);
      StartedSnoc(trace, i, t);
    }
  }

  /**
   The run does what its environment lets it: it sends exactly when sending works, and only when the
   queue has been cleared; it polls while there is time and no interrupt; it reads every queue in order
   and, but for a fatal local error, to its end.
   */
  lemma FollowsEnvironment(env: Env, v: View, e: Event)
    requires Next(env, v) == Some(e)
    ensures var now := v.Now(env);
            match e
            case ProbeSent(_, time) =>
              now.sending.Success? && now.sending.time == time && v.read >= |now.late|
            case Ended(o) =>
              && (o.SendFailed? ==> now.sending.Failure? && v.read >= |now.late|)
              && (o.TimedOut? ==> v.polls >= |now.rounds|)
              && (v.phase.Draining? ==> v.phase.halted || v.read >= |v.Queue(env)|)
            case Poll =>
              && v.polls < |now.rounds| && now.rounds[v.polls].running
              && (v.phase.Draining? ==> v.phase.halted || v.read >= |v.Queue(env)|)
            case Interrupted => v.polls < |now.rounds| && !now.rounds[v.polls].running
            case Reply(stage, m, _, _) =>
              (match stage
               case Discovery => env.discovery.failed && env.discovery.message == Some(m)
               case Clearing => v.read < |now.late| && now.late[v.read] == m
               case AfterSend => now.sending.Success? && now.sending.immediate == Some(m)
               case Waiting => v.read < |v.Queue(env)| && v.Queue(env)[v.read] == m)
            case _ => true
  {
  }

  /** What is in the queue right after a send, or after a failed discovery, is read at once. */
  lemma ReadAtOnce(env: Env, trace: seq<Event>, views: seq<View>, i: nat)
    requires IsRun(env, trace, views) && i + 1 < |trace|
    ensures trace[i].ProbeSent? && views[i].Now(env).sending.immediate.Some? ==>
              trace[i + 1].Reply? && trace[i + 1].stage.AfterSend?
              && trace[i + 1].message == views[i].Now(env).sending.immediate.value
    ensures trace[i].Discover? && env.discovery.failed && env.discovery.message.Some? ==>
              trace[i + 1].Reply? && trace[i + 1].stage.Discovery?
              && trace[i + 1].message == env.discovery.message.value
  {
    StepAt(env, trace, views, i);
    StepAt(env, trace, views, i + 1);
    StepGuards(env, views[i], trace[i]);
  }

  lemma HaltStep(env: Env, v: View, e: Event)
    requires Inv(v) && Next(env, v) == Some(e)
    ensures Apply(v, e).phase.Draining? && Apply(v, e).phase.halted ==>
              WaitRead(e) && e.message.info.origin == SO_EE_ORIGIN_LOCAL && Apply(v, e).phase.terminal.Some?
  {
    StepGuards(env, v, e);
  }

  /** A queue is left unread only behind a local error, and only with a verdict. */
  lemma UnreadOnlyBehindLocal(env: Env, trace: seq<Event>, views: seq<View>, i: nat)
    requires IsRun(env, trace, views) && i < |trace| && trace[i].Ended? && views[i].phase.Draining?
    requires views[i].read < |views[i].Queue(env)|
    ensures i > 0 && WaitRead(trace[i - 1]) && trace[i - 1].message.info.origin == SO_EE_ORIGIN_LOCAL
    ensures Verdict(trace, i).Some?
  {
    StepAt(env, trace, views, i);
    FollowsEnvironment(env, views[i], trace[i]);
    VerdictIs(env, trace, views, i);
    StepAt(env, trace, views, i - 1);
    InvAlways(env, trace, views, i - 1);
    HaltStep(env, views[i - 1], trace[i - 1]);
  }

  // ---------------------------------------------------------------- runs built step by step

  datatype Run = Run(trace: seq<Event>, views: seq<View>)
  {
    ghost predicate Of(env: Env) { IsRun(env, trace, views) }

    function Last(): View
      requires |views| == |trace| + 1
    {
      views[|trace|]
    }

    function Then(e: Event): Run
      requires |views| == |trace| + 1
    {
      Run(trace + [e], views + [Apply(Last(), e)])
    }
  }

  /** A run goes on with its next step, and `Last` of the longer run is the state after it. */
  lemma Continue(env: Env, run: Run, e: Event)
    requires run.Of(env) && Next(env, run.Last()) == Some(e)
    ensures run.Then(e).Of(env) && run.Then(e).Last() == Apply(run.Last(), e)
  {
  }

  /** A probe leaves at once, one poll finds the queue empty, and the wait is over. */
  predicate IsSilent(a: Attempt) {
    a.late == [] && a.sending.Success? && a.sending.immediate.None? && a.rounds == [Round(true, [])]
  }

  /** `v` with n more unanswered probes at hop `hops`. */
  ghost predicate Unheard(v: View, w: View, hops: nat, n: nat) {
    && w.hops == w.log.ttl == hops && w.log.base == v.log.base
    && w.log.answered == v.log.answered && w.marked == v.marked && hops !in w.marked
    && |w.log.probes| == |v.log.probes| + n
    && (forall j | 0 <= j < |v.log.probes| :: w.log.probes[j] == v.log.probes[j])
    && (forall j | |v.log.probes| <= j < |w.log.probes| :: w.log.probes[j].ttl == hops)
    && w.phase.Between? && !w.resolved && |w.tries| == n && w.read == w.polls == 0
  }

  lemma OneSilentTry(env: Env, run: Run) returns (longer: Run)
    requires run.Of(env) && var v := run.Last();
             MayTry(v) && v.read == v.polls == 0 && v.hops !in v.marked && IsSilent(v.Now(env))
    ensures longer.Of(env) && var v := run.Last();
            longer.Last() ==
            v.(log := v.log.Record(v.Now(env).sending.time), sent := v.sent + 1, tries := v.tries + [TimedOut])
  {
    var v := run.Last();
    var sent := ProbeSent(v.log.PortOf(|v.log.probes|), v.Now(env).sending.time);
    Continue(env, run, sent);
    Continue(env, run.Then(sent), Poll);
    Continue(env, run.Then(sent).Then(Poll), Ended(TimedOut));
    longer := run.Then(sent).Then(Poll).Then(Ended(TimedOut));
  }

  predicate SilentHop(env: Env, hop: nat, n: nat) {
    forall a | 0 <= a < n :: IsSilent(env.attempt(hop, a))
  }

  /** The next hop opens, and n of its probes leave and time out. */
  lemma {:induction false} SilentTries(env: Env, run: Run, n: nat) returns (longer: Run)
    requires run.Of(env) && n <= MAX_PROBES && run.Last().hops < env.maxHops
    requires Next(env, run.Last()) == Some(StartHop(run.Last().hops + 1))
    requires SilentHop(env, run.Last().hops + 1, n)
    ensures longer.Of(env) && Unheard(run.Last(), longer.Last(), run.Last().hops + 1, n)
  {
    var v := run.Last();
    if n == 0 {
      InvAlways(env, run.trace, run.views, |run.trace|);
      Continue(env, run, StartHop(v.hops + 1));
      longer := run.Then(StartHop(v.hops + 1));
    } else {
      var shorter := SilentTries(env, run, n - 1);
      assert IsSilent(env.attempt(v.hops + 1, n - 1));
      longer := OneSilentTry(env, shorter);
    }
  }

  ghost predicate SilentSoFar(v: View) {
    && v.log.answered == {}
    && |v.log.probes| == MAX_PROBES * v.hops
    && (forall j | 0 <= j < |v.log.probes| :: v.log.probes[j].ttl == 1 + j / MAX_PROBES)
  }

  lemma SilentStep(v: View, w: View)
    requires SilentSoFar(v) && Unheard(v, w, v.hops + 1, MAX_PROBES)
    ensures SilentSoFar(w)
  {
  }

  /** A run of silent hops: three probes each, "no reply" printed for all of them. */
  lemma {:induction false} SilentRun(env: Env, hops: nat) returns (run: Run)
    requires hops < env.maxHops && env.discovery.Heard().None?
    requires forall t | 1 <= t <= hops :: SilentHop(env, t, MAX_PROBES)
    ensures run.Of(env) && run.Last().hops == hops && SilentSoFar(run.Last())
    ensures Next(env, run.Last()) == Some(StartHop(hops + 1))
  {
    if hops == 0 {
      run := Run([], [Init(env)]);
      Continue(env, run, Discover(env.discovery.time));
      run := run.Then(Discover(env.discovery.time));
    } else {
      var shorter := SilentRun(env, hops - 1);
      var tried := SilentTries(env, shorter, MAX_PROBES);
      SilentStep(shorter.Last(), tried.Last());
      Continue(env, tried, NoReply(hops));
      run := tried.Then(NoReply(hops));
    }
  }

  /** Nothing is ever heard, except that `m` waits in the queue before the third probe of TTL `t`. */
  function OneLateReply(base: U16, maxHops: U8, t: nat, m: Message): Env {
    Env(base, maxHops, Discovery.Discovery(0, false, None),
        (h, a) => Attempt(if h == t && a == 2 then [m] else [], Success(0, None), [Round(true, [])]))
  }

  /**
   The window of 20 cannot be widened: for every TTL t there is a run that has reached TTL t + 21
   and reports a reply to the first, unanswered probe of t as an answer to TTL t + 21.
   */
  lemma WindowIsTight(base: U16, maxHops: U8, t: nat, m: Message) returns (run: Run, k: nat, e: Event)
    requires 0 < base <= 65472 && 1 <= t && t + 21 <= maxHops
    requires m.port == base + (MAX_PROBES * (t - 1)) % HIS_ARRAY_SIZE
    ensures run.Of(OneLateReply(base, maxHops, t + 21, m))
    ensures run.Then(e).Of(OneLateReply(base, maxHops, t + 21, m))
    ensures var log := run.Last().log;
            && log.ttl == t + 21 && k < |log.probes| && k !in log.answered
            && log.probes[k].ttl == t && log.probes[k].port == m.port
    ensures e.Reply? && e.message == m && e.ttl == t + 21
  {
    var env := OneLateReply(base, maxHops, t + 21, m);
    var silent := SilentRun(env, t + 20);
    run := SilentTries(env, silent, 2);
    InvAlways(env, run.trace, run.views, |run.trace|);
    k := MAX_PROBES * (t - 1);
    OneTooLate(run.Last().log, k, m.recvTime);
    assert run.Last().log.probes[k] == silent.Last().log.probes[k];
    assert run.Last().Now(env) == env.attempt(t + 21, 2);
    e := Answer(run.Last(), Clearing, m);
    Continue(env, run, e);
  }

  // ---------------------------------------------------------------- a well-behaved path

  /** On a path of n hops, every router answers with a hop limit and the target with a closed port, at once and in time. */
  function PathAnswer(base: U16, h: nat, n: nat): Message {
    Message(if h < n then ErrorInfo(EHOSTUNREACH, SO_EE_ORIGIN_ICMP6, ICMPV6_TIME_EXCEED, ICMPV6_EXC_HOPLIMIT, true)
            else ErrorInfo(ECONNREFUSED, SO_EE_ORIGIN_ICMP6, 1, 4, true),
            (base + (h + 63) % HIS_ARRAY_SIZE) % 0x1_0000, 1)
  }

  function PathEnv(base: U16, maxHops: U8, n: nat): Env {
    Env(base, maxHops, Discovery.Discovery(0, false, None),
        (h: nat, a: nat) => Attempt([], Success(0, None), [Round(true, [PathAnswer(base, h, n)])]))
  }

  /** What is seen of hop h: one probe, one poll, one answer attributed to this very hop. */
  function PathHop(base: U16, h: U8, n: nat): seq<Event>
    requires 1 <= h
  {
    [StartHop(h),
     ProbeSent((base + (h - 1) % HIS_ARRAY_SIZE) % 0x1_0000, 0),
     Poll,
     Reply(Waiting, PathAnswer(base, h, n), h, 1),
     Ended(Answered(if h < n then TimeExceeded else Reached))]
  }

  function PathTrace(base: U16, h: U8, n: nat): seq<Event> {
    if h == 0 then [Discover(0)] else PathTrace(base, h - 1, n) + PathHop(base, h, n)
  }

  /** h hops of the path are behind, each with one answered probe. */
  ghost predicate OnPath(env: Env, v: View, base: U16, h: U8) {
    && v.hops == h && v.log.base == base && |v.log.probes| == h && v.log.WellFormed()
    && (if h == 0 then v.phase == Discovering(false) && v.log.ttl == 1
        else v.phase.Between? && v.resolved && h in v.marked)
  }

  /** The probe of hop h is answered as probe number h - 1, whatever is in the log. */
  lemma PathAttribution(log: SendLog, base: U16, h: U8, n: nat, recv: Instant)
    requires 0 < base <= 65472 && 1 <= h && log.WellFormed() && log.base == base
    requires |log.probes| == h && log.probes[h - 1] == Probe(h, log.PortOf(h - 1), 0) && h - 1 !in log.answered
    ensures var a := log.Lookup(PathAnswer(base, h, n).port, recv); a.ttl == h && a.rtt == Since(0, recv)
    ensures log.Lookup(PathAnswer(base, h, n).port, recv).log == log.(answered := log.answered + {h - 1})
  {
    assert (h + 63) % HIS_ARRAY_SIZE == (h - 1) % HIS_ARRAY_SIZE by { assert h + 63 == (h - 1) + HIS_ARRAY_SIZE; }
    assert PathAnswer(base, h, n).port == log.PortOf(h - 1);
    NewestIffRecent(h, h - 1);
  }

  lemma {:induction false} PathProbe(run: Run, base: U16, maxHops: U8, n: nat, h: U8) returns (longer: Run)
    requires 0 < base <= 65472 && 1 <= h <= n && h <= maxHops
    requires run.Of(PathEnv(base, maxHops, n)) && OnPath(PathEnv(base, maxHops, n), run.Last(), base, h - 1)
    ensures longer.Of(PathEnv(base, maxHops, n))
    ensures longer.trace == run.trace + [StartHop(h), ProbeSent((base + (h - 1) % HIS_ARRAY_SIZE) % 0x1_0000, 0), Poll]
    ensures var v := longer.Last();
            && v.phase == Draining(None, false, false) && v.hops == h == v.log.ttl && v.polls == 1 && v.read == 0
            && v.tries == [] && v.log.base == base && v.log.WellFormed()
            && |v.log.probes| == h && v.log.probes[h - 1] == Probe(h, v.log.PortOf(h - 1), 0)
            && h - 1 !in v.log.answered
  {
    var env := PathEnv(base, maxHops, n);
    InvAlways(env, run.trace, run.views, |run.trace|);
    Continue(env, run, StartHop(h));
    var started := run.Then(StartHop(h));
    var sent := ProbeSent((base + (h - 1) % HIS_ARRAY_SIZE) % 0x1_0000, 0);
    assert started.Last().Now(env) == env.attempt(h, 0);
    Continue(env, started, sent);
    InvAlways(env, started.Then(sent).trace, started.Then(sent).views, |started.Then(sent).trace|);
    assert started.Then(sent).Last().Now(env) == env.attempt(h, 0);
    Continue(env, started.Then(sent), Poll);
    longer := started.Then(sent).Then(Poll);
  }

  /** One hop of the path, as seen. */
  lemma {:induction false} PathStep(run: Run, base: U16, maxHops: U8, n: nat, h: U8) returns (longer: Run)
    requires 0 < base <= 65472 && 1 <= h <= n && h <= maxHops
    requires run.Of(PathEnv(base, maxHops, n)) && OnPath(PathEnv(base, maxHops, n), run.Last(), base, h - 1)
    ensures longer.Of(PathEnv(base, maxHops, n)) && longer.trace == run.trace + PathHop(base, h, n)
    ensures if h < n then OnPath(PathEnv(base, maxHops, n), longer.Last(), base, h)
            else longer.Last().phase.Stopping? && longer.Last().reach == Some(h)
  {
    var env := PathEnv(base, maxHops, n);
    var polled := PathProbe(run, base, maxHops, n, h);
    var v := polled.Last();
    assert v.Now(env) == env.attempt(h, 0);
    assert v.Queue(env) == [PathAnswer(base, h, n)];
    PathAttribution(v.log, base, h, n, 1);
    var reply := Reply(Waiting, PathAnswer(base, h, n), h, 1);
    Continue(env, polled, reply);
    var read := polled.Then(reply);
    assert read.Last().Now(env) == env.attempt(h, 0);
    var ended := Ended(Answered(if h < n then TimeExceeded else Reached));
    Continue(env, read, ended);
    longer := read.Then(ended);
    InvAlways(env, longer.trace, longer.views, |longer.trace|);
  }

  lemma {:induction false} PathSoFar(base: U16, maxHops: U8, n: nat, h: U8) returns (run: Run)
    requires 0 < base <= 65472 && h < n && h <= maxHops
    ensures run.Of(PathEnv(base, maxHops, n)) && run.trace == PathTrace(base, h, n)
    ensures OnPath(PathEnv(base, maxHops, n), run.Last(), base, h)
  {
    if h == 0 {
      run := Run([], [Init(PathEnv(base, maxHops, n))]);
      Continue(PathEnv(base, maxHops, n), run, Discover(0));
      run := run.Then(Discover(0));
    } else {
      var shorter := PathSoFar(base, maxHops, n, h - 1);
      run := PathStep(shorter, base, maxHops, n, h);
    }
  }

  /**
   What the program is for: on a path of n hops it shows every hop once, in order, each answer
   attributed to its own hop, and stops at the target with the hop count n; and if the path is longer
   than the hop limit, it shows the limit's many hops and says so.
   */
  lemma {:induction false} PathIsShown(base: U16, maxHops: U8, n: nat) returns (run: Run)
    requires 0 < base <= 65472 && 1 <= n
    ensures run.Of(PathEnv(base, maxHops, n)) && IsOutput(PathEnv(base, maxHops, n), run.trace)
    ensures run.trace == if n <= maxHops then PathTrace(base, n, n) + [Stopped]
                         else PathTrace(base, maxHops, n) + [TooManyHops]
    ensures n <= maxHops ==> run.Last().reach == Some(n)
  {
    var env := PathEnv(base, maxHops, n);
    if n <= maxHops {
      var before := PathSoFar(base, maxHops, n, n - 1);
      var arrived := PathStep(before, base, maxHops, n, n);
      Continue(env, arrived, Stopped);
      run := arrived.Then(Stopped);
    } else {
      var limit := PathSoFar(base, maxHops, n, maxHops);
      Continue(env, limit, TooManyHops);
      run := limit.Then(TooManyHops);
    }
    assert IsRun(env, run.trace, run.views) && run.views[|run.trace|].phase.Done?;
  }

  // ---------------------------------------------------------------- where replies get lost

  /** The answer to attempt `a` of TTL 1 is in the queue right after the send, and nothing else ever is. */
  function QuickHopLimit(a: nat): Message {
    Message(ErrorInfo(EHOSTUNREACH, SO_EE_ORIGIN_ICMP6, ICMPV6_TIME_EXCEED, ICMPV6_EXC_HOPLIMIT, true),
            (44444 + a) % 0x1_0000, 1)
  }

  function QuickReplies(): Env {
    Env(44444, 1, Discovery.Discovery(0, false, None),
        (h: nat, a: nat) => Attempt([], Success(0, Some(QuickHopLimit(a))), [Round(true, [])]))
  }

  ghost predicate Shows(trace: seq<Event>, e: Event) {
    exists i :: 0 <= i < |trace| && trace[i] == e
  }

  /** The answers to the first `a` probes are all in the trace, attributed to TTL 1. */
  ghost predicate Heard(trace: seq<Event>, a: nat) {
    forall b: nat | b < a :: Shows(trace, Reply(AfterSend, QuickHopLimit(b), 1, 1))
  }

  lemma ShowsMore(trace: seq<Event>, more: seq<Event>, a: nat)
    requires Heard(trace, a)
    ensures Heard(trace + more, a)
  {
    forall b: nat | b < a
      ensures Shows(trace + more, Reply(AfterSend, QuickHopLimit(b), 1, 1))
    {
      var e := Reply(AfterSend, QuickHopLimit(b), 1, 1);
      assert Shows(trace, e);
      var i :| 0 <= i < |trace| && trace[i] == e;
      assert (trace + more)[i] == e;
    }
  }

  function UnluckyTry(a: nat): seq<Event>
    requires a < MAX_PROBES
  {
    [ProbeSent(44444 + a, 0), Reply(AfterSend, QuickHopLimit(a), 1, 1), Poll, Ended(TimedOut)]
  }

  lemma HeardOneMore(trace: seq<Event>, a: nat)
    requires Heard(trace, a) && a < MAX_PROBES
    ensures Heard(trace + UnluckyTry(a), a + 1)
  {
    ShowsMore(trace, UnluckyTry(a), a);
    assert (trace + UnluckyTry(a))[|trace| + 1] == Reply(AfterSend, QuickHopLimit(a), 1, 1);
  }

  ghost predicate Unlucky(v: View, a: nat) {
    && v.hops == v.log.ttl == 1 && v.marked == {} && v.log.base == 44444
    && |v.log.probes| == a && (forall k | k in v.log.answered :: k < a)
    && v.phase.Between? && !v.resolved && |v.tries| == a && v.read == v.polls == 0
  }

  lemma OneUnluckyTry(run: Run, a: nat) returns (longer: Run)
    requires run.Of(QuickReplies()) && a < MAX_PROBES && Unlucky(run.Last(), a)
    ensures longer.Of(QuickReplies()) && Unlucky(longer.Last(), a + 1)
    ensures longer.trace == run.trace + UnluckyTry(a)
  {
    var env, v := QuickReplies(), run.Last();
    assert v.Now(env) == env.attempt(1, a);
    var sent := ProbeSent(44444 + a, 0);
    Continue(env, run, sent);
    var w := run.Then(sent).Last();
    assert w.Now(env) == env.attempt(1, a);
    var answer := Answer(w, AfterSend, QuickHopLimit(a));
    assert Newest(|w.log.probes|, a) == Some(a);
    Continue(env, run.Then(sent), answer);
    longer := OneEmptyPoll(run.Then(sent).Then(answer), a);
  }

  lemma OneEmptyPoll(run: Run, a: nat) returns (longer: Run)
    requires run.Of(QuickReplies()) && var v := run.Last();
             && v.phase == InFlight(true) && v.hops == 1 && v.marked == {} && |v.tries| == a && v.polls == 0
    ensures longer.Of(QuickReplies()) && longer.trace == run.trace + [Poll, Ended(TimedOut)]
    ensures longer.Last() ==
            run.Last().(phase := Between, tries := run.Last().tries + [TimedOut], read := 0, resolved := false)
  {
    assert run.Last().Now(QuickReplies()) == QuickReplies().attempt(1, a);
    Continue(QuickReplies(), run, Poll);
    assert run.Then(Poll).Last().Now(QuickReplies()) == QuickReplies().attempt(1, a);
    Continue(QuickReplies(), run.Then(Poll), Ended(TimedOut));
    longer := run.Then(Poll).Then(Ended(TimedOut));
  }

  lemma QuickStart() returns (run: Run)
    ensures run.Of(QuickReplies()) && Unlucky(run.Last(), 0)
  {
    var env := QuickReplies();
    run := Run([], [Init(env)]);
    Continue(env, run, Discover(0));
    Continue(env, run.Then(Discover(0)), StartHop(1));
    run := run.Then(Discover(0)).Then(StartHop(1));
  }

  lemma {:induction false} UnluckyRun(a: nat) returns (run: Run)
    requires a <= MAX_PROBES
    ensures run.Of(QuickReplies()) && Unlucky(run.Last(), a) && Heard(run.trace, a)
  {
    if a == 0 {
      run := QuickStart();
    } else {
      var shorter := UnluckyRun(a - 1);
      run := OneUnluckyTry(shorter, a - 1);
      HeardOneMore(shorter.trace, a - 1);
    }
  }

  /**
   A reply read by the check right after a send is taken off the queue but never marked. Here all
   three probes of TTL 1 are answered within a millisecond, all three answers are attributed to
   TTL 1, and the run still prints "no reply" for it.
   */
  lemma QuickRepliesAreLost() returns (run: Run)
    ensures run.Of(QuickReplies()) && run.Last().phase.Done?
    ensures Heard(run.trace, MAX_PROBES)
    ensures exists i :: 0 <= i < |run.trace| && run.trace[i] == NoReply(1)
  {
    var env := QuickReplies();
    var tried := UnluckyRun(MAX_PROBES);
    Continue(env, tried, NoReply(1));
    Continue(env, tried.Then(NoReply(1)), TooManyHops);
    run := tried.Then(NoReply(1)).Then(TooManyHops);
    ShowsMore(tried.trace, [NoReply(1), TooManyHops], MAX_PROBES);
    assert tried.trace + [NoReply(1), TooManyHops] == run.trace;
    assert run.trace[|tried.trace|] == NoReply(1);
  }

  /**
   A hop-limit message ends the run if and only if it is late enough to be found while clearing the
   queue. Found anywhere else it never does: a wait that reads one and still ends as unreachable had
   read a message that says so before.
   */
  lemma LateHopLimitEndsRun(env: Env, trace: seq<Event>, views: seq<View>, i: nat)
    requires IsRun(env, trace, views) && i + 1 < |trace|
    requires trace[i].Reply? && trace[i].message.info.errno == EHOSTUNREACH
    requires !trace[i].message.info.IsLocal() && trace[i].message.info.IsHopLimit()
    ensures trace[i + 1] == Stopped <==> trace[i].stage.Clearing?
    ensures trace[i].stage.Waiting? && trace[i + 1] == Ended(Answered(Unreachable)) ==>
              views[i].phase.Draining? && views[i].phase.terminal == Some(Unreachable)
  {
    assert views[i + 1] == Apply(views[i], trace[i]);
    assert Next(env, views[i + 1]) == Some(trace[i + 1]);
    StepGuards(env, views[i], trace[i]);
  }
}
