/**
 The IPv6 tracepath program: the history ring, the probe and drain loops and the table of
 answered TTLs, updated in place. `trace` stands for the socket and for standard output.
 Every method is proved to take the steps `TracepathMachine` allows, so that the whole run produces
 the one finished trace of its environment.
 */
module Tracepath {
  import opened Basics
  import opened SendLogs
  import opened TracepathMachine

  datatype HistoryEntry = HistoryEntry(hops: U8, sendTime: Option<Instant>)

  const EMPTY := HistoryEntry(0, None)

  /** `(hisptr + 1) & (HIS_ARRAY_SIZE - 1)` on machine words. */
  function NextSlot(hisptr: nat): nat
    requires hisptr < HIS_ARRAY_SIZE
  {
    (((hisptr + 1) as bv8) & 63) as nat
  }

  lemma Mask(x: bv8)
    ensures x < 64 ==> x & 63 == x
    ensures x == 64 ==> x & 63 == 0
  {
  }

  lemma NextSlotIs(h: nat)
    requires h < HIS_ARRAY_SIZE
    ensures NextSlot(h) == if h == 63 then 0 else h + 1
  {
    var x := (h + 1) as bv8;
    Mask(x);
  }

  /** The masked increment keeps the pointer at the number of sends modulo 64. */
  lemma NextSlotFollows(n: nat)
    ensures NextSlot(n % HIS_ARRAY_SIZE) == (n + 1) % HIS_ARRAY_SIZE
  {
    NextSlotIs(n % HIS_ARRAY_SIZE);
  }

  // ---------------------------------------------------------------- the ring as a function of the log

  /** What slot `s` holds: the newest send to its port, unless that send has been answered. */
  function SlotOf(log: SendLog, s: nat): HistoryEntry
    requires forall k | k in log.answered :: k < |log.probes|
  {
    if log.probes == [] then
      if s == 0 && log.pmtu.Some? then HistoryEntry(1, log.pmtu) else EMPTY
    else
      match Newest(|log.probes|, s)
      case Some(k) =>
        if k in log.answered then EMPTY else HistoryEntry(log.probes[k].ttl, Some(log.probes[k].time))
      case None => EMPTY
  }

  ghost predicate RingHolds(history: seq<HistoryEntry>, log: SendLog) {
    && (forall k | k in log.answered :: k < |log.probes|)
    && |history| == HIS_ARRAY_SIZE
    && forall s | 0 <= s < HIS_ARRAY_SIZE :: history[s] == SlotOf(log, s)
  }

  /** Before any probe, slot 0 stands for the discovery packet. */
  lemma RingDiscovers(history: seq<HistoryEntry>, log: SendLog, time: Instant)
    requires RingHolds(history, log) && log.probes == []
    ensures RingHolds(history[0 := HistoryEntry(1, Some(time))],
                      log.(ttl := 1, pmtu := Some(time), lastSend := Some(time)))
  {
    assert forall s | 0 <= s < HIS_ARRAY_SIZE :: history[s] == SlotOf(log, s);
  }

  /** Overwriting the slot at the history pointer is recording a send in the log. */
  lemma RingRecords(history: seq<HistoryEntry>, log: SendLog, time: Instant)
    requires RingHolds(history, log) && log.ttl > 0
    ensures RingHolds(history[|log.probes| % HIS_ARRAY_SIZE := HistoryEntry(log.ttl, Some(time))], log.Record(time))
  {
    var n := |log.probes|;
    var history' := history[n % HIS_ARRAY_SIZE := HistoryEntry(log.ttl, Some(time))];
    forall s | 0 <= s < HIS_ARRAY_SIZE
      ensures history'[s] == SlotOf(log.Record(time), s)
    {
      if s != n % HIS_ARRAY_SIZE {
        assert Newest(n + 1, s) == Newest(n, s);
      }
    }
  }

  /** What the program finds under a port in the ring, and the ring it leaves behind. */
  datatype Found = Found(ttl: U8, rtt: nat, history: seq<HistoryEntry>)

  function FindInRing(
    history: seq<HistoryEntry>, basePort: U16, ttl: U8, sendTime: Option<Instant>, port: U16, recv: Instant): Found
    requires |history| == HIS_ARRAY_SIZE
  {
    var slot := port - basePort;
    if port == 0 then
      Found(ttl, if sendTime.Some? then Since(sendTime.value, recv) else 0, history)
    else if 0 <= slot < HIS_ARRAY_SIZE && history[slot].hops > 0 then
      var sent := history[slot].sendTime;
      Found(history[slot].hops, if sent.Some? then Since(sent.value, recv) else 0, history[slot := EMPTY])
    else
      Found(ttl, 0, history)
  }

  lemma {:induction false} SlotCleared(history: seq<HistoryEntry>, log: SendLog, slot: nat)
    requires RingHolds(history, log) && slot < HIS_ARRAY_SIZE && log.probes != []
    requires Newest(|log.probes|, slot).Some?
    ensures RingHolds(history[slot := EMPTY], log.(answered := log.answered + {Newest(|log.probes|, slot).value}))
  {
    var k := Newest(|log.probes|, slot).value;
    forall s | 0 <= s < HIS_ARRAY_SIZE
      ensures history[slot := EMPTY][s] == SlotOf(log.(answered := log.answered + {k}), s)
    {
      assert history[s] == SlotOf(log, s);
      if Newest(|log.probes|, s) == Some(k) { assert s == slot; }
    }
  }

  /** Looking a port up in the ring is looking it up in the unbounded log. */
  lemma RingFinds(history: seq<HistoryEntry>, log: SendLog, port: U16, recv: Instant)
    requires RingHolds(history, log)
    requires forall k | 0 <= k < |log.probes| :: log.probes[k].ttl > 0
    ensures var f, a := FindInRing(history, log.base, log.ttl, log.lastSend, port, recv), log.Lookup(port, recv);
            f.ttl == a.ttl && f.rtt == a.rtt && RingHolds(f.history, a.log)
  {
    var slot := port - log.base;
    if port != 0 && 0 <= slot < HIS_ARRAY_SIZE {
      assert history[slot] == SlotOf(log, slot);
      if log.probes != [] {
        if Newest(|log.probes|, slot).Some? { SlotCleared(history, log, slot); }
      } else {
        assert forall s | 0 <= s < HIS_ARRAY_SIZE :: history[s] == SlotOf(log, s);
      }
    }
  }

  // ---------------------------------------------------------------- the program

  datatype SendResult = SendError | Sent(response: Option<ResponseType>)

  datatype WaitResult = Response(response: ResponseType) | LateAnswer | NoResponse | Exit

  /** How the driver's inner loop goes on after an attempt. */
  datatype AttemptEnd = Continue | Break | Return | Abort

  /** The table of answered TTLs against the machine's set of marks. */
  ghost predicate Marks(responses: map<U8, bool>, marked: set<U8>) {
    responses.Keys == marked && forall t | t in responses :: responses[t]
  }

  class RunState {
    const basePort: U16
    const history: array<HistoryEntry>
    var ttl: U8
    var hopsFrom: U8
    var hopsTo: U8
    var reached: bool
    var sendTime: Option<Instant>
    var hisptr: nat
    var trace: seq<Event>
    const env: Env
    ghost var views: seq<View>
    ghost var view: View

    /** The trace so far is a run of the machine, now in state `view`. */
    ghost predicate Traced()
      reads this`trace, this`views, this`view
    {
      env.base == basePort && IsRun(env, trace, views) && view == views[|trace|]
    }

    /** The ring and the scalar fields say what the log says. */
    ghost predicate Refines()
      reads this`view, this`hisptr, this`ttl, this`sendTime, history
    {
      && history.Length == HIS_ARRAY_SIZE
      && RingHolds(history[..], view.log)
      && hisptr == |view.log.probes| % HIS_ARRAY_SIZE
      && ttl == view.log.ttl && sendTime == view.log.lastSend
    }

    ghost predicate ReachRecorded()
      reads this`view, this`reached, this`hopsTo, this`hopsFrom
    {
      && reached == view.reach.Some?
      && (hopsTo, hopsFrom) == (if view.reach.Some? then (view.reach.value, 1) else (0, 0))
    }

    ghost predicate Valid()
      reads this, history
    {
      Traced() && Refines() && ReachRecorded()
    }

    constructor (env: Env, basePort: U16)
      requires env.base == basePort
      ensures Valid() && fresh(history)
      ensures this.env == env && trace == [] && view == Init(env)
    {
      this.env := env;
      this.basePort := basePort;
      ttl, hopsFrom, hopsTo, reached, sendTime := 1, 0, 0, false, None;
      history := new HistoryEntry[HIS_ARRAY_SIZE](_ => EMPTY);
      hisptr, trace := 0, [];
      views, view := [Init(env)], Init(env);
    }

    /** One visible step. */
    method Emit(e: Event)
      requires Traced() && Next(env, view) == Some(e)
      modifies this`trace, this`views, this`view
      ensures Traced()
      ensures trace == old(trace) + [e] && view == Apply(old(view), e)
    {
      trace := trace + [e];
      view := Apply(view, e);
      views := views + [view];
    }

    /** Facts of the run that the ring's refinement needs. */
    lemma LogFacts()
      requires Traced()
      ensures view.log.base == basePort && view.log.ttl > 0
      ensures forall k | 0 <= k < |view.log.probes| :: view.log.probes[k].ttl > 0
      ensures view.hops > 0 ==> view.log.ttl == view.hops
    {
      InvAlways(env, trace, views, |trace|);
    }

    method FindSendHistoryByPort(receivedPort: U16, recvTime: Instant) returns (actualTtl: U8, rtt: nat)
      requires history.Length == HIS_ARRAY_SIZE
      modifies history
      ensures Found(actualTtl, rtt, history[..]) ==
              FindInRing(old(history[..]), basePort, ttl, sendTime, receivedPort, recvTime)
    {
      if receivedPort == 0 {
        rtt := if sendTime.Some? then Since(sendTime.value, recvTime) else 0;
        return ttl, rtt;
      }
      var slot := receivedPort - basePort;
      if 0 <= slot < HIS_ARRAY_SIZE && history[slot].hops > 0 {
        actualTtl := history[slot].hops;
        rtt := if history[slot].sendTime.Some? then Since(history[slot].sendTime.value, recvTime) else 0;
        history[slot] := EMPTY;
        assert history[..] == old(history[..])[slot := EMPTY];
      } else {
        actualTtl, rtt := ttl, 0;
      }
    }

    /** Look a queue message up and report it. */
    method Report(stage: Stage, m: Message) returns (actualTtl: U8)
      requires Traced() && Refines() && Next(env, view) == Some(Answer(view, stage, m))
      modifies this`trace, this`views, this`view, history
      ensures Traced() && Refines()
      ensures actualTtl == Answer(old(view), stage, m).ttl
      ensures trace == old(trace) + [Answer(old(view), stage, m)]
      ensures view == Apply(old(view), Answer(old(view), stage, m))
    {
      LogFacts();
      RingFinds(history[..], view.log, m.port, m.recvTime);
      var rtt;
      actualTtl, rtt := FindSendHistoryByPort(m.port, m.recvTime);
      Emit(Reply(stage, m, actualTtl, rtt));
    }

    method PerformPmtuDiscovery(d: Discovery)
      requires Valid() && view == Init(env) && d == env.discovery
      modifies this, history
      ensures Valid() && Next(env, view) == Some(Advance(env, view))
      ensures view.phase.Discovering? && view.hops == 0 && view.marked == {}
    {
      ttl := 1;
      RingDiscovers(history[..], view.log, d.time);
      history[hisptr] := HistoryEntry(ttl, Some(d.time));
      sendTime := Some(d.time);
      assert history[..] == old(history[..])[0 := HistoryEntry(1, Some(d.time))];
      Emit(Discover(d.time));
      if d.failed && d.message.Some? {
        var _ := Report(Stage.Discovery, d.message.value);
      }
    }

    /** Note a probe that left: its slot, the history pointer and the send time. */
    method RecordProbe(port: U16, time: Instant)
      requires Traced() && Refines() && Next(env, view) == Some(ProbeSent(port, time))
      modifies this`hisptr, this`sendTime, this`trace, this`views, this`view, history
      ensures Traced() && Refines()
      ensures trace == old(trace) + [ProbeSent(port, time)]
      ensures view == Apply(old(view), ProbeSent(port, time))
    {
      LogFacts();
      ghost var log := view.log;
      RingRecords(history[..], log, time);
      NextSlotFollows(|log.probes|);
      history[hisptr] := HistoryEntry(ttl, Some(time));
      assert history[..] == old(history[..])[|log.probes| % HIS_ARRAY_SIZE := HistoryEntry(log.ttl, Some(time))];
      hisptr := NextSlot(hisptr);
      sendTime := Some(time);
      Emit(ProbeSent(port, time));
    }

    method SendUdpProbeIpv6(sending: Sending) returns (r: SendResult)
      requires Valid() && MayTry(view)
      requires sending == view.Now(env).sending && view.read == |view.Now(env).late| && view.polls == 0
      modifies this, history
      ensures Valid() && view.hops == old(view.hops) && view.tries == old(view.tries)
      ensures view.marked == old(view.marked)
      ensures match r
              case SendError => view == old(view) && Next(env, view) == Some(Ended(SendFailed))
              case Sent(None) =>
                && view.phase.InFlight? && view.polls == 0 && sending.Success?
                && Next(env, view) == Some(Wait(env, view))
              case Sent(Some(response)) => Next(env, view) == Some(Ended(Answered(response))) && response.Reached?
    {
      LogFacts();
      var destPort := (basePort + hisptr) % 0x1_0000;
      match sending
      case Failure => return SendError;
      case Success(time, immediate) =>
        RecordProbe(destPort, time);
        if immediate.Some? {
          var m := immediate.value;
          var actualTtl := Report(AfterSend, m);
          if !m.info.IsLocal() && m.info.errno == ECONNREFUSED {
            hopsTo, hopsFrom, reached := actualTtl, 1, true;
            return Sent(Some(Reached));
          }
        }
        return Sent(None);
    }

    /** The wait loop has no verdict yet and `polls` rounds behind it. */
    ghost predicate StillWaiting(hops: U8, tries: seq<Outcome>, polls: nat)
      reads this`view
    {
      && view.hops == hops && view.tries == tries && view.polls == polls
      && (view.phase.InFlight? || view.phase.Draining?)
      && Next(env, view) == Some(Wait(env, view))
    }

    /** One pass over the queue, every message in it reported and marked. */
    method DrainQueue(messages: seq<Message>, responses: map<U8, bool>)
      returns (terminal: Option<ResponseType>, found: bool, responses': map<U8, bool>)
      requires Valid() && view.phase == Draining(None, false, false) && view.read == 0 && view.hops > 0
      requires messages == view.Queue(env) && Marks(responses, view.marked)
      modifies this, history
      ensures Valid() && Marks(responses', view.marked)
      ensures (view.hops, view.tries, view.polls) == old((view.hops, view.tries, view.polls))
      ensures view.phase.Draining? && view.phase.terminal == terminal && view.phase.found == found
      ensures view.phase.halted || view.read == |messages|
    {
      terminal, found, responses' := None, false, responses;
      for j := 0 to |messages|
        invariant Valid() && Marks(responses', view.marked)
        invariant (view.hops, view.tries, view.polls) == old((view.hops, view.tries, view.polls))
        invariant view.phase == Draining(terminal, found, false) && view.read == j
      {
        terminal, found, responses' := ReadOne(messages[j], terminal, found, responses');
        if messages[j].info.IsLocal() && terminal.Some? { return; }
      }
    }

    /** One message of the queue, reported, marked and judged. */
    method ReadOne(m: Message, terminal: Option<ResponseType>, found: bool, responses: map<U8, bool>)
      returns (terminal': Option<ResponseType>, found': bool, responses': map<U8, bool>)
      requires Valid() && view.phase == Draining(terminal, found, false) && view.hops > 0
      requires view.read < |view.Queue(env)| && m == view.Queue(env)[view.read] && Marks(responses, view.marked)
      modifies this, history
      ensures Valid() && Marks(responses', view.marked)
      ensures (view.hops, view.tries, view.polls) == old((view.hops, view.tries, view.polls))
      ensures view.read == old(view.read) + 1
      ensures view.phase == Draining(terminal', found', m.info.IsLocal() && terminal'.Some?)
    {
      LogFacts();
      var actualTtl := Report(Waiting, m);
      responses' := responses[actualTtl := true];
      var verdict, counts := Judge(m.info, actualTtl);
      terminal' := if verdict.Some? then verdict else terminal;
      found' := found || counts;
    }

    /** What a message read while waiting means: whether it ends the run, and whether it answers the current TTL. */
    method Judge(info: ErrorInfo, actualTtl: U8) returns (verdict: Option<ResponseType>, counts: bool)
      modifies this`hopsTo, this`hopsFrom, this`reached
      ensures verdict == info.Terminal()
      ensures counts == (info.Counts() && actualTtl == ttl)
      ensures (hopsTo, hopsFrom, reached) ==
              if Reaches(Waiting, info) then (actualTtl, 1, true) else old((hopsTo, hopsFrom, reached))
    {
      verdict, counts := None, false;
      if info.IsLocal() {
        if info.errno == EHOSTUNREACH || info.errno == ENETUNREACH || info.errno == EACCES {
          verdict := Some(Unreachable);
        }
        if actualTtl == ttl { counts := true; }
      } else if info.errno == ECONNREFUSED {
        hopsTo, hopsFrom, reached := actualTtl, 1, true;
        verdict := Some(Reached);
        if actualTtl == ttl { counts := true; }
      } else if info.errno == EHOSTUNREACH {
        if info.IsHopLimit() {
          if info.hasSource && actualTtl == ttl { counts := true; }
        } else {
          verdict := Some(Unreachable);
          if actualTtl == ttl { counts := true; }
        }
      } else if info.errno == ETIMEDOUT {
        if info.hasSource && actualTtl == ttl { counts := true; }
      }
    }

    method ReceiveErrorQueueWithDelayedResponse(rounds: seq<Round>, responses: map<U8, bool>)
      returns (r: WaitResult, responses': map<U8, bool>)
      requires Valid() && view.hops > 0 && StillWaiting(view.hops, view.tries, 0)
      requires rounds == view.Now(env).rounds && Marks(responses, view.marked)
      modifies this, history
      ensures Valid() && Marks(responses', view.marked)
      ensures view.hops == old(view.hops) && view.tries == old(view.tries)
      ensures match r
              case Exit => Next(env, view) == Some(Interrupted)
              case Response(response) => Next(env, view) == Some(Ended(Answered(response)))
              case LateAnswer => Next(env, view) == Some(Ended(Delayed)) && view.hops in view.marked
              case NoResponse =>
                && Next(env, view) == Some(Ended(TimedOut))
                && (rounds != [] ==> view.hops !in view.marked)
    {
      responses' := responses;
      for i := 0 to |rounds|
        invariant Valid() && Marks(responses', view.marked)
        invariant StillWaiting(old(view.hops), old(view.tries), i)
        invariant i > 0 ==> view.hops !in view.marked
      {
        LogFacts();
        if !rounds[i].running { return Exit, responses'; }
        Emit(Poll);
        var terminal, found;
        terminal, found, responses' := DrainQueue(rounds[i].messages, responses');
        if terminal.Some? { return Response(terminal.value), responses'; }
        if found { return Response(TimeExceeded), responses'; }
        LogFacts();
        if ttl in responses' && responses'[ttl] { return LateAnswer, responses'; }
      }
      return NoResponse, responses';
    }

    /** Read and report everything late, until nothing is left or a message ends the run. */
    method ClearQueue(late: seq<Message>, responses: map<U8, bool>)
      returns (stop: bool, responses': map<U8, bool>)
      requires Valid() && MayTry(view) && view.read == 0 && view.polls == 0 && view.hops > 0
      requires late == view.Now(env).late && Marks(responses, view.marked)
      modifies this, history
      ensures Valid() && Marks(responses', view.marked)
      ensures (view.hops, view.tries) == old((view.hops, view.tries))
      ensures if stop then Next(env, view) == Some(Stopped)
              else MayTry(view) && view.read == |late| && view.polls == 0
    {
      stop, responses' := false, responses;
      for j := 0 to |late|
        invariant Valid() && Marks(responses', view.marked)
        invariant (view.hops, view.tries) == old((view.hops, view.tries))
        invariant MayTry(view) && view.read == j && view.polls == 0 && !stop
      {
        var actualTtl := Report(Clearing, late[j]);
        responses' := responses'[actualTtl := true];
        if late[j].info.errno == ECONNREFUSED || late[j].info.errno == EHOSTUNREACH {
          return true, responses';
        }
      }
    }

    /** One attempt of the current hop, up to the verdict `o`. */
    method Attempt(a: Attempt, responses: map<U8, bool>) returns (end: AttemptEnd, responses': map<U8, bool>)
      requires Valid() && MayTry(view) && view.read == 0 && view.polls == 0 && view.hops > 0
      requires a == view.Now(env) && Marks(responses, view.marked)
      modifies this, history
      ensures Valid() && Marks(responses', view.marked) && view.hops == old(view.hops)
      ensures Resumes(end, old(view.tries))
    {
      var stop;
      stop, responses' := ClearQueue(a.late, responses);
      if stop { return Return, responses'; }
      var sent := SendUdpProbeIpv6(a.sending);
      match sent
      case SendError =>
        Emit(Ended(SendFailed));
        return AttemptEnd.Continue, responses';
      case Sent(Some(response)) =>
        Emit(Ended(Answered(response)));
        return Return, responses';
      case Sent(None) =>
        end, responses' := AwaitAnswer(a.rounds, responses');
    }

    /** The part of an attempt after a send that was not answered at once. */
    method AwaitAnswer(rounds: seq<Round>, responses: map<U8, bool>)
      returns (end: AttemptEnd, responses': map<U8, bool>)
      requires Valid() && view.hops > 0 && StillWaiting(view.hops, view.tries, 0)
      requires rounds == view.Now(env).rounds && Marks(responses, view.marked)
      modifies this, history
      ensures Valid() && Marks(responses', view.marked) && view.hops == old(view.hops)
      ensures Resumes(end, old(view.tries))
    {
      var r;
      r, responses' := ReceiveErrorQueueWithDelayedResponse(rounds, responses);
      LogFacts();
      match r
      case Exit => return Abort, responses';
      case Response(response) =>
        InvAlways(env, trace, views, |trace|);
        Emit(Ended(Answered(response)));
        return if response.TimeExceeded? then Break else Return, responses';
      case LateAnswer =>
        Emit(Ended(Delayed));
        return Break, responses';
      case NoResponse =>
        Emit(Ended(TimedOut));
        return if ttl in responses' && responses'[ttl] then Break else AttemptEnd.Continue, responses';
    }

    /** What the machine does next, given how the program leaves an attempt. */
    ghost predicate Resumes(end: AttemptEnd, tries: seq<Outcome>)
      reads this`view
    {
      match end
      case Continue => MayTryNext(tries) && !view.resolved
      case Break => MayTryNext(tries) && view.resolved
      case Return => Next(env, view) == Some(Stopped)
      case Abort => Next(env, view) == Some(Interrupted)
    }

    ghost predicate MayTryNext(tries: seq<Outcome>)
      reads this`view
    {
      view.phase.Between? && view.read == 0 && view.polls == 0 && |view.tries| == |tries| + 1
    }

    /** All attempts of one hop, and the line printed when none of them was answered. */
    method ProbeHop(t: U8, responses: map<U8, bool>) returns (end: AttemptEnd, responses': map<U8, bool>)
      requires Valid() && Next(env, view) == Some(StartHop(t)) && t == view.hops + 1
      requires Marks(responses, view.marked)
      modifies this, history
      ensures Valid() && Marks(responses', view.marked)
      ensures match end
              case Continue => Next(env, view) == Some(Advance(env, view)) && view.hops == t
              case Return => Next(env, view) == Some(Stopped)
              case Abort => Next(env, view) == Some(Interrupted)
              case Break => false
    {
      responses' := responses;
      var foundResponse := false;
      ttl := t;
      Emit(StartHop(t));
      for attempt := 0 to MAX_PROBES
        invariant Valid() && Marks(responses', view.marked)
        invariant view.phase.Between? && !view.resolved && |view.tries| == attempt
        invariant view.read == 0 && view.polls == 0 && view.hops == t > 0 && !foundResponse
      {
        end, responses' := Attempt(env.attempt(t, attempt), responses');
        match end
        case Continue =>
        case Break => foundResponse := true; break;
        case Return => return;
        case Abort => return;
      }
      InvAlways(env, trace, views, |trace|);
      if !foundResponse && !(t in responses' && responses'[t]) {
        Emit(NoReply(t));
      }
      end := AttemptEnd.Continue;
    }

    /** The last step of the run, and the hop count that the summary line shows. */
    method Finish(e: Event) returns (events: seq<Event>, hops: U8)
      requires Valid() && Next(env, view) == Some(e) && (e.Stopped? || e.Interrupted? || e.TooManyHops?)
      modifies this`trace, this`views, this`view
      ensures IsOutput(env, events) && hops == HopsShown(events)
    {
      Emit(e);
      ReachIsLastTarget(env, trace, views, |trace|);
      return trace, hopsTo;
    }
  }

  /**
   The whole run: its events are those of the finished run of the machine, the only one there is, and
   the hop count shown is the TTL of the target's last answer, or 0 without one.
   */
  method TracepathRunUdpIpv6(env: Env) returns (trace: seq<Event>, hops: U8)
    ensures IsOutput(env, trace)
    ensures hops == HopsShown(trace)
  {
    var state := new RunState(env, env.base);
    state.PerformPmtuDiscovery(env.discovery);
    var responses: map<U8, bool> := map[];
    for t := 1 to env.maxHops + 1
      invariant state.Valid() && Marks(responses, state.view.marked) && fresh(state) && fresh(state.history)
      invariant state.env == env && state.view.hops == t - 1
      invariant Next(env, state.view) == Some(Advance(env, state.view))
    {
      var end;
      end, responses := state.ProbeHop(t, responses);
      if end.Return? {
        trace, hops := state.Finish(Stopped);
        return;
      }
      if end.Abort? {
        trace, hops := state.Finish(Interrupted);
        return;
      }
    }
    trace, hops := state.Finish(TooManyHops);
  }
}
