/**
 The echo runs of ping, over IPv4 and IPv6: preload, flood, main loop and final listen. The
 environment is a script: send times, send failures, replies, interrupts and clock readings.
 */
module PingRun {
  import opened Basics
  import opened PingStatistics

  const MAX_PRELOAD := 10

  datatype Family = V4 | V6

  /** `count` is -c, `deadline` is -w (0 for none), `preloadArg` is -l. */
  datatype PingConfig = PingConfig(count: Option<nat>, deadline: nat, preloadArg: Option<U16>, flood: bool)
  {
    function Preload(): nat {
      if preloadArg.None? then 0 else Min(preloadArg.value, MAX_PRELOAD)
    }
  }

  datatype Received = EchoReply(seqNo: U16, at: Instant) | IcmpError | OtherError

  /** One pass of a loop: the interrupt flag it sees first, its send, its receive, the time at its end. */
  datatype Round = Round(interrupted: bool, sentAt: Instant, sendFails: bool, received: Received, elapsed: nat)

  /** `main` are the passes of the main or flood loop; when they run out the user interrupts. */
  datatype Script = Script(preload: nat -> Round, afterPreload: nat, main: seq<Round>, listen: seq<Received>)

  // ---------------------------------------------------------------- a run as a function

  datatype State = State(book: Book, rtts: seq<real>, errors: nat, running: bool)

  function NextSeq(s: State): U16 {
    (|s.book.sends| + 1) % SEQ_SPACE
  }

  /** The wrapping increment of the sequence number follows the number of sends. */
  lemma SeqFollows(s: State, t: State)
    requires |t.book.sends| == |s.book.sends| + 1
    ensures NextSeq(t) == (NextSeq(s) + 1) % SEQ_SPACE
  {
  }

  function Sent(s: State, now: Instant): State {
    s.(book := s.book.Record(NextSeq(s), now))
  }

  /** A reply counts once, with the time since its own send; anything else changes no count of sends or replies. */
  function Heard(s: State, r: Received, countErrors: bool): State {
    match r
    case EchoReply(seqNo, at) =>
      var k := s.book.Match(seqNo);
      if k.Some?
      then s.(book := s.book.Take(seqNo), rtts := s.rtts + [Since(s.book.sends[k.value].time, at) as real])
      else s
    case IcmpError => if countErrors then s.(errors := s.errors + 1) else s
    case OtherError => s
  }

  predicate CountReached(cfg: PingConfig, s: State) {
    cfg.count.Some? && |s.book.sends| >= cfg.count.value
  }

  predicate Exits(cfg: PingConfig, s: State, elapsed: nat) {
    CountReached(cfg, s) || (cfg.deadline > 0 && elapsed >= cfg.deadline)
  }

  function Checked(cfg: PingConfig, s: State, elapsed: nat): State {
    s.(running := s.running && !Exits(cfg, s, elapsed))
  }

  function PreloadSends(s: State, script: Script, i: nat, p: nat): State
    decreases p - i
  {
    if i >= p then s else PreloadSends(Sent(s, script.preload(i).sentAt), script, i + 1, p)
  }

  /** IPv6 looks only at the count here, never counts ICMP errors, and leaves the running flag alone. */
  function PreloadReplies(cfg: PingConfig, f: Family, s: State, script: Script, i: nat, p: nat): State
    decreases p - i
  {
    var round := script.preload(i);
    if i >= p then s
    else if !s.running || round.interrupted then s.(running := false)
    else
      var heard := Heard(s, round.received, f.V4?);
      if f.V4? then
        var checked := Checked(cfg, heard, round.elapsed);
        if Exits(cfg, heard, round.elapsed) then checked else PreloadReplies(cfg, f, checked, script, i + 1, p)
      else if CountReached(cfg, heard) then heard
      else PreloadReplies(cfg, f, heard, script, i + 1, p)
  }

  /** One pass of the main or flood loop, and whether another follows; only the main loop stops at a send error. */
  function OneRound(cfg: PingConfig, f: Family, s: State, round: Round): (State, bool) {
    if !s.running || round.interrupted then (s.(running := false), false)
    else
      var sent := Sent(s, round.sentAt);
      if round.sendFails && !cfg.flood then (sent, false)
      else
        var heard := Heard(sent, round.received, f.V4? || !cfg.flood);
        (Checked(cfg, heard, round.elapsed), !Exits(cfg, heard, round.elapsed))
  }

  function Loop(cfg: PingConfig, f: Family, s: State, rounds: seq<Round>): State
    decreases |rounds|
  {
    if rounds == [] then s.(running := false)
    else
      var (after, more) := OneRound(cfg, f, s, rounds[0]);
      if more then Loop(cfg, f, after, rounds[1..]) else after
  }

  function Listen(s: State, replies: seq<Received>): State {
    if replies == [] then s
    else Heard(Listen(s, replies[..|replies| - 1]), replies[|replies| - 1], false)
  }

  function Start(): State {
    State(Book([], {}), [], 0, true)
  }

  function AfterPreload(cfg: PingConfig, f: Family, script: Script): State {
    var p := cfg.Preload();
    PreloadReplies(cfg, f, PreloadSends(Start(), script, 0, p), script, 0, p)
  }

  function Run(cfg: PingConfig, f: Family, script: Script): State {
    if cfg.flood then Loop(cfg, f, Start(), script.main)
    else
      var loaded := AfterPreload(cfg, f, script);
      if cfg.Preload() > 0 && Exits(cfg, loaded, script.afterPreload)
      then Checked(cfg, loaded, script.afterPreload)
      else
        var done := Loop(cfg, f, loaded, script.main);
        if f.V4? then Listen(done, script.listen) else done
  }

  // ---------------------------------------------------------------- what holds in every state

  /** Sends are numbered from 1, and exactly the answered sends have been counted as replies. */
  ghost predicate Sound(s: State) {
    && s.book.WellFormed() && Numbered(s.book.sends) && |s.rtts| == |s.book.answered|
  }

  lemma SentSound(s: State, now: Instant)
    requires Sound(s)
    ensures Sound(Sent(s, now)) && |Sent(s, now).book.sends| == |s.book.sends| + 1
  {
  }

  lemma HeardSound(s: State, r: Received, countErrors: bool)
    requires Sound(s)
    ensures Sound(Heard(s, r, countErrors)) && Heard(s, r, countErrors).book.sends == s.book.sends
  {
  }

  lemma {:induction false} PreloadSendsSound(s: State, script: Script, i: nat, p: nat)
    requires Sound(s) && i <= p
    ensures Sound(PreloadSends(s, script, i, p))
    ensures |PreloadSends(s, script, i, p).book.sends| == |s.book.sends| + p - i
    ensures PreloadSends(s, script, i, p).running == s.running
    decreases p - i
  {
    if i < p {
      SentSound(s, script.preload(i).sentAt);
      PreloadSendsSound(Sent(s, script.preload(i).sentAt), script, i + 1, p);
    }
  }

  lemma {:induction false} PreloadRepliesSound(cfg: PingConfig, f: Family, s: State, script: Script, i: nat, p: nat)
    requires Sound(s)
    ensures Sound(PreloadReplies(cfg, f, s, script, i, p))
    ensures PreloadReplies(cfg, f, s, script, i, p).book.sends == s.book.sends
    decreases p - i
  {
    if i < p && s.running && !script.preload(i).interrupted {
      var heard := Heard(s, script.preload(i).received, f.V4?);
      HeardSound(s, script.preload(i).received, f.V4?);
      PreloadRepliesSound(cfg, f, if f.V4? then Checked(cfg, heard, script.preload(i).elapsed) else heard,
                          script, i + 1, p);
    }
  }

  /** The loop from round i on is that round and the loop from i + 1 on, with the next number. */
  lemma {:induction false} LoopFrom(cfg: PingConfig, f: Family, s: State, rounds: seq<Round>, i: nat)
    requires i < |rounds|
    ensures var (after, more) := OneRound(cfg, f, s, rounds[i]);
            && Loop(cfg, f, s, rounds[i..]) == (if more then Loop(cfg, f, after, rounds[i + 1..]) else after)
            && (more ==> NextSeq(after) == (NextSeq(s) + 1) % SEQ_SPACE)
  {
    assert rounds[i..][0] == rounds[i] && rounds[i..][1..] == rounds[i + 1..];
    var (after, more) := OneRound(cfg, f, s, rounds[i]);
    RoundGrows(cfg, f, s, rounds[i]);
    if more { SeqFollows(s, after); }
  }

  lemma RoundGrows(cfg: PingConfig, f: Family, s: State, round: Round)
    ensures OneRound(cfg, f, s, round).1 ==>
              |OneRound(cfg, f, s, round).0.book.sends| == |s.book.sends| + 1
  {
    var sent := Sent(s, round.sentAt);
    assert Heard(sent, round.received, f.V4? || !cfg.flood).book.sends == sent.book.sends;
  }

  lemma RoundSound(cfg: PingConfig, f: Family, s: State, round: Round)
    requires Sound(s)
    ensures var (after, more) := OneRound(cfg, f, s, round);
            && Sound(after)
            && |s.book.sends| <= |after.book.sends| <= |s.book.sends| + 1
            && (more ==> after.running && |after.book.sends| == |s.book.sends| + 1 && !CountReached(cfg, after))
  {
    var sent := Sent(s, round.sentAt);
    SentSound(s, round.sentAt);
    HeardSound(sent, round.received, f.V4? || !cfg.flood);
  }

  lemma {:induction false} LoopSound(cfg: PingConfig, f: Family, s: State, rounds: seq<Round>)
    requires Sound(s)
    ensures Sound(Loop(cfg, f, s, rounds))
    decreases |rounds|
  {
    if rounds != [] {
      RoundSound(cfg, f, s, rounds[0]);
      var (after, more) := OneRound(cfg, f, s, rounds[0]);
      if more { LoopSound(cfg, f, after, rounds[1..]); }
    }
  }

  lemma {:induction false} ListenSound(s: State, replies: seq<Received>)
    requires Sound(s)
    ensures Sound(Listen(s, replies)) && Listen(s, replies).book.sends == s.book.sends
  {
    if replies != [] {
      ListenSound(s, replies[..|replies| - 1]);
      HeardSound(Listen(s, replies[..|replies| - 1]), replies[|replies| - 1], false);
    }
  }

  /**
   Conservation and numbering, for every run of every mode: the k-th send carries k modulo 65536,
   replies plus outstanding sends never exceed the sends, and equal them up to 65536 sends.
   */
  lemma RunConserves(cfg: PingConfig, f: Family, script: Script)
    ensures var s := Run(cfg, f, script);
            && Sound(s)
            && |s.rtts| + |Table(s.book)| <= |s.book.sends|
            && (|s.book.sends| <= SEQ_SPACE ==> |s.rtts| + |Table(s.book)| == |s.book.sends|)
  {
    var p := cfg.Preload();
    var sends := PreloadSends(Start(), script, 0, p);
    var loaded := AfterPreload(cfg, f, script);
    PreloadSendsSound(Start(), script, 0, p);
    PreloadRepliesSound(cfg, f, sends, script, 0, p);
    LoopSound(cfg, f, Start(), script.main);
    LoopSound(cfg, f, loaded, script.main);
    ListenSound(Loop(cfg, f, loaded, script.main), script.listen);
    SoundConserves(Run(cfg, f, script));
  }

  lemma SoundConserves(s: State)
    requires Sound(s)
    ensures |s.rtts| + |Table(s.book)| <= |s.book.sends|
    ensures |s.book.sends| <= SEQ_SPACE ==> |s.rtts| + |Table(s.book)| == |s.book.sends|
  {
    Conservation(s.book);
    if |s.book.sends| <= SEQ_SPACE { NoneSuperseded(s.book); }
  }

  /** The reply to an outstanding send among the last 65536 is timed from that very send. */
  lemma ReplyTimesItsOwnSend(s: State, k: nat, at: Instant, countErrors: bool)
    requires Sound(s) && k < |s.book.sends| && k !in s.book.answered
    requires |s.book.sends| - k <= SEQ_SPACE
    ensures var h := Heard(s, EchoReply(s.book.sends[k].seqNo, at), countErrors);
            && h.rtts == s.rtts + [Since(s.book.sends[k].time, at) as real]
            && h.book.answered == s.book.answered + {k}
            && Heard(h, EchoReply(s.book.sends[k].seqNo, at), countErrors) == h
  {
    ReplyMatchesItsSend(s.book, k);
  }

  // ---------------------------------------------------------------- count-limited runs

  /** From n sends the loop stops at the count, but never before one more send. */
  lemma {:induction false} LoopCount(cfg: PingConfig, f: Family, s: State, rounds: seq<Round>)
    requires Sound(s) && cfg.count.Some?
    ensures |s.book.sends| <= |Loop(cfg, f, s, rounds).book.sends| <= Max(|s.book.sends| + 1, cfg.count.value)
    decreases |rounds|
  {
    if rounds != [] {
      RoundSound(cfg, f, s, rounds[0]);
      var (after, more) := OneRound(cfg, f, s, rounds[0]);
      if more { LoopCount(cfg, f, after, rounds[1..]); }
    }
  }

  predicate Quiet(cfg: PingConfig, r: Round) {
    && !r.interrupted && (cfg.flood || !r.sendFails) && (cfg.deadline > 0 ==> r.elapsed < cfg.deadline)
  }

  lemma {:induction false} LoopCountExact(cfg: PingConfig, f: Family, s: State, rounds: seq<Round>)
    requires Sound(s) && cfg.count.Some? && s.running
    requires forall i | 0 <= i < |rounds| :: Quiet(cfg, rounds[i])
    requires |rounds| >= Max(1, cfg.count.value - |s.book.sends|)
    ensures |Loop(cfg, f, s, rounds).book.sends| == Max(|s.book.sends| + 1, cfg.count.value)
    decreases |rounds|
  {
    assert Quiet(cfg, rounds[0]);
    RoundSound(cfg, f, s, rounds[0]);
    QuietRound(cfg, f, s, rounds[0]);
    var (after, more) := OneRound(cfg, f, s, rounds[0]);
    if more { LoopCountExact(cfg, f, after, rounds[1..]); }
  }

  lemma QuietRound(cfg: PingConfig, f: Family, s: State, round: Round)
    requires Sound(s) && s.running && Quiet(cfg, round)
    ensures var (after, more) := OneRound(cfg, f, s, round);
            |after.book.sends| == |s.book.sends| + 1 && (more <==> !CountReached(cfg, after))
  {
    HeardSound(Sent(s, round.sentAt), round.received, f.V4? || !cfg.flood);
  }

  lemma AfterPreloadSends(cfg: PingConfig, f: Family, script: Script)
    ensures Sound(AfterPreload(cfg, f, script))
    ensures |AfterPreload(cfg, f, script).book.sends| == cfg.Preload()
  {
    var p := cfg.Preload();
    PreloadSendsSound(Start(), script, 0, p);
    PreloadRepliesSound(cfg, f, PreloadSends(Start(), script, 0, p), script, 0, p);
  }

  /** The hand-off from preload to main loop: p packets numbered from 1 leave p + 1 as the next number. */
  lemma NumberAfterPreload(cfg: PingConfig, f: Family, script: Script)
    ensures NextSeq(AfterPreload(cfg, f, script)) == cfg.Preload() + 1
  {
    AfterPreloadSends(cfg, f, script);
  }

  /** With -c c and p preloaded packets no run ever records more than max(1, c, p) sends. */
  lemma CountIsAnUpperBound(cfg: PingConfig, f: Family, script: Script)
    requires cfg.count.Some?
    ensures |Run(cfg, f, script).book.sends| <= Max(1, Max(cfg.count.value, if cfg.flood then 0 else cfg.Preload()))
  {
    AfterPreloadSends(cfg, f, script);
    LoopCount(cfg, f, Start(), script.main);
    var loaded := AfterPreload(cfg, f, script);
    LoopCount(cfg, f, loaded, script.main);
    LoopSound(cfg, f, loaded, script.main);
    ListenSound(Loop(cfg, f, loaded, script.main), script.listen);
  }

  /** No interrupt, no deadline, no send error in the main loop, and time enough to reach the count. */
  ghost predicate Undisturbed(cfg: PingConfig, script: Script) {
    && cfg.count.Some?
    && (forall i: nat | i < MAX_PRELOAD :: Quiet(cfg, script.preload(i).(sendFails := false)))
    && (cfg.deadline > 0 ==> script.afterPreload < cfg.deadline)
    && (forall i | 0 <= i < |script.main| :: Quiet(cfg, script.main[i]))
    && |script.main| >= Max(1, cfg.count.value)
  }

  lemma {:induction false} PreloadKeepsRunning(
    cfg: PingConfig, f: Family, s: State, script: Script, i: nat, p: nat)
    requires Sound(s) && s.running && !CountReached(cfg, s) && p <= MAX_PRELOAD
    requires forall j: nat | j < MAX_PRELOAD :: Quiet(cfg, script.preload(j).(sendFails := false))
    ensures PreloadReplies(cfg, f, s, script, i, p).running
    decreases p - i
  {
    if i < p {
      assert Quiet(cfg, script.preload(i).(sendFails := false));
      HeardSound(s, script.preload(i).received, f.V4?);
      PreloadKeepsRunning(cfg, f, Heard(s, script.preload(i).received, f.V4?), script, i + 1, p);
    }
  }

  /** Undisturbed, a run records exactly p sends if p packets were preloaded and p >= c, else max(1, c). */
  lemma CountIsExact(cfg: PingConfig, f: Family, script: Script)
    requires Undisturbed(cfg, script)
    ensures var p, c := if cfg.flood then 0 else cfg.Preload(), cfg.count.value;
            |Run(cfg, f, script).book.sends| == if p > 0 && p >= c then p else Max(1, c)
  {
    if cfg.flood {
      LoopCountExact(cfg, f, Start(), script.main);
    } else {
      var p, loaded := cfg.Preload(), AfterPreload(cfg, f, script);
      AfterPreloadSends(cfg, f, script);
      if p < cfg.count.value || p == 0 {
        PreloadSendsSound(Start(), script, 0, p);
        if p > 0 { PreloadKeepsRunning(cfg, f, PreloadSends(Start(), script, 0, p), script, 0, p); }
        LoopCountExact(cfg, f, loaded, script.main);
        LoopSound(cfg, f, loaded, script.main);
        ListenSound(Loop(cfg, f, loaded, script.main), script.listen);
      }
    }
  }

  // ---------------------------------------------------------------- what a run counts

  /** At most ten packets are preloaded, and none without -l. */
  lemma PreloadIsCapped(cfg: PingConfig)
    ensures cfg.Preload() <= 10 && (cfg.preloadArg.None? ==> cfg.Preload() == 0)
    ensures cfg.preloadArg.Some? && cfg.preloadArg.value <= 10 ==> cfg.Preload() == cfg.preloadArg.value
    ensures cfg.preloadArg.Some? && cfg.preloadArg.value > 10 ==> cfg.Preload() == 10
  {
  }

  /** Send k is unanswered, among the last 65536, and carries number q. */
  predicate Outstanding(s: State, k: nat, q: U16) {
    k < |s.book.sends| && k !in s.book.answered && |s.book.sends| - k <= SEQ_SPACE && q == (k + 1) % SEQ_SPACE
  }

  /**
   What hearing `r` changes: a reply to an outstanding send adds exactly its time, any other reply
   nothing, an ICMP error one error where errors count, and anything else nothing.
   */
  ghost predicate Counts(before: State, after: State, r: Received, errorsCount: bool) {
    && after.book.sends == before.book.sends
    && after.errors == before.errors + (if r.IcmpError? && errorsCount then 1 else 0)
    && (forall k: nat | r.EchoReply? && Outstanding(before, k, r.seqNo) ::
          && after.rtts == before.rtts + [Since(before.book.sends[k].time, r.at) as real]
          && after.book.answered == before.book.answered + {k})
    && ((!r.EchoReply? || forall k: nat :: !Outstanding(before, k, r.seqNo)) ==>
          after.rtts == before.rtts && after.book.answered == before.book.answered)
  }

  lemma {:induction false} HeardCounts(s: State, r: Received, errorsCount: bool)
    requires Sound(s)
    ensures Counts(s, Heard(s, r, errorsCount), r, errorsCount)
  {
    if r.EchoReply? {
      forall k: nat | Outstanding(s, k, r.seqNo) ensures s.book.Match(r.seqNo) == Some(k) {
        ReplyMatchesItsSend(s.book, k);
      }
      if s.book.Match(r.seqNo).Some? {
        var k := s.book.Match(r.seqNo).value;
        ReplyMatchesItsSend(s.book, k);
        assert Outstanding(s, k, r.seqNo);
      }
    }
  }

  /** The same state, but for the running flag. */
  function Still(s: State): State {
    s.(running := false)
  }

  /** The loop over one pass more: it had ended before, or takes that pass from `t`. */
  lemma {:induction false} LoopSnoc(cfg: PingConfig, f: Family, s: State, rounds: seq<Round>, i: nat) returns (t: State)
    requires i < |rounds| && Sound(s)
    ensures Sound(t)
    ensures || Loop(cfg, f, s, rounds[..i + 1]) == Loop(cfg, f, s, rounds[..i])
            || (&& Loop(cfg, f, s, rounds[..i]) == Still(t) && t.running && !rounds[i].interrupted
                && Still(Loop(cfg, f, s, rounds[..i + 1])) == Still(OneRound(cfg, f, t, rounds[i]).0))
    decreases i
  {
    var (after, more) := OneRound(cfg, f, s, rounds[0]);
    RoundSound(cfg, f, s, rounds[0]);
    assert rounds[..i + 1][1..] == rounds[1..][..i];
    if i == 0 {
      t := s;
    } else {
      assert rounds[..i][1..] == rounds[1..][..i - 1];
      t := s;
      if more { t := LoopSnoc(cfg, f, after, rounds[1..], i - 1); }
    }
  }

  lemma CountsButForRunning(s: State, t: State, s': State, t': State, r: Received, errorsCount: bool)
    requires Still(s) == Still(s') && Still(t) == Still(t') && Counts(s, t, r, errorsCount)
    ensures Counts(s', t', r, errorsCount)
  {
    forall k: nat | r.EchoReply? ensures Outstanding(s, k, r.seqNo) == Outstanding(s', k, r.seqNo) {
    }
  }

  /** What one pass hears: nothing, after a failed send in the main loop. */
  function Hearing(cfg: PingConfig, round: Round): Received {
    if round.sendFails && !cfg.flood then OtherError else round.received
  }

  /** A pass adds one send under the next number and counts what it hears. */
  ghost predicate PassAdds(cfg: PingConfig, f: Family, before: State, after: State, round: Round) {
    var number := (|before.book.sends| + 1) % SEQ_SPACE;
    var sent := before.(book := Book(before.book.sends + [Send(number, round.sentAt)], before.book.answered));
    Counts(sent, after, Hearing(cfg, round), f.V4? || !cfg.flood)
  }

  lemma {:induction false} RoundCounts(cfg: PingConfig, f: Family, t: State, round: Round)
    requires Sound(t) && t.running && !round.interrupted
    ensures PassAdds(cfg, f, t, OneRound(cfg, f, t, round).0, round)
  {
    var sent := Sent(t, round.sentAt);
    SentSound(t, round.sentAt);
    HeardCounts(sent, Hearing(cfg, round), f.V4? || !cfg.flood);
    CountsButForRunning(sent, Heard(sent, Hearing(cfg, round), f.V4? || !cfg.flood),
                        sent, OneRound(cfg, f, t, round).0, Hearing(cfg, round), f.V4? || !cfg.flood);
  }

  lemma PassAddsButForRunning(cfg: PingConfig, f: Family, s: State, t: State, s': State, t': State, round: Round)
    requires Still(s) == Still(s') && Still(t) == Still(t') && PassAdds(cfg, f, s, t, round)
    ensures PassAdds(cfg, f, s', t', round)
  {
    CountsButForRunning(Sent(s, round.sentAt), t, Sent(s', round.sentAt), t', Hearing(cfg, round), f.V4? || !cfg.flood);
  }

  /** Pass i of the loop, in every mode: it either does not happen any more, and nothing changes, or it adds itself. */
  lemma {:induction false} PassCounts(cfg: PingConfig, f: Family, s: State, rounds: seq<Round>, i: nat)
    requires i < |rounds| && Sound(s)
    ensures var before, after := Loop(cfg, f, s, rounds[..i]), Loop(cfg, f, s, rounds[..i + 1]);
            after == before || PassAdds(cfg, f, before, after, rounds[i])
  {
    var t := LoopSnoc(cfg, f, s, rounds, i);
    var before, after := Loop(cfg, f, s, rounds[..i]), Loop(cfg, f, s, rounds[..i + 1]);
    if after != before {
      RoundCounts(cfg, f, t, rounds[i]);
      PassAddsButForRunning(cfg, f, t, OneRound(cfg, f, t, rounds[i]).0, before, after, rounds[i]);
    }
  }

  /** A run takes no pass after an interrupt, which it notices before sending, nor after a deadline or, unless flooding, a failed send. */
  lemma {:induction false} LoopEndsAt(cfg: PingConfig, f: Family, s: State, rounds: seq<Round>, i: nat)
    requires i < |rounds|
    ensures rounds[i].interrupted ==> Loop(cfg, f, s, rounds) == Loop(cfg, f, s, rounds[..i])
    ensures (cfg.deadline > 0 && rounds[i].elapsed >= cfg.deadline) || (rounds[i].sendFails && !cfg.flood) ==>
              Loop(cfg, f, s, rounds) == Loop(cfg, f, s, rounds[..i + 1])
    decreases i
  {
    var (after, more) := OneRound(cfg, f, s, rounds[0]);
    assert rounds[..i + 1][1..] == rounds[1..][..i];
    if i > 0 {
      assert rounds[..i][1..] == rounds[1..][..i - 1];
      if more { LoopEndsAt(cfg, f, after, rounds[1..], i - 1); }
    }
  }

  /** The same for a whole run: cutting the script behind such a pass changes nothing. */
  lemma {:induction false} RunEndsAt(cfg: PingConfig, f: Family, script: Script, i: nat)
    requires i < |script.main|
    requires cfg.deadline > 0 && script.main[i].elapsed >= cfg.deadline
    ensures Run(cfg, f, script) == Run(cfg, f, script.(main := script.main[..i + 1]))
  {
    LoopEndsAt(cfg, f, Start(), script.main, i);
    SamePreload(cfg, f, script, script.(main := script.main[..i + 1]));
    LoopEndsAt(cfg, f, AfterPreload(cfg, f, script), script.main, i);
  }

  lemma {:induction false} SamePreload(cfg: PingConfig, f: Family, script: Script, script': Script)
    requires script.preload == script'.preload && script.afterPreload == script'.afterPreload
    ensures AfterPreload(cfg, f, script') == AfterPreload(cfg, f, script)
  {
    SamePreloadSends(Start(), script, script', 0, cfg.Preload());
    SamePreloadReplies(cfg, f, PreloadSends(Start(), script, 0, cfg.Preload()), script, script', 0, cfg.Preload());
  }

  lemma {:induction false} SamePreloadSends(s: State, script: Script, script': Script, i: nat, p: nat)
    requires script.preload == script'.preload
    ensures PreloadSends(s, script', i, p) == PreloadSends(s, script, i, p)
    decreases p - i
  {
    if i < p { SamePreloadSends(Sent(s, script.preload(i).sentAt), script, script', i + 1, p); }
  }

  lemma {:induction false} SamePreloadReplies(
    cfg: PingConfig, f: Family, s: State, script: Script, script': Script, i: nat, p: nat)
    requires script.preload == script'.preload
    ensures PreloadReplies(cfg, f, s, script', i, p) == PreloadReplies(cfg, f, s, script, i, p)
    decreases p - i
  {
    if i < p {
      var heard := Heard(s, script.preload(i).received, f.V4?);
      SamePreloadReplies(cfg, f, heard, script, script', i + 1, p);
      SamePreloadReplies(cfg, f, Checked(cfg, heard, script.preload(i).elapsed), script, script', i + 1, p);
    }
  }

  /** The run goes on to listen at its end: IPv4, not flooding, and not ended by its preloaded packets. */
  predicate Listens(cfg: PingConfig, f: Family, script: Script) {
    && f.V4? && !cfg.flood
    && (cfg.Preload() > 0 ==>
          && !(cfg.count.Some? && cfg.Preload() >= cfg.count.value)
          && !(cfg.deadline > 0 && script.afterPreload >= cfg.deadline))
  }

  /** One more reply in the final listen is counted like any other, if the run listens; errors are not. */
  lemma {:induction false} ListenCounts(cfg: PingConfig, f: Family, script: Script, r: Received)
    ensures var before, after := Run(cfg, f, script), Run(cfg, f, script.(listen := script.listen + [r]));
            if Listens(cfg, f, script) then Counts(before, after, r, false) else after == before
  {
    var script' := script.(listen := script.listen + [r]);
    AfterPreloadSends(cfg, f, script);
    SamePreload(cfg, f, script, script');
    if Listens(cfg, f, script) {
      RunConserves(cfg, f, script);
      HeardCounts(Run(cfg, f, script), r, false);
      assert script'.listen[..|script.listen|] == script.listen;
    }
  }

  /** The reply read in preload round j, after n sends, does not end the reading. */
  predicate ReadsOn(cfg: PingConfig, f: Family, n: nat, script: Script, j: nat) {
    && (cfg.count.Some? ==> n < cfg.count.value)
    && (f.V4? && cfg.deadline > 0 ==> script.preload(j).elapsed < cfg.deadline)
  }

  /** Reading from preload reply `from` on gets to number i: nothing stops it on the way. */
  ghost predicate ReadsPreload(cfg: PingConfig, f: Family, s: State, script: Script, from: nat, i: nat) {
    && s.running
    && (forall j: nat | from <= j <= i :: !script.preload(j).interrupted)
    && (forall j: nat | from <= j < i :: ReadsOn(cfg, f, |s.book.sends|, script, j))
  }

  lemma ReadsSplit(cfg: PingConfig, f: Family, s: State, t: State, script: Script, from: nat, i: nat)
    requires from < i && |t.book.sends| == |s.book.sends| && t.running == s.running
    ensures ReadsPreload(cfg, f, s, script, from, i) <==>
            && s.running && !script.preload(from).interrupted && ReadsOn(cfg, f, |s.book.sends|, script, from)
            && ReadsPreload(cfg, f, t, script, from + 1, i)
  {
    if ReadsPreload(cfg, f, t, script, from + 1, i) && !script.preload(from).interrupted
       && ReadsOn(cfg, f, |s.book.sends|, script, from) {
      forall j: nat | from <= j <= i ensures !script.preload(j).interrupted {
        if j > from { assert from + 1 <= j <= i; }
      }
      forall j: nat | from <= j < i ensures ReadsOn(cfg, f, |s.book.sends|, script, j) {
        if j > from { assert from + 1 <= j < i; }
      }
    }
  }

  /** The first round of the rest. */
  lemma {:induction false} PreloadUnfold(cfg: PingConfig, f: Family, s: State, script: Script, from: nat, p: nat)
    requires from < p && Sound(s)
    ensures var heard := Heard(s, script.preload(from).received, f.V4?);
            var t := PreloadReplies(cfg, f, s, script, from, p);
            if !s.running || script.preload(from).interrupted then Still(t) == Still(s)
            else if !ReadsOn(cfg, f, |s.book.sends|, script, from) then Still(t) == Still(heard)
            else t == PreloadReplies(cfg, f, heard, script, from + 1, p)
  {
    HeardSound(s, script.preload(from).received, f.V4?);
  }

  lemma {:induction false} PreloadSnoc(cfg: PingConfig, f: Family, s: State, script: Script, from: nat, i: nat)
    returns (t: State)
    requires from <= i && Sound(s)
    ensures Sound(t)
    ensures ReadsPreload(cfg, f, s, script, from, i) ==>
              && Still(PreloadReplies(cfg, f, s, script, from, i)) == Still(t)
              && Still(PreloadReplies(cfg, f, s, script, from, i + 1)) ==
                 Still(Heard(t, script.preload(i).received, f.V4?))
    ensures !ReadsPreload(cfg, f, s, script, from, i) ==>
              Still(PreloadReplies(cfg, f, s, script, from, i + 1)) == Still(PreloadReplies(cfg, f, s, script, from, i))
    decreases i - from
  {
    t := s;
    var heard := Heard(s, script.preload(from).received, f.V4?);
    HeardSound(s, script.preload(from).received, f.V4?);
    PreloadUnfold(cfg, f, s, script, from, i + 1);
    if from == i {
      LastReply(cfg, f, heard, script, i + 1);
      LastReply(cfg, f, s, script, i);
    } else {
      PreloadUnfold(cfg, f, s, script, from, i);
      ReadsSplit(cfg, f, s, heard, script, from, i);
      if s.running && !script.preload(from).interrupted && ReadsOn(cfg, f, |s.book.sends|, script, from) {
        t := PreloadSnoc(cfg, f, heard, script, from + 1, i);
      }
    }
  }

  lemma {:induction false} LastReply(cfg: PingConfig, f: Family, s: State, script: Script, p: nat)
    ensures PreloadReplies(cfg, f, s, script, p, p) == s
  {
  }

  /** Reading one preload reply more counts that reply, if it comes to that; ICMP errors count for IPv4 only. */
  lemma {:induction false} PreloadCounts(cfg: PingConfig, f: Family, s: State, script: Script, i: nat)
    requires Sound(s)
    ensures var before, after := PreloadReplies(cfg, f, s, script, 0, i), PreloadReplies(cfg, f, s, script, 0, i + 1);
            if ReadsPreload(cfg, f, s, script, 0, i) then Counts(before, after, script.preload(i).received, f.V4?)
            else Still(after) == Still(before)
  {
    var t := PreloadSnoc(cfg, f, s, script, 0, i);
    if ReadsPreload(cfg, f, s, script, 0, i) {
      var heard := Heard(t, script.preload(i).received, f.V4?);
      HeardCounts(t, script.preload(i).received, f.V4?);
      CountsButForRunning(t, heard, PreloadReplies(cfg, f, s, script, 0, i), PreloadReplies(cfg, f, s, script, 0, i + 1),
                          script.preload(i).received, f.V4?);
    }
  }

  // ---------------------------------------------------------------- a run in which every send is answered

  /** How many packets are sent before the loop. */
  function Ahead(cfg: PingConfig): nat {
    if cfg.flood then 0 else cfg.Preload()
  }

  /** The pass or preload number k belongs to. */
  function RoundOf(cfg: PingConfig, script: Script, k: nat): Round
    requires k < Ahead(cfg) + |script.main|
  {
    if k < Ahead(cfg) then script.preload(k) else script.main[k - Ahead(cfg)]
  }

  /** What is heard after send k is the reply to send k. */
  predicate AnsweredAt(cfg: PingConfig, script: Script, k: nat)
    requires k < Ahead(cfg) + |script.main|
  {
    var r := RoundOf(cfg, script, k).received;
    r.EchoReply? && r.seqNo == (k + 1) % SEQ_SPACE
  }

  ghost predicate AllAnswered(cfg: PingConfig, script: Script) {
    forall k: nat | k < Ahead(cfg) + |script.main| :: AnsweredAt(cfg, script, k)
  }

  /** From the sending of packet k to the reading of its reply. */
  function TripOf(cfg: PingConfig, script: Script, k: nat): real
    requires k < Ahead(cfg) + |script.main| && AnsweredAt(cfg, script, k)
  {
    Since(RoundOf(cfg, script, k).sentAt, RoundOf(cfg, script, k).received.at) as real
  }

  /** n packets sent as the script says, and the first m of them answered and timed. */
  ghost predicate Timed(cfg: PingConfig, script: Script, s: State, n: nat, m: nat)
    requires AllAnswered(cfg, script)
  {
    && m <= n <= Ahead(cfg) + |script.main|
    && |s.book.sends| == n && |s.rtts| == m
    && (forall k: nat :: k in s.book.answered <==> k < m)
    && (forall k | 0 <= k < n :: s.book.sends[k] == Send((k + 1) % SEQ_SPACE, RoundOf(cfg, script, k).sentAt))
    && (forall k | 0 <= k < m :: s.rtts[k] == TripOf(cfg, script, k))
  }

  lemma {:induction false} SentTimed(cfg: PingConfig, script: Script, s: State, n: nat, m: nat)
    requires AllAnswered(cfg, script) && Timed(cfg, script, s, n, m) && n < Ahead(cfg) + |script.main|
    ensures Timed(cfg, script, Sent(s, RoundOf(cfg, script, n).sentAt), n + 1, m)
  {
  }

  lemma TimedIsSound(cfg: PingConfig, script: Script, s: State, n: nat, m: nat)
    requires AllAnswered(cfg, script) && Timed(cfg, script, s, n, m)
    ensures Sound(s)
  {
    CountBelow(m, s.book.answered);
  }

  lemma {:induction false} HeardTimed(cfg: PingConfig, script: Script, s: State, n: nat, m: nat, errorsCount: bool)
    requires AllAnswered(cfg, script) && Timed(cfg, script, s, n, m) && m < n <= m + SEQ_SPACE
    ensures Timed(cfg, script, Heard(s, RoundOf(cfg, script, m).received, errorsCount), n, m + 1)
  {
    var r := RoundOf(cfg, script, m).received;
    assert AnsweredAt(cfg, script, m);
    TimedIsSound(cfg, script, s, n, m);
    HeardCounts(s, r, errorsCount);
    assert Outstanding(s, m, r.seqNo);
  }

  lemma {:induction false} PreloadSendsTimed(cfg: PingConfig, script: Script, s: State, i: nat)
    requires AllAnswered(cfg, script) && !cfg.flood && i <= cfg.Preload() && Timed(cfg, script, s, i, 0)
    ensures Timed(cfg, script, PreloadSends(s, script, i, cfg.Preload()), cfg.Preload(), 0)
    decreases cfg.Preload() - i
  {
    if i < cfg.Preload() {
      SentTimed(cfg, script, s, i, 0);
      PreloadSendsTimed(cfg, script, Sent(s, script.preload(i).sentAt), i + 1);
    }
  }

  /** Nothing stops the reading of preload replies but the count. */
  ghost predicate PreloadQuiet(cfg: PingConfig, script: Script) {
    forall j: nat | j < MAX_PRELOAD ::
      !script.preload(j).interrupted && (cfg.deadline > 0 ==> script.preload(j).elapsed < cfg.deadline)
  }

  /** All preload replies are read when the count is not reached, and exactly one of them when it is. */
  lemma {:induction false} PreloadRepliesTimed(cfg: PingConfig, f: Family, script: Script, s: State, i: nat)
    requires AllAnswered(cfg, script) && !cfg.flood && PreloadQuiet(cfg, script) && i <= cfg.Preload()
    requires Timed(cfg, script, s, cfg.Preload(), i) && s.running
    ensures var t := PreloadReplies(cfg, f, s, script, i, cfg.Preload());
            if i < cfg.Preload() && CountReached(cfg, s) then Timed(cfg, script, t, cfg.Preload(), i + 1)
            else Timed(cfg, script, t, cfg.Preload(), cfg.Preload()) && t.running
    decreases cfg.Preload() - i
  {
    if i < cfg.Preload() {
      assert !script.preload(i).interrupted;
      HeardTimed(cfg, script, s, cfg.Preload(), i, f.V4?);
      var heard := Heard(s, script.preload(i).received, f.V4?);
      if !CountReached(cfg, s) {
        var next := if f.V4? then Checked(cfg, heard, script.preload(i).elapsed) else heard;
        PreloadRepliesTimed(cfg, f, script, next, i + 1);
      }
    }
  }

  lemma {:induction false} LoopTimed(cfg: PingConfig, f: Family, script: Script, s: State, i: nat)
    requires AllAnswered(cfg, script) && i <= |script.main|
    requires Timed(cfg, script, s, Ahead(cfg) + i, Ahead(cfg) + i)
    requires forall j | 0 <= j < |script.main| :: cfg.flood || !script.main[j].sendFails
    ensures var t := Loop(cfg, f, s, script.main[i..]); Timed(cfg, script, t, |t.book.sends|, |t.book.sends|)
    decreases |script.main| - i
  {
    if i < |script.main| {
      var k, round := Ahead(cfg) + i, script.main[i];
      assert RoundOf(cfg, script, k) == round;
      assert script.main[i..][0] == round && script.main[i..][1..] == script.main[i + 1..];
      SentTimed(cfg, script, s, k, k);
      HeardTimed(cfg, script, Sent(s, round.sentAt), k + 1, k, f.V4? || !cfg.flood);
      var (after, more) := OneRound(cfg, f, s, round);
      if more { LoopTimed(cfg, f, script, after, i + 1); }
    }
  }

  /** Whatever is still heard when everything has been answered, it changes nothing. */
  lemma {:induction false} ListenIdle(cfg: PingConfig, script: Script, s: State, replies: seq<Received>)
    requires AllAnswered(cfg, script) && Timed(cfg, script, s, |s.book.sends|, |s.book.sends|)
    ensures Listen(s, replies) == s
  {
    if replies != [] {
      var n := |replies| - 1;
      ListenIdle(cfg, script, s, replies[..n]);
      TimedIsSound(cfg, script, s, |s.book.sends|, |s.book.sends|);
      HeardCounts(s, replies[n], false);
    }
  }

  /**
   The purpose of the program: on an undisturbed network that answers every packet before the next
   one leaves, every send is counted as answered, in order and with its own round-trip time. The one
   exception: when the preloaded packets alone reach the count, exactly one of their replies is read.
   */
  lemma {:induction false} EveryReplyCounts(cfg: PingConfig, f: Family, script: Script)
    requires Undisturbed(cfg, script) && AllAnswered(cfg, script)
    ensures var s, c := Run(cfg, f, script), cfg.count.value;
            if Ahead(cfg) > 0 && Ahead(cfg) >= c then Timed(cfg, script, s, Ahead(cfg), 1)
            else Timed(cfg, script, s, Max(1, c), Max(1, c))
  {
    CountIsExact(cfg, f, script);
    UndisturbedParts(cfg, script);
    if cfg.flood {
      assert script.main[0..] == script.main;
      LoopTimed(cfg, f, script, Start(), 0);
    } else {
      PreloadSendsTimed(cfg, script, Start(), 0);
      var sends, loaded := PreloadSends(Start(), script, 0, cfg.Preload()), AfterPreload(cfg, f, script);
      PreloadSendsSound(Start(), script, 0, cfg.Preload());
      PreloadRepliesTimed(cfg, f, script, sends, 0);
      if !(cfg.Preload() > 0 && CountReached(cfg, sends)) {
        assert script.main[0..] == script.main;
        LoopTimed(cfg, f, script, loaded, 0);
        ListenIdle(cfg, script, Loop(cfg, f, loaded, script.main), script.listen);
      }
    }
  }

  lemma UndisturbedParts(cfg: PingConfig, script: Script)
    requires Undisturbed(cfg, script)
    ensures PreloadQuiet(cfg, script)
    ensures forall j | 0 <= j < |script.main| :: cfg.flood || !script.main[j].sendFails
  {
    forall j: nat | j < MAX_PRELOAD
      ensures !script.preload(j).interrupted && (cfg.deadline > 0 ==> script.preload(j).elapsed < cfg.deadline)
    {
      assert Quiet(cfg, script.preload(j).(sendFails := false));
    }
    forall j | 0 <= j < |script.main| ensures cfg.flood || !script.main[j].sendFails {
      assert Quiet(cfg, script.main[j]);
    }
  }

  // ---------------------------------------------------------------- the program

  class Session {
    const config: PingConfig
    const family: Family
    const status: PingStats
    var running: bool

    ghost predicate Valid()
      reads this, status
    {
      status.Valid()
    }

    ghost function Value(): State
      reads this, status
    {
      State(status.book, status.rtts, status.errors, running)
    }

    constructor (config: PingConfig, family: Family)
      ensures this.config == config && this.family == family && fresh(status)
      ensures Valid() && Value() == Start()
    {
      this.config, this.family := config, family;
      running := true;
      status := new PingStats();
    }

    method RecordSend(seqNo: U16, now: Instant)
      requires Valid() && seqNo == NextSeq(Value())
      modifies status
      ensures Valid() && Value() == Sent(old(Value()), now)
    {
      status.RecordSentTime(seqNo, now);
    }

    method TakeReply(r: Received, countErrors: bool)
      requires Valid()
      modifies status
      ensures Valid() && Value() == Heard(old(Value()), r, countErrors)
    {
      match r
      case EchoReply(seqNo, at) =>
        var sent := status.GetSentTime(seqNo);
        if sent.Some? {
          status.Update(Since(sent.value, at) as real);
        }
      case IcmpError =>
        if countErrors { status.RecordError(); }
      case OtherError =>
    }

    method TimeoutOrCountExit(elapsed: nat) returns (exit: bool)
      requires Valid()
      modifies this`running
      ensures Valid() && exit == Exits(config, Value(), elapsed)
      ensures Value() == Checked(config, old(Value()), elapsed)
    {
      if config.count.Some? && status.transmitted >= config.count.value {
        running := false;
        return true;
      }
      if config.deadline > 0 && elapsed >= config.deadline {
        running := false;
        return true;
      }
      exit := false;
    }

    method SendRequests(script: Script)
      requires Valid() && Value() == Start()
      modifies status
      ensures Valid() && Value() == PreloadSends(Start(), script, 0, config.Preload())
    {
      var startSeq: U16 := 1;
      for i := 0 to config.Preload()
        invariant Valid() && startSeq == NextSeq(Value())
        invariant PreloadSends(Value(), script, i, config.Preload()) ==
                  PreloadSends(Start(), script, 0, config.Preload())
      {
        SeqFollows(Value(), Sent(Value(), script.preload(i).sentAt));
        RecordSend(startSeq, script.preload(i).sentAt);
        startSeq := (startSeq + 1) % SEQ_SPACE;
      }
    }

    method ReceiveReplies(script: Script)
      requires Valid()
      modifies this`running, status
      ensures Valid()
      ensures Value() == PreloadReplies(config, family, old(Value()), script, 0, config.Preload())
    {
      for i := 0 to config.Preload()
        invariant Valid()
        invariant PreloadReplies(config, family, Value(), script, i, config.Preload()) ==
                  PreloadReplies(config, family, old(Value()), script, 0, config.Preload())
      {
        var round := script.preload(i);
        if round.interrupted { running := false; }
        if !running { break; }
        TakeReply(round.received, family.V4?);
        if family.V4? {
          var exit := TimeoutOrCountExit(round.elapsed);
          if exit { break; }
        } else if config.count.Some? && status.transmitted >= config.count.value {
          break;
        }
      }
    }

    /** One pass of the main loop or, with -f, of the flood loop. */
    method DoRound(round: Round, seqNo: U16) returns (more: bool)
      requires Valid() && seqNo == NextSeq(Value())
      modifies this`running, status
      ensures Valid() && (Value(), more) == OneRound(config, family, old(Value()), round)
    {
      if round.interrupted { running := false; }
      if !running { return false; }
      ghost var before := Value();
      RecordSend(seqNo, round.sentAt);
      ghost var sent := Value();
      assert sent == Sent(before, round.sentAt);
      if round.sendFails && !config.flood { return false; }
      TakeReply(round.received, family.V4? || !config.flood);
      ghost var heard := Value();
      assert heard == Heard(sent, round.received, family.V4? || !config.flood);
      var exit := TimeoutOrCountExit(round.elapsed);
      more := !exit;
      assert (Value(), more) == (Checked(config, heard, round.elapsed), !Exits(config, heard, round.elapsed));
    }

    /** The main or the flood loop; `first` is the number of its first packet. */
    method SendLoop(first: U16, rounds: seq<Round>)
      requires Valid() && first == NextSeq(Value())
      modifies this`running, status
      ensures Valid() && Value() == Loop(config, family, old(Value()), rounds)
    {
      var seqNo := first;
      ghost var result := Loop(config, family, Value(), rounds);
      assert rounds[0..] == rounds;
      for i := 0 to |rounds|
        invariant Valid() && seqNo == NextSeq(Value())
        invariant Loop(config, family, Value(), rounds[i..]) == result
      {
        LoopFrom(config, family, Value(), rounds, i);
        var more := DoRound(rounds[i], seqNo);
        if !more { return; }
        seqNo := (seqNo + 1) % SEQ_SPACE;
      }
      running := false;
    }

    method FinalListen(replies: seq<Received>)
      requires Valid()
      modifies status
      ensures Valid() && Value() == Listen(old(Value()), replies)
    {
      for i := 0 to |replies|
        invariant Valid() && Value() == Listen(old(Value()), replies[..i])
      {
        TakeReply(replies[i], false);
        assert replies[..i + 1][..i] == replies[..i];
      }
      assert replies[..|replies|] == replies;
    }

    /** Preloading, if asked for; `exit` when that already ends the run. */
    method PreloadPhase(script: Script) returns (exit: bool)
      requires Valid() && Value() == Start()
      modifies this`running, status
      ensures Valid()
      ensures var loaded := AfterPreload(config, family, script);
              && exit == (config.Preload() > 0 && Exits(config, loaded, script.afterPreload))
              && Value() == if exit then Checked(config, loaded, script.afterPreload) else loaded
    {
      exit := false;
      if config.Preload() > 0 {
        SendRequests(script);
        ReceiveReplies(script);
        exit := TimeoutOrCountExit(script.afterPreload);
      }
    }

    /** The main loop, numbered on from the preloaded packets, and what follows it. */
    method MainPhase(script: Script)
      requires Valid() && Value() == AfterPreload(config, family, script)
      modifies this`running, status
      ensures Valid()
      ensures var done := Loop(config, family, AfterPreload(config, family, script), script.main);
              Value() == if family.V4? then Listen(done, script.listen) else done
    {
      NumberAfterPreload(config, family, script);
      SendLoop(config.Preload() + 1, script.main);
      if family.V4? { FinalListen(script.listen); }
    }

    method RunToEnd(script: Script)
      requires Valid() && Value() == Start()
      modifies this`running, status
      ensures Valid() && Value() == Run(config, family, script)
    {
      if config.flood {
        SendLoop(1, script.main);
        return;
      }
      var exit := PreloadPhase(script);
      if !exit { MainPhase(script); }
    }
  }

  /** A whole run: what it prints, and how many sends are still outstanding when it does. */
  method Ping(cfg: PingConfig, f: Family, script: Script) returns (r: Report, outstanding: nat)
    ensures Describes(r, Run(cfg, f, script).rtts)
    ensures r.transmitted == |Run(cfg, f, script).book.sends| && r.errors == Run(cfg, f, script).errors
    ensures r.received + outstanding <= r.transmitted
    ensures r.transmitted <= SEQ_SPACE ==> r.received + outstanding == r.transmitted
  {
    var session := new Session(cfg, f);
    session.RunToEnd(script);
    RunConserves(cfg, f, script);
    session.status.Conserved();
    r := session.status.Summary();
    outstanding := |session.status.sentTimes|;
  }

  // ---------------------------------------------------------------- node information queries

  /** One pass of the query loop; `answered` means a node information reply, not an echo of the query. */
  datatype Query = Query(interrupted: bool, sent: bool, answered: bool)

  function Successes(queries: seq<Query>): (n: nat)
    ensures n <= |queries|
  {
    if queries == [] then 0
    else Successes(queries[..|queries| - 1]) + (if queries[|queries| - 1].sent then 1 else 0)
  }

  function Answers(queries: seq<Query>): (n: nat)
    ensures n <= Successes(queries)
  {
    if queries == [] then 0
    else
      var last := queries[|queries| - 1];
      Answers(queries[..|queries| - 1]) + (if last.sent && last.answered then 1 else 0)
  }

  function SentQueries(queries: seq<Query>): set<int> {
    set i | 0 <= i < |queries| && queries[i].sent
  }

  function AnsweredQueries(queries: seq<Query>): set<int> {
    set i | 0 <= i < |queries| && queries[i].sent && queries[i].answered
  }

  lemma QuerySetsSnoc(queries: seq<Query>, q: Query)
    ensures SentQueries(queries + [q]) == SentQueries(queries) + if q.sent then {|queries|} else {}
    ensures AnsweredQueries(queries + [q]) ==
            AnsweredQueries(queries) + if q.sent && q.answered then {|queries|} else {}
  {
  }

  /** What is counted: the passes whose query left, and those of them that were answered. */
  lemma {:induction false} QueriesCounted(queries: seq<Query>)
    ensures Successes(queries) == |SentQueries(queries)|
    ensures Answers(queries) == |AnsweredQueries(queries)|
  {
    if queries != [] {
      var n := |queries| - 1;
      QueriesCounted(queries[..n]);
      QuerySetsSnoc(queries[..n], queries[n]);
      assert queries == queries[..n] + [queries[n]];
    }
  }

  /**
   The query loop checks the count before it sends, so it never exceeds it, not even for count 0,
   and it stops at the first of: the count, an interrupt, the end of the script. Failed sends are
   retried without being counted, and at most one reply is counted for each send.
   */
  method RunNodeinfoQuery(count: Option<nat>, queries: seq<Query>) returns (transmitted: nat, received: nat, n: nat)
    ensures n <= |queries| && (forall i | 0 <= i < n :: !queries[i].interrupted)
    ensures transmitted == Successes(queries[..n]) && received == Answers(queries[..n]) <= transmitted
    ensures count.Some? ==> transmitted <= count.value
    ensures n < |queries| && !queries[n].interrupted ==> count == Some(transmitted)
  {
    transmitted, received, n := 0, 0, 0;
    while n < |queries| && !queries[n].interrupted
      invariant n <= |queries| && (forall i | 0 <= i < n :: !queries[i].interrupted)
      invariant transmitted == Successes(queries[..n]) && received == Answers(queries[..n])
      invariant count.Some? ==> transmitted <= count.value
    {
      if count.Some? && transmitted >= count.value { break; }
      assert queries[..n + 1][..n] == queries[..n];
      if queries[n].sent {
        transmitted := transmitted + 1;
        if queries[n].answered { received := received + 1; }
      }
      n := n + 1;
    }
  }
}
