/**
 The unbounded send log that tracepath's 64-slot history ring stands for.

 Nothing here mentions slots being overwritten: every successful probe stays in `probes`
 for ever. A reply is attributed by asking for the newest probe that used the reply's port.
 */
module SendLogs {
  import opened Basics

  const HIS_ARRAY_SIZE := 64

  /** One successful probe. */
  datatype Probe = Probe(ttl: U8, port: U16, time: Instant)

  /** The newest `k < n` with `k % 64 == slot`. */
  function Newest(n: nat, slot: nat): (k: Option<nat>)
    ensures k.Some? ==> k.value < n && k.value % HIS_ARRAY_SIZE == slot && n <= k.value + HIS_ARRAY_SIZE
    ensures k.None? && slot < HIS_ARRAY_SIZE ==> n <= slot
  {
    if n == 0 then None
    else if (n - 1) % HIS_ARRAY_SIZE == slot then Some(n - 1)
    else Newest(n - 1, slot)
  }

  /** A send is the newest one in its slot exactly while fewer than 64 sends followed it. */
  lemma {:induction false} NewestIffRecent(n: nat, k: nat)
    requires k < n
    ensures Newest(n, k % HIS_ARRAY_SIZE) == Some(k) <==> n - k <= HIS_ARRAY_SIZE
  {
    if n - 1 > k && n - k <= HIS_ARRAY_SIZE {
      OtherSlot(k, n - 1);
      NewestIffRecent(n - 1, k);
    }
  }

  lemma OtherSlot(k: nat, j: nat)
    requires k < j < k + HIS_ARRAY_SIZE
    ensures j % HIS_ARRAY_SIZE != k % HIS_ARRAY_SIZE
  {
  }

  /**
   `pmtu` is the send time of the oversized discovery packet, which occupies the first
   probe's port until the first probe goes out.
   */
  datatype SendLog = SendLog(
    base: U16,
    ttl: U8,
    probes: seq<Probe>,
    answered: set<nat>,
    pmtu: Option<Instant>,
    lastSend: Option<Instant>)
  {
    /** The port of probe number `k`; 16-bit addition wraps. */
    function PortOf(k: nat): U16 {
      (base + k % HIS_ARRAY_SIZE) % 0x1_0000
    }

    function Record(time: Instant): SendLog {
      this.(probes := probes + [Probe(ttl, PortOf(|probes|), time)], pmtu := None, lastSend := Some(time))
    }

    /** Which TTL and round-trip time a queue message naming `port` is reported with. */
    function Lookup(port: U16, recv: Instant): Attribution {
      if port == 0 then
        Attribution(ttl, if lastSend.Some? then Since(lastSend.value, recv) else 0, this)
      else if base <= port < base + HIS_ARRAY_SIZE then
        if probes == [] && port == base && pmtu.Some? then
          Attribution(1, Since(pmtu.value, recv), this.(pmtu := None))
        else
          match Newest(|probes|, port - base)
          case Some(k) =>
            if k in answered then Attribution(ttl, 0, this)
            else Attribution(probes[k].ttl, Since(probes[k].time, recv), this.(answered := answered + {k}))
          case None => Attribution(ttl, 0, this)
      else
        Attribution(ttl, 0, this)
    }

    ghost predicate WellFormed() {
      && (forall k | k in answered :: k < |probes|)
      && (forall k | 0 <= k < |probes| :: probes[k].port == PortOf(k))
    }
  }

  datatype Attribution = Attribution(ttl: U8, rtt: nat, log: SendLog)

  /**
   The exact attribution theorem. A message naming the port of the still unanswered probe `k`
   answers probe `k` if and only if `k` is one of the last 64 probes and its port number neither
   wrapped past 65535 nor came out as 0.
   */
  lemma AttributedIffRecent(log: SendLog, k: nat, recv: Instant)
    requires log.WellFormed() && k < |log.probes| && k !in log.answered
    ensures var a := log.Lookup(log.probes[k].port, recv);
            && (a.log.answered == log.answered + {k} <==>
                  |log.probes| - k <= HIS_ARRAY_SIZE && 0 < log.base + k % HIS_ARRAY_SIZE < 0x1_0000)
            && (a.log.answered == log.answered + {k} ==>
                  a.ttl == log.probes[k].ttl && a.rtt == Since(log.probes[k].time, recv))
  {
    NewestIffRecent(|log.probes|, k);
    PortNames(log, k);
    var a := log.Lookup(log.probes[k].port, recv);
    assert k in log.answered + {k};
  }

  /** A port leads back to the slot it was computed from unless it has wrapped; a wrapped one leads nowhere. */
  lemma PortNames(log: SendLog, k: nat)
    requires log.WellFormed() && k < |log.probes|
    ensures var port := log.probes[k].port;
            if log.base + k % HIS_ARRAY_SIZE < 0x1_0000 then port == log.base + k % HIS_ARRAY_SIZE
            else 0 <= port < log.base
  {
    assert log.probes[k].port == log.PortOf(k);
  }

  /**
   Every other message is charged to the current TTL and changes nothing: one that names a port no
   probe has used, or only answered ones, with time zero, and one without a port with the time since
   the last send.
   */
  lemma ChargedToCurrent(log: SendLog, port: U16, recv: Instant)
    requires log.WellFormed() && log.probes != []
    requires port == 0 || forall k | 0 <= k < |log.probes| :: log.probes[k].port == port ==> k in log.answered
    requires log.base <= 65472
    ensures var a := log.Lookup(port, recv);
            && a.ttl == log.ttl && a.log == log
            && a.rtt == if port == 0 && log.lastSend.Some? then Since(log.lastSend.value, recv) else 0
  {
    if port != 0 && log.base <= port < log.base + HIS_ARRAY_SIZE {
      var k := Newest(|log.probes|, port - log.base);
      if k.Some? { assert log.probes[k.value].port == log.PortOf(k.value) == port; }
    }
  }

  /** Before the first probe, the one message that names the first port answers the discovery packet, once. */
  lemma DiscoveryAnsweredOnce(log: SendLog, recv: Instant)
    requires log.probes == [] && 0 < log.base && log.pmtu.Some?
    ensures var a := log.Lookup(log.base, recv);
            && a.ttl == 1 && a.rtt == Since(log.pmtu.value, recv)
            && a.log.Lookup(log.base, recv) == Attribution(log.ttl, 0, a.log)
  {
  }

  /** With a base port of at most 65472 no probe port ever wraps; above it, probe 63 at the latest does. */
  lemma PortsFitIff(log: SendLog)
    ensures (forall k: nat :: log.PortOf(k) == log.base + k % HIS_ARRAY_SIZE) <==> log.base <= 65472
  {
    if log.base > 65472 {
      assert log.PortOf(63) != log.base + 63 % HIS_ARRAY_SIZE;
    }
  }

  /** A stale reply is not dropped: it is charged to the newer probe that took over its port. */
  lemma StaleReplyChargedToNewer(log: SendLog, k: nat, recv: Instant) returns (j: nat)
    requires log.WellFormed() && k < |log.probes| && |log.probes| - k > HIS_ARRAY_SIZE
    requires 0 < log.base <= 65472
    ensures k < j < |log.probes| && j % HIS_ARRAY_SIZE == k % HIS_ARRAY_SIZE
    ensures |log.probes| - j <= HIS_ARRAY_SIZE
    ensures var a := log.Lookup(log.probes[k].port, recv);
            if j in log.answered then a == Attribution(log.ttl, 0, log)
            else a.ttl == log.probes[j].ttl && a.log.answered == log.answered + {j}
  {
    PortNames(log, k);
    NewestIffRecent(|log.probes|, k);
    var newest := Newest(|log.probes|, k % HIS_ARRAY_SIZE);
    assert newest.Some?;
    j := newest.value;
  }

  /** With 65 sends since, the reply to an old probe is charged to the newest one. */
  lemma OneTooLate(log: SendLog, k: nat, recv: Instant)
    requires log.WellFormed() && 0 < log.base <= 65472 && log.answered == {} && |log.probes| == k + 65
    ensures log.probes[k].port == log.base + k % HIS_ARRAY_SIZE
    ensures log.Lookup(log.probes[k].port, recv).ttl == log.probes[k + 64].ttl
  {
    assert log.probes[k].port == log.PortOf(k);
    var j := StaleReplyChargedToNewer(log, k, recv);
    NextInSlot(k, j);
  }

  lemma NextInSlot(k: nat, j: nat)
    requires k < j <= k + 64 && j % HIS_ARRAY_SIZE == k % HIS_ARRAY_SIZE
    ensures j == k + 64
  {
  }
}
