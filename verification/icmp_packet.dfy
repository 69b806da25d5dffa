/**
 The ICMP echo request ping builds (RFC 792) and its Internet checksum (RFC 1071).
 */
module IcmpPacket {
  import opened Basics

  const ECHO_REQUEST: U8 := 8
  const HEADER_LEN := 8
  const TIMEVAL_LEN := 16
  const CHECKSUM_WORD := 1

  // ---------------------------------------------------------------- one's-complement arithmetic

  /** The i-th 16-bit word of a packet; a last odd byte counts as the high half of a word. */
  function WordAt(bytes: Bytes, i: nat): (w: nat)
    requires 2 * i < |bytes|
    ensures w < 0x1_0000
  {
    bytes[2 * i] * 0x100 + if 2 * i + 1 < |bytes| then bytes[2 * i + 1] as int else 0
  }

  function Words(bytes: Bytes): nat { (|bytes| + 1) / 2 }

  /** The sum of the first n words, leaving out word `skip`. */
  function WordSum(bytes: Bytes, n: nat, skip: int): nat
    requires n <= Words(bytes)
  {
    if n == 0 then 0
    else WordSum(bytes, n - 1, skip) + if n - 1 == skip then 0 else WordAt(bytes, n - 1)
  }

  /** Add the carries back in until none is left. */
  function Fold(sum: nat): (r: nat)
    ensures r < 0x1_0000
    decreases sum
  {
    if sum < 0x1_0000 then sum else Fold(sum / 0x1_0000 + sum % 0x1_0000)
  }

  /** Folding keeps the residue modulo 65535, and reaches 0 only from 0. */
  lemma {:induction false} FoldResidue(sum: nat)
    ensures Fold(sum) % 0xFFFF == sum % 0xFFFF
    ensures Fold(sum) == 0 <==> sum == 0
    decreases sum
  {
    if sum >= 0x1_0000 {
      FoldResidue(sum / 0x1_0000 + sum % 0x1_0000);
      Carry(sum / 0x1_0000, sum % 0x1_0000);
    }
  }

  lemma Carry(high: nat, low: nat)
    ensures (high * 0x1_0000 + low) % 0xFFFF == (high + low) % 0xFFFF
  {
    assert high * 0x1_0000 + low == high * 0xFFFF + (high + low);
    AddMultiple(high + low, high);
  }

  lemma {:induction false} AddMultiple(x: nat, k: nat)
    ensures (k * 0xFFFF + x) % 0xFFFF == x % 0xFFFF
  {
    if k > 0 {
      AddMultiple(x, k - 1);
      assert k * 0xFFFF + x == ((k - 1) * 0xFFFF + x) + 0xFFFF;
    }
  }

  lemma SameResidue(x: nat, y: nat)
    requires x % 0xFFFF == y % 0xFFFF
    ensures (x + (0xFFFF - y)) % 0xFFFF == 0
  {
  }

  lemma {:induction false} FullFold(total: nat)
    requires total > 0 && total % 0xFFFF == 0
    ensures Fold(total) == 0xFFFF
  {
    FoldResidue(total);
  }

  /** A sum and the complement of its fold always fold to 0xFFFF together. */
  lemma ComplementCancels(sum: nat)
    ensures Fold(sum + (0xFFFF - Fold(sum))) == 0xFFFF
  {
    FoldResidue(sum);
    SameResidue(sum, Fold(sum));
    FullFold(sum + (0xFFFF - Fold(sum)));
  }

  /** A receiver accepts a packet whose words, checksum included, fold to 0xFFFF. */
  predicate Accepted(bytes: Bytes) {
    Fold(WordSum(bytes, Words(bytes), -1)) == 0xFFFF
  }

  /** The sum of all words is the sum without one of them plus that one. */
  lemma {:induction false} SkippedWord(bytes: Bytes, n: nat, skip: nat)
    requires n <= Words(bytes) && 2 * skip < |bytes|
    ensures WordSum(bytes, n, -1) == WordSum(bytes, n, skip) + if skip < n then WordAt(bytes, skip) else 0
  {
    if n > 0 { SkippedWord(bytes, n - 1, skip); }
  }

  /** The sum without a word does not depend on that word. */
  lemma {:induction false} SkipIgnores(bytes: Bytes, bytes': Bytes, n: nat, skip: nat)
    requires |bytes| == |bytes'| && n <= Words(bytes)
    requires forall i | 0 <= i < |bytes| && i / 2 != skip :: bytes[i] == bytes'[i]
    ensures WordSum(bytes, n, skip) == WordSum(bytes', n, skip)
  {
    if n > 0 {
      SkipIgnores(bytes, bytes', n - 1, skip);
      if n - 1 != skip {
        assert (2 * (n - 1)) / 2 == n - 1 && (2 * (n - 1) + 1) / 2 == n - 1;
      }
    }
  }

  /** The sum of the bytes at even positions, and at odd ones. */
  function EvenSum(bytes: Bytes): nat {
    if bytes == [] then 0 else bytes[0] + OddSum(bytes[1..])
  }

  function OddSum(bytes: Bytes): nat {
    if bytes == [] then 0 else EvenSum(bytes[1..])
  }

  lemma {:induction false} ByteSumsSnoc(bytes: Bytes, b: U8)
    ensures EvenSum(bytes + [b]) == EvenSum(bytes) + if |bytes| % 2 == 0 then b else 0
    ensures OddSum(bytes + [b]) == OddSum(bytes) + if |bytes| % 2 == 1 then b else 0
  {
    if bytes != [] {
      assert (bytes + [b])[1..] == bytes[1..] + [b];
      ByteSumsSnoc(bytes[1..], b);
    }
  }

  /** Two bytes more are one word more, the first of them its high half. */
  lemma {:induction false} ByteSumsPair(bytes: Bytes, i: nat)
    requires 2 * i + 1 < |bytes|
    ensures EvenSum(bytes[..2 * i + 2]) == EvenSum(bytes[..2 * i]) + bytes[2 * i]
    ensures OddSum(bytes[..2 * i + 2]) == OddSum(bytes[..2 * i]) + bytes[2 * i + 1]
  {
    assert bytes[..2 * i + 1] == bytes[..2 * i] + [bytes[2 * i]];
    assert bytes[..2 * i + 2] == bytes[..2 * i + 1] + [bytes[2 * i + 1]];
    ByteSumsSnoc(bytes[..2 * i], bytes[2 * i]);
    ByteSumsSnoc(bytes[..2 * i + 1], bytes[2 * i + 1]);
  }

  lemma {:induction false} WholeWords(bytes: Bytes, n: nat)
    requires 2 * n <= |bytes|
    ensures WordSum(bytes, n, -1) == 256 * EvenSum(bytes[..2 * n]) + OddSum(bytes[..2 * n])
  {
    if n > 0 {
      WholeWords(bytes, n - 1);
      ByteSumsPair(bytes, n - 1);
    }
  }

  /** The sum of a packet by its bytes: those at even positions, a last odd one included, weigh 256. */
  lemma {:induction false} SumByBytes(bytes: Bytes)
    ensures WordSum(bytes, Words(bytes), -1) == 256 * EvenSum(bytes) + OddSum(bytes)
  {
    var n := |bytes| / 2;
    WholeWords(bytes, n);
    if |bytes| % 2 == 0 {
      assert bytes[..2 * n] == bytes;
    } else {
      assert bytes == bytes[..2 * n] + [bytes[2 * n]];
      ByteSumsSnoc(bytes[..2 * n], bytes[2 * n]);
    }
  }

  lemma {:induction false} PaddedPrefix(bytes: Bytes, n: nat, skip: int)
    requires |bytes| % 2 == 1 && n <= Words(bytes)
    ensures WordSum(bytes, n, skip) == WordSum(bytes + [0], n, skip)
  {
    if n > 0 { PaddedPrefix(bytes, n - 1, skip); }
  }

  /** An odd packet is summed as if a zero byte followed (section 1 of RFC 1071). */
  lemma {:induction false} OddIsPadded(bytes: Bytes, skip: int)
    requires |bytes| % 2 == 1
    ensures WordSum(bytes, Words(bytes), skip) == WordSum(bytes + [0], Words(bytes + [0]), skip)
    ensures Accepted(bytes) <==> Accepted(bytes + [0])
  {
    PaddedPrefix(bytes, Words(bytes), skip);
    PaddedPrefix(bytes, Words(bytes), -1);
  }

  method Checksum(bytes: Bytes, skip: nat) returns (c: U16)
    ensures c == 0xFFFF - Fold(WordSum(bytes, Words(bytes), skip))
  {
    var sum := 0;
    for i := 0 to Words(bytes)
      invariant sum == WordSum(bytes, i, skip)
    {
      if i != skip { sum := sum + WordAt(bytes, i); }
    }
    while sum / 0x1_0000 != 0
      invariant sum >= 0 && Fold(sum) == Fold(WordSum(bytes, Words(bytes), skip))
      decreases sum
    {
      sum := sum / 0x1_0000 + sum % 0x1_0000;
    }
    c := 0xFFFF - sum;
  }

  // ---------------------------------------------------------------- the payload

  /** The wall clock in the machine's own byte order: a whole `timeval`, and its two halves as 32-bit words. */
  datatype Clock = Clock(timeval: Bytes, secs: Bytes, usecs: Bytes)
  {
    predicate Valid() { |timeval| == TIMEVAL_LEN && |secs| == 4 && |usecs| == 4 }
  }

  /** The time prefix that fits into a payload of `size` bytes; no clock, no prefix. */
  function TimePrefix(clock: Option<Clock>, size: nat): (prefix: Bytes)
    requires clock.Some? ==> clock.value.Valid()
    ensures |prefix| <= size
  {
    if clock.None? then []
    else if size >= TIMEVAL_LEN then clock.value.timeval
    else if size >= 8 then clock.value.secs + clock.value.usecs
    else if size >= 4 then clock.value.secs
    else clock.value.secs[..size]
  }

  /** The prefix in words: how long it is, and of what it is the beginning. */
  lemma PrefixOfTime(clock: Clock, size: nat)
    requires clock.Valid()
    ensures var prefix := TimePrefix(Some(clock), size);
            && |prefix| == (if size >= 16 then 16 else if size >= 8 then 8 else Min(size, 4))
            && prefix <= if size >= 16 then clock.timeval else clock.secs + clock.usecs
  {
  }

  /** The default payload: the prefix, then bytes counting up from 0x10. */
  ghost predicate CountsUp(payload: Bytes, prefix: Bytes, upto: nat) {
    && |prefix| <= upto <= |payload|
    && payload[..|prefix|] == prefix
    && forall i | |prefix| <= i < upto :: payload[i] == (0x10 + (i - |prefix|)) % 0x100
  }

  lemma CountsUpSnoc(payload: Bytes, prefix: Bytes, i: nat, b: U8)
    requires CountsUp(payload, prefix, i) && i < |payload| && b == (0x10 + (i - |prefix|) % 0x100) % 0x100
    ensures CountsUp(payload[i := b], prefix, i + 1)
  {
    assert payload[i := b][..|prefix|] == payload[..|prefix|];
    assert b == (0x10 + (i - |prefix|)) % 0x100;
  }

  datatype IcmpEchoRequest = IcmpEchoRequest(sequence: U16, identifier: U16, payload: Bytes)

  method FillTimePrefix(payload: array<U8>, clock: Option<Clock>) returns (n: nat)
    requires clock.Some? ==> clock.value.Valid()
    modifies payload
    ensures n == |TimePrefix(clock, payload.Length)| <= payload.Length
    ensures payload[..n] == TimePrefix(clock, payload.Length)
  {
    if payload.Length == 0 || clock.None? { return 0; }
    var prefix :=
      if payload.Length >= TIMEVAL_LEN then clock.value.timeval
      else if payload.Length >= 8 then clock.value.secs + clock.value.usecs
      else clock.value.secs[..if payload.Length < 4 then payload.Length else 4];
    n := |prefix|;
    assert prefix == TimePrefix(clock, payload.Length);
    for i := 0 to n
      invariant payload[..i] == prefix[..i]
    {
      payload[i] := prefix[i];
    }
    assert payload[..n] == prefix[..n] == prefix;
  }

  method NewEchoRequest(sequence: U16, identifier: U16, size: nat, clock: Option<Clock>) returns (r: IcmpEchoRequest)
    requires clock.Some? ==> clock.value.Valid()
    ensures r.sequence == sequence && r.identifier == identifier && |r.payload| == size
    ensures CountsUp(r.payload, TimePrefix(clock, size), size)
  {
    var payload := new U8[size](_ => 0);
    var prefixLen := FillTimePrefix(payload, clock);
    for i := prefixLen to size
      invariant CountsUp(payload[..], TimePrefix(clock, size), i)
    {
      ghost var before := payload[..];
      payload[i] := (0x10 + (i - prefixLen) % 0x100) % 0x100;
      assert payload[..] == before[i := payload[i]];
      CountsUpSnoc(before, TimePrefix(clock, size), i, payload[i]);
    }
    r := IcmpEchoRequest(sequence, identifier, payload[..]);
  }

  // ---------------------------------------------------------------- the packet

  /** `pattern` over and over, as far as `n` bytes. */
  ghost predicate Repeats(bytes: Bytes, pattern: Bytes) {
    pattern != [] && forall i | 0 <= i < |bytes| :: bytes[i] == pattern[i % |pattern|]
  }

  /** The layout of an echo request, all but its checksum. */
  ghost predicate Carries(packet: Bytes, r: IcmpEchoRequest, pattern: Bytes) {
    && |packet| == HEADER_LEN + |r.payload|
    && packet[0] == ECHO_REQUEST && packet[1] == 0
    && WordAt(packet, 2) == r.identifier && WordAt(packet, 3) == r.sequence
    && (if pattern == [] then packet[HEADER_LEN..] == r.payload else Repeats(packet[HEADER_LEN..], pattern))
  }

  /** The checksum field is the complement of the folded sum of the other words. */
  ghost predicate Summed(packet: Bytes) {
    |packet| >= 4 && WordAt(packet, CHECKSUM_WORD) == 0xFFFF - Fold(WordSum(packet, Words(packet), CHECKSUM_WORD))
  }

  lemma SummedIsAccepted(packet: Bytes)
    requires Summed(packet)
    ensures Accepted(packet)
  {
    var rest := WordSum(packet, Words(packet), CHECKSUM_WORD);
    SkippedWord(packet, Words(packet), CHECKSUM_WORD);
    ComplementCancels(rest);
  }

  method PutWord(buffer: array<U8>, at: nat, w: U16)
    requires at + 2 <= buffer.Length
    modifies buffer
    ensures buffer[at] == w / 0x100 && buffer[at + 1] == w % 0x100
    ensures forall i | 0 <= i < buffer.Length && i != at && i != at + 1 :: buffer[i] == old(buffer[i])
  {
    buffer[at] := w / 0x100;
    buffer[at + 1] := w % 0x100;
  }

  method FillPayload(buffer: array<U8>, payload: Bytes, pattern: Bytes)
    requires buffer.Length == HEADER_LEN + |payload|
    modifies buffer
    ensures forall i | 0 <= i < HEADER_LEN :: buffer[i] == old(buffer[i])
    ensures if pattern == [] then buffer[HEADER_LEN..] == payload else Repeats(buffer[HEADER_LEN..], pattern)
  {
    for i := 0 to |payload|
      invariant forall j | 0 <= j < HEADER_LEN :: buffer[j] == old(buffer[j])
      invariant forall j | 0 <= j < i :: buffer[HEADER_LEN + j] == payload[j]
    {
      buffer[HEADER_LEN + i] := payload[i];
    }
    if pattern != [] {
      for i := 0 to |payload|
        invariant forall j | 0 <= j < HEADER_LEN :: buffer[j] == old(buffer[j])
        invariant forall j | 0 <= j < i :: buffer[HEADER_LEN + j] == pattern[j % |pattern|]
      {
        buffer[HEADER_LEN + i] := pattern[i % |pattern|];
      }
    }
  }

  /** Writing the checksum word, and nothing else, completes the packet. */
  lemma {:induction false} ChecksumCompletes(before: Bytes, packet: Bytes, checksum: U16, r: IcmpEchoRequest, pattern: Bytes)
    requires Carries(before, r, pattern) && |packet| == |before|
    requires checksum == 0xFFFF - Fold(WordSum(before, Words(before), CHECKSUM_WORD))
    requires packet[2] == checksum / 0x100 && packet[3] == checksum % 0x100
    requires forall i | 0 <= i < |packet| && i != 2 && i != 3 :: packet[i] == before[i]
    ensures Carries(packet, r, pattern) && Summed(packet)
  {
    assert packet[HEADER_LEN..] == before[HEADER_LEN..];
    SkipIgnores(before, packet, Words(packet), CHECKSUM_WORD);
  }

  /** The checksum comes last, over the payload as it is sent. */
  method BuildPacket(r: IcmpEchoRequest, pattern: Bytes) returns (packet: Bytes)
    ensures Carries(packet, r, pattern)
    ensures Summed(packet) && Accepted(packet)
  {
    var buffer := new U8[HEADER_LEN + |r.payload|](_ => 0);
    buffer[0] := ECHO_REQUEST;
    PutWord(buffer, 6, r.sequence);
    PutWord(buffer, 4, r.identifier);
    FillPayload(buffer, r.payload, pattern);
    ghost var before := buffer[..];
    assert before[HEADER_LEN..] == buffer[HEADER_LEN..];
    var checksum := Checksum(buffer[..], CHECKSUM_WORD);
    PutWord(buffer, 2, checksum);
    packet := buffer[..];
    ChecksumCompletes(before, packet, checksum, r, pattern);
    SummedIsAccepted(packet);
  }
}
