/**
 Ping's printing of the IPv4 timestamp option (RFC 781): one absolute timestamp, then differences.
 Routers are modelled by the stamps they add to the option the program asks for.
 */
module TimestampOption {
  import opened Basics
  import opened IpOptions
  import opened RecordRoute

  /** Four bytes in network order. */
  function FromBeBytes(a: int, b: int, c: int, d: int): int {
    a * 0x100_0000 + b * 0x1_0000 + c * 0x100 + d
  }

  /** A big-endian 32-bit word. */
  function Word(bytes: Bytes, i: nat): (w: nat)
    requires i + 4 <= |bytes|
    ensures w < 0x1_0000_0000
  {
    FromBeBytes(bytes[i], bytes[i + 1], bytes[i + 2], bytes[i + 3])
  }

  function WordBytes(w: nat): (bytes: Bytes)
    requires w < 0x1_0000_0000
    ensures |bytes| == 4
  {
    [w / 0x100_0000, w / 0x1_0000 % 0x100, w / 0x100 % 0x100, w % 0x100]
  }

  lemma WordRoundTrip(w: nat)
    requires w < 0x1_0000_0000
    ensures Word(WordBytes(w), 0) == w
  {
    var high := w / 0x100;
    assert w / 0x1_0000 == high / 0x100 && w / 0x100_0000 == high / 0x100 / 0x100;
  }

  function Flag(option: Bytes): nat
    requires |option| >= 4
  {
    option[3] % 16
  }

  /** The width of one entry: a timestamp, or an address and a timestamp. */
  function Width(flag: nat): nat {
    if flag == 0 then 4 else 8
  }

  /** How much of the option the program trusts: its length byte, but never more than there is. */
  function EffectiveLen(option: Bytes): nat
    requires |option| >= 4
  {
    Min(option[1], |option|)
  }

  predicate Printable(option: Bytes) {
    |option| >= 4 && EffectiveLen(option) >= 4 && Flag(option) <= 1
  }

  /** How many entries are below the pointer and inside the option. */
  function Filled(option: Bytes): (n: nat)
    requires Printable(option)
    ensures 4 + n * Width(Flag(option)) <= EffectiveLen(option)
  {
    var w := Width(Flag(option));
    var clamped := Min(option[2], option[1] as int + 1);
    Min((if clamped < 5 then 0 else clamped - 5) / w, (EffectiveLen(option) - 4) / w)
  }

  /** On any bytes, entry i counts exactly when it lies wholly inside the option and wholly below the pointer. */
  lemma FilledIff(option: Bytes, i: nat)
    requires Printable(option)
    ensures var w := Width(Flag(option));
            i < Filled(option) <==>
            4 + (i + 1) * w <= EffectiveLen(option) && 5 + (i + 1) * w <= Min(option[2], option[1] as int + 1)
  {
  }

  datatype Entry = Entry(addr: Option<Ip>, time: nat)

  /** Entry number i as a router recorded it. */
  function Recorded(option: Bytes, i: nat): Entry
    requires Printable(option) && 4 + (i + 1) * Width(Flag(option)) <= |option|
  {
    if Flag(option) == 0 then Entry(None, Word(option, 4 + i * 4))
    else Entry(Some(IpAt(option, 4 + i * 8)), Word(option, 8 + i * 8))
  }

  datatype Line = Absolute(addr: Option<Ip>, time: nat) | Delta(addr: Option<Ip>, diff: int)

  /** Adding the printed differences up again. */
  function Decoded(lines: seq<Line>, i: nat): int
    requires i < |lines|
  {
    match lines[i]
    case Absolute(_, time) => time
    case Delta(_, diff) => diff + if i == 0 then 0 else Decoded(lines, i - 1)
  }

  lemma {:induction false} DecodedPrefix(lines: seq<Line>, more: seq<Line>, i: nat)
    requires i < |lines|
    ensures Decoded(lines + more, i) == Decoded(lines, i)
  {
    if i > 0 { DecodedPrefix(lines, more, i - 1); }
  }

  /**
   The printed lines give the recorded entries back: one line each, the first absolute and the
   others relative, with running sums equal to the recorded timestamps.
   */
  ghost predicate Tells(lines: seq<Line>, option: Bytes, n: nat)
    requires Printable(option) && n <= Filled(option)
  {
    && |lines| == n
    && (forall i | 0 <= i < n :: lines[i].Absolute? <==> i == 0)
    && (forall i | 0 <= i < n :: Decoded(lines, i) == RecordedIn(option, i).time && lines[i].addr == RecordedIn(option, i).addr)
  }

  function RecordedIn(option: Bytes, i: nat): Entry
    requires Printable(option) && i < Filled(option)
  {
    EntryFits(option, i);
    Recorded(option, i)
  }

  lemma EntryFits(option: Bytes, i: nat)
    requires Printable(option) && i < Filled(option)
    ensures 4 + (i + 1) * Width(Flag(option)) <= EffectiveLen(option) <= |option|
  {
  }

  lemma TellsOneMore(lines: seq<Line>, option: Bytes, n: nat, line: Line)
    requires Printable(option) && n < Filled(option) && Tells(lines, option, n)
    requires line.addr == RecordedIn(option, n).addr
    requires if n == 0 then line.Absolute? && line.time == RecordedIn(option, 0).time
             else line.Delta? && line.diff == RecordedIn(option, n).time - RecordedIn(option, n - 1).time
    ensures Tells(lines + [line], option, n + 1)
  {
    forall i | 0 <= i < n
      ensures Decoded(lines + [line], i) == RecordedIn(option, i).time
    {
      DecodedPrefix(lines, [line], i);
    }
  }

  method PrintTimestampInfo(option: Bytes) returns (lines: seq<Line>)
    ensures !Printable(option) ==> lines == []
    ensures Printable(option) ==> Tells(lines, option, Filled(option))
  {
    lines := [];
    if |option| < 4 { return; }
    var length, pointer, flag := option[1], option[2], option[3] % 16;
    var effectiveLen := Min(length, |option|);
    if effectiveLen < 4 { return; }
    if flag > 1 { return; }
    var filled := CountFilled(option, length, pointer, flag, effectiveLen);
    if filled == 0 { return; }
    var first := ReadEntry(option, 0);
    lines := [Absolute(first.addr, first.time)];
    var prev := first.time;
    TellsOneMore([], option, 0, lines[0]);
    assert [] + lines == lines;
    for i := 1 to filled
      invariant Tells(lines, option, i) && prev == RecordedIn(option, i - 1).time
    {
      var entry := ReadEntry(option, i);
      TellsOneMore(lines, option, i, Delta(entry.addr, entry.time - prev));
      lines := lines + [Delta(entry.addr, entry.time - prev)];
      prev := entry.time;
    }
  }

  /** What is printed for a reply's options: the first timestamp option among them, if it can be printed. */
  ghost predicate Prints(lines: seq<Line>, optionData: Bytes) {
    match Extracted(optionData, TIMESTAMP)
    case Some(option) => if Printable(option) then Tells(lines, option, Filled(option)) else lines == []
    case None => lines == []
  }

  method PrintTimestamps(optionData: Bytes) returns (lines: seq<Line>)
    ensures Prints(lines, optionData)
  {
    var option := ExtractIpv4Option(optionData, TIMESTAMP);
    if option.None? { return []; }
    lines := PrintTimestampInfo(option.value);
  }

  /** From any list of options, whatever the walk cannot enter after it, the first timestamp option is told. */
  lemma {:induction false} PrintsFirst(opts: seq<Opt>, rest: Bytes, lines: seq<Line>, option: Bytes)
    requires Walkable(opts, true) && Stuck(rest, true)
    requires Prints(lines, EncodeAll(opts) + rest)
    requires FirstOf(opts, TIMESTAMP) == Some(option) && Printable(option)
    ensures Tells(lines, option, Filled(option))
  {
    ExtractionRoundTrip(opts, rest, TIMESTAMP);
  }

  /** The two modes differ only in the width of an entry. */
  method CountFilled(option: Bytes, length: nat, pointer: nat, flag: nat, effectiveLen: nat) returns (filled: nat)
    requires Printable(option)
    requires length == option[1] && pointer == option[2] && flag == Flag(option) && effectiveLen == EffectiveLen(option)
    ensures filled == Filled(option)
  {
    var pointerClamped := Min(pointer, length + 1);
    var width := if flag == 0 then 4 else 8;
    var room := (effectiveLen - 4) / width;
    filled := (if pointerClamped < 5 then 0 else pointerClamped - 5) / width;
    filled := Min(filled, room);
  }

  method ReadEntry(option: Bytes, i: nat) returns (entry: Entry)
    requires Printable(option) && i < Filled(option)
    ensures entry == RecordedIn(option, i)
  {
    EntryFits(option, i);
    if option[3] % 16 == 0 {
      var off := 4 + i * 4;
      entry := Entry(None, FromBeBytes(option[off], option[off + 1], option[off + 2], option[off + 3]));
    } else {
      var off := 4 + i * 8;
      var addr := Ip(option[off], option[off + 1], option[off + 2], option[off + 3]);
      entry := Entry(Some(addr), FromBeBytes(option[off + 4], option[off + 5], option[off + 6], option[off + 7]));
    }
  }

  // ---------------------------------------------------------------- routers

  /** The option the program asks for: 40 bytes, nothing recorded, pointer at the first entry. */
  function Initial(flag: U8): Bytes {
    [TIMESTAMP, 40, 5, flag] + seq(36, _ => 0)
  }

  function EntryBytes(e: Entry): Bytes
    requires e.time < 0x1_0000_0000
  {
    (if e.addr.Some? then [e.addr.value.a, e.addr.value.b, e.addr.value.c, e.addr.value.d] else [])
    + WordBytes(e.time)
  }

  /** A router records an entry at the pointer if there is room, else counts an overflow. */
  function Stamp(option: Bytes, e: Entry): Bytes
    requires |option| == 40 && e.time < 0x1_0000_0000
  {
    var bytes, at := EntryBytes(e), option[2] as int - 1;
    if 4 <= at && at + |bytes| <= 40 then
      option[..2] + [option[2] + |bytes|] + option[3..at] + bytes + option[at + |bytes|..]
    else if option[3] < 0xF0 then option[3 := option[3] + 0x10]
    else option
  }

  predicate Fits(e: Entry, flag: U8) {
    e.time < 0x1_0000_0000 && (e.addr.Some? <==> flag == 1)
  }

  predicate AllFit(flag: U8, entries: seq<Entry>) {
    forall e | e in entries :: Fits(e, flag)
  }

  /** The option after every router on the way has stamped it. */
  function Stamped(flag: U8, entries: seq<Entry>): (option: Bytes)
    requires flag <= 1 && AllFit(flag, entries)
    ensures |option| == 40
  {
    if entries == [] then Initial(flag)
    else
      var e := entries[|entries| - 1];
      assert e in entries && Fits(e, flag);
      var option := Stamped(flag, entries[..|entries| - 1]);
      StampKeepsLength(option, e);
      Stamp(option, e)
  }

  lemma StampKeepsLength(option: Bytes, e: Entry)
    requires |option| == 40 && e.time < 0x1_0000_0000
    ensures |Stamp(option, e)| == 40
  {
  }

  /** Room in the option: nine timestamps, or four addresses with timestamps. */
  function Room(flag: U8): nat {
    if flag == 0 then 9 else 4
  }

  /** An option that holds the first min(k, room) entries. */
  ghost predicate Holds(option: Bytes, flag: U8, entries: seq<Entry>)
    requires flag <= 1
  {
    var n := Min(|entries|, Room(flag));
    && |option| == 40 && option[0] == TIMESTAMP && option[1] == 40
    && option[2] == 5 + n * Width(flag)
    && option[3] % 16 == flag
    && forall i | 0 <= i < n :: RecordedAt(option, flag, i) == entries[i]
  }

  function RecordedAt(option: Bytes, flag: U8, i: nat): Entry
    requires |option| == 40 && flag <= 1 && i < Room(flag)
  {
    if flag == 0 then Entry(None, Word(option, 4 + i * 4))
    else Entry(Some(IpAt(option, 4 + i * 8)), Word(option, 8 + i * 8))
  }

  /** A stamp that fits writes its bytes at the pointer, moves the pointer behind them and nothing else. */
  lemma StampWrites(option: Bytes, e: Entry)
    requires |option| == 40 && e.time < 0x1_0000_0000
    requires 4 <= option[2] as int - 1 && option[2] as int - 1 + |EntryBytes(e)| <= 40
    ensures var at, bytes, option' := option[2] as int - 1, EntryBytes(e), Stamp(option, e);
            && |option'| == 40
            && option'[2] == option[2] + |bytes|
            && option'[at..at + |bytes|] == bytes
            && forall j | 0 <= j < at && j != 2 :: option'[j] == option[j]
  {
  }

  lemma StampAdds(option: Bytes, flag: U8, entries: seq<Entry>, e: Entry)
    requires flag <= 1 && Fits(e, flag) && Holds(option, flag, entries) && |entries| < Room(flag)
    ensures Holds(Stamp(option, e), flag, entries + [e])
  {
    assert |EntryBytes(e)| == Width(flag);
    StampWrites(option, e);
    HoldsOneMore(option, Stamp(option, e), flag, entries, e);
  }

  lemma HoldsOneMore(option: Bytes, option': Bytes, flag: U8, entries: seq<Entry>, e: Entry)
    requires flag <= 1 && Fits(e, flag) && Holds(option, flag, entries) && |entries| < Room(flag)
    requires |option'| == 40 && option'[2] == option[2] + Width(flag)
    requires forall j | 0 <= j < 4 + |entries| * Width(flag) && j != 2 :: option'[j] == option[j]
    requires |EntryBytes(e)| == Width(flag)
    requires option'[4 + |entries| * Width(flag)..][..Width(flag)] == EntryBytes(e)
    ensures Holds(option', flag, entries + [e])
  {
    var n, w := |entries|, Width(flag);
    var at := 4 + n * w;
    assert option'[at..at + w] == option'[at..][..w];
    Written(option', at, e, flag, n);
    forall i | 0 <= i < n ensures RecordedAt(option', flag, i) == entries[i] {
      Untouched(option, option', flag, i, at);
    }
  }

  lemma Untouched(option: Bytes, option': Bytes, flag: U8, i: nat, at: nat)
    requires |option| == |option'| == 40 && flag <= 1 && i < Room(flag) && 4 + (i + 1) * Width(flag) <= at <= 40
    requires forall j | 3 <= j < at :: option'[j] == option[j]
    ensures RecordedAt(option', flag, i) == RecordedAt(option, flag, i)
  {
  }

  lemma Written(option: Bytes, at: nat, e: Entry, flag: U8, n: nat)
    requires flag <= 1 && Fits(e, flag) && |option| == 40 && n < Room(flag) && at == 4 + n * Width(flag)
    requires option[at..at + |EntryBytes(e)|] == EntryBytes(e)
    ensures RecordedAt(option, flag, n) == e
  {
    var bytes, word := EntryBytes(e), WordBytes(e.time);
    var skip := |bytes| - 4;
    assert bytes[skip..] == word;
    assert option[at..at + |bytes|][skip..] == option[at + skip..at + skip + 4];
    SameWord(option, at + skip, word);
    WordRoundTrip(e.time);
    if flag == 1 {
      forall j | 0 <= j < 4 ensures option[at + j] == bytes[j] {
        assert option[at + j] == option[at..at + |bytes|][j];
      }
      assert IpAt(option, at) == IpAt(bytes, 0) == e.addr.value;
    }
  }

  lemma SameWord(bytes: Bytes, i: nat, word: Bytes)
    requires i + 4 <= |bytes| && bytes[i..i + 4] == word
    ensures Word(bytes, i) == Word(word, 0)
  {
    assert word[0] == bytes[i] && word[1] == bytes[i + 1] && word[2] == bytes[i + 2] && word[3] == bytes[i + 3];
  }

  lemma StampOverflows(option: Bytes, flag: U8, entries: seq<Entry>, e: Entry)
    requires flag <= 1 && Fits(e, flag) && Holds(option, flag, entries) && |entries| >= Room(flag)
    ensures Holds(Stamp(option, e), flag, entries + [e])
  {
    assert |EntryBytes(e)| == Width(flag);
    var option' := Stamp(option, e);
    assert option' == option || option' == option[3 := option[3] + 0x10];
    SameNibble(option[3]);
    forall i | 0 <= i < Room(flag) ensures RecordedAt(option', flag, i) == entries[i] {
      assert RecordedAt(option', flag, i) == RecordedAt(option, flag, i);
    }
  }

  lemma SameNibble(x: U8)
    ensures (x as int + 0x10) % 16 == x % 16
  {
  }

  lemma {:induction false} StampedHolds(flag: U8, entries: seq<Entry>)
    requires flag <= 1 && AllFit(flag, entries)
    ensures Holds(Stamped(flag, entries), flag, entries)
  {
    if entries != [] {
      var n := |entries| - 1;
      var before, e := entries[..n], entries[n];
      StampedHolds(flag, before);
      assert before + [e] == entries;
      if n < Room(flag) {
        StampAdds(Stamped(flag, before), flag, before, e);
      } else {
        StampOverflows(Stamped(flag, before), flag, before, e);
      }
    }
  }

  /** The option itself, as an element of an option list. */
  function AsOpt(option: Bytes): Opt
    requires |option| == 40
  {
    Tlv(TIMESTAMP, option[2..])
  }

  lemma WholeOption(option: Bytes)
    requires |option| == 40 && option[0] == TIMESTAMP && option[1] == 40
    ensures AsOpt(option).WellFormed() && AsOpt(option).Encode() == option
  {
    assert option == option[..2] + option[2..];
  }

  lemma {:induction false} EncodeAmong(before: seq<Opt>, o: Opt, after: seq<Opt>)
    requires o.WellFormed() && Walkable(before, true) && Walkable(after, true)
    ensures EncodeAll(before + ([o] + after)) == EncodeAll(before) + (o.Encode() + EncodeAll(after))
  {
    EncodeConcat(before, [o] + after);
    EncodeCons(o, after);
  }

  lemma {:induction false} FirstOfAmong(before: seq<Opt>, o: Opt, after: seq<Opt>)
    requires o.WellFormed() && Walkable(before, true) && Walkable(after, true)
    requires FirstOf(before, TIMESTAMP).None? && o.Tlv? && o.ty == TIMESTAMP
    ensures FirstOf(before + ([o] + after), TIMESTAMP) == Some(o.Encode())
  {
    FirstOfConcat(before, [o] + after);
  }

  lemma Regroup(a: Bytes, b: Bytes, c: Bytes, d: Bytes)
    ensures a + (b + c) + d == a + b + c + d
  {
  }

  /** Where the first timestamp option of a list is this one, the walk finds it. */
  lemma {:induction false} FoundAmong(option: Bytes, before: seq<Opt>, after: seq<Opt>, rest: Bytes)
    requires |option| == 40 && option[0] == TIMESTAMP && option[1] == 40
    requires Walkable(before, true) && Walkable(after, true) && Stuck(rest, true)
    requires FirstOf(before, TIMESTAMP).None?
    ensures Extracted(EncodeAll(before) + option + EncodeAll(after) + rest, TIMESTAMP) == Some(option)
  {
    WholeOption(option);
    var o := AsOpt(option);
    EncodeAmong(before, o, after);
    FirstOfAmong(before, o, after);
    Regroup(EncodeAll(before), option, EncodeAll(after), rest);
    ExtractionRoundTrip(before + ([o] + after), rest, TIMESTAMP);
  }

  /** The lines name the first n entries, in order. */
  ghost predicate LinesOf(lines: seq<Line>, entries: seq<Entry>, n: nat)
    requires n <= |entries|
  {
    && |lines| == n
    && (forall i | 0 <= i < n :: lines[i].Absolute? <==> i == 0)
    && forall i | 0 <= i < n :: Decoded(lines, i) == entries[i].time && lines[i].addr == entries[i].addr
  }

  /**
   From the program's own option through k routers to the printed lines: wherever the option stands
   among the reply's options, as long as no other timestamp option precedes it and whatever the walk
   cannot enter follows, exactly min(k, room) lines are printed, and they give back the first
   routers' addresses and timestamps in order.
   */
  lemma {:induction false} StampsToLines(
    flag: U8, entries: seq<Entry>, before: seq<Opt>, after: seq<Opt>, rest: Bytes, lines: seq<Line>)
    requires flag <= 1 && AllFit(flag, entries)
    requires Walkable(before, true) && Walkable(after, true) && Stuck(rest, true)
    requires FirstOf(before, TIMESTAMP).None?
    requires Prints(lines, EncodeAll(before) + Stamped(flag, entries) + EncodeAll(after) + rest)
    ensures LinesOf(lines, entries, Min(|entries|, Room(flag)))
  {
    var option := Stamped(flag, entries);
    StampedHolds(flag, entries);
    HoldsIsFilled(option, flag, entries);
    FoundAmong(option, before, after, rest);
  }

  lemma {:induction false} EncodeConcat(xs: seq<Opt>, ys: seq<Opt>)
    requires (forall o | o in xs :: o.WellFormed()) && forall o | o in ys :: o.WellFormed()
    ensures EncodeAll(xs + ys) == EncodeAll(xs) + EncodeAll(ys)
  {
    if xs == [] {
      assert xs + ys == ys;
    } else {
      assert (xs + ys)[1..] == xs[1..] + ys;
      EncodeConcat(xs[1..], ys);
    }
  }

  /** Options that are not timestamps do not hide one behind them. */
  lemma {:induction false} FirstOfConcat(xs: seq<Opt>, ys: seq<Opt>)
    requires (forall o | o in xs :: o.WellFormed()) && forall o | o in ys :: o.WellFormed()
    requires FirstOf(xs, TIMESTAMP).None?
    ensures FirstOf(xs + ys, TIMESTAMP) == FirstOf(ys, TIMESTAMP)
  {
    if xs == [] {
      assert xs + ys == ys;
    } else {
      assert (xs + ys)[1..] == xs[1..] + ys;
      FirstOfConcat(xs[1..], ys);
    }
  }

  lemma HoldsIsFilled(option: Bytes, flag: U8, entries: seq<Entry>)
    requires flag <= 1 && Holds(option, flag, entries)
    ensures Printable(option) && Filled(option) == Min(|entries|, Room(flag))
    ensures forall i | 0 <= i < Filled(option) :: RecordedIn(option, i) == entries[i]
  {
    forall i | 0 <= i < Filled(option) ensures RecordedIn(option, i) == entries[i] {
      assert RecordedIn(option, i) == RecordedAt(option, flag, i);
    }
  }
}
