/**
 IPv4 options (section 3.1 of RFC 791) as ping reads them: the walk that extracts one option and
 the walk that collects recorded routes, both against one grammar of option lists.
 */
module IpOptions {
  import opened Basics

  const EOL: U8 := 0
  const NOP: U8 := 1
  const RECORD_ROUTE: U8 := 7
  const TIMESTAMP: U8 := 68

  /** A one-byte option, or a type, a length byte and data. */
  datatype Opt = Single(b: U8) | Tlv(ty: U8, data: Bytes)
  {
    predicate WellFormed() {
      match this
      case Single(b) => b == EOL || b == NOP
      case Tlv(ty, data) => ty > 1 && |data| <= 253
    }

    function Encode(): Bytes
      requires WellFormed()
    {
      match this
      case Single(b) => [b]
      case Tlv(ty, data) => [ty, |data| + 2] + data
    }
  }

  /** A list the walk can get through; where the end-of-list byte stops it, none may be inside. */
  predicate Walkable(opts: seq<Opt>, eolStops: bool) {
    forall o | o in opts :: o.WellFormed() && (eolStops ==> o != Single(EOL))
  }

  function EncodeAll(opts: seq<Opt>): Bytes
    requires forall o | o in opts :: o.WellFormed()
  {
    if opts == [] then [] else opts[0].Encode() + EncodeAll(opts[1..])
  }

  /** The walk goes no further: nothing left, an end-of-list byte that stops it, or no room for an option. */
  predicate Stuck(bytes: Bytes, eolStops: bool) {
    || bytes == []
    || (bytes[0] == EOL && eolStops)
    || (bytes[0] > 1 && (|bytes| < 2 || bytes[1] < 2 || bytes[1] > |bytes|))
  }

  /** How many bytes the option at the front takes. */
  function Size(bytes: Bytes): (n: nat)
    requires bytes != [] && !Stuck(bytes, false)
    ensures 1 <= n <= |bytes|
  {
    if bytes[0] <= 1 then 1 else bytes[1]
  }

  function Front(bytes: Bytes): Opt
    requires bytes != [] && !Stuck(bytes, false)
  {
    if bytes[0] <= 1 then Single(bytes[0]) else Tlv(bytes[0], bytes[2..Size(bytes)])
  }

  datatype Parsed = Parsed(opts: seq<Opt>, rest: Bytes)

  /** The options a walk sees and the bytes it stops in front of. */
  function Parse(bytes: Bytes, eolStops: bool): Parsed
    decreases |bytes|
  {
    if Stuck(bytes, eolStops) then Parsed([], bytes)
    else
      var p := Parse(bytes[Size(bytes)..], eolStops);
      Parsed([Front(bytes)] + p.opts, p.rest)
  }

  lemma FrontEncodes(bytes: Bytes)
    requires bytes != [] && !Stuck(bytes, false)
    ensures Front(bytes).WellFormed() && Front(bytes).Encode() == bytes[..Size(bytes)]
  {
  }

  lemma EncodedFront(o: Opt, tail: Bytes, eolStops: bool)
    requires o.WellFormed() && (eolStops ==> o != Single(EOL))
    ensures !Stuck(o.Encode() + tail, eolStops) && !Stuck(o.Encode() + tail, false)
    ensures Front(o.Encode() + tail) == o && Size(o.Encode() + tail) == |o.Encode()|
  {
    var bytes := o.Encode() + tail;
    if o.Tlv? { assert bytes[2..|o.Encode()|] == o.data; }
  }

  lemma {:induction false} EncodeCons(o: Opt, opts: seq<Opt>)
    requires o.WellFormed() && forall q | q in opts :: q.WellFormed()
    ensures EncodeAll([o] + opts) == o.Encode() + EncodeAll(opts)
  {
    assert ([o] + opts)[1..] == opts;
  }

  /** Whatever the bytes, the walk splits them into well-formed options and a rest it cannot enter. */
  lemma {:induction false} ParseSplits(bytes: Bytes, eolStops: bool)
    ensures Walkable(Parse(bytes, eolStops).opts, eolStops)
    ensures EncodeAll(Parse(bytes, eolStops).opts) + Parse(bytes, eolStops).rest == bytes
    ensures Stuck(Parse(bytes, eolStops).rest, eolStops)
    decreases |bytes|
  {
    if Stuck(bytes, eolStops) {
      assert [] + bytes == bytes;
    } else {
      var n := Size(bytes);
      var p := Parse(bytes[n..], eolStops);
      ParseSplits(bytes[n..], eolStops);
      FrontEncodes(bytes);
      EncodeCons(Front(bytes), p.opts);
      Rejoin(bytes, n, EncodeAll(p.opts), p.rest);
    }
  }

  lemma Rejoin(bytes: Bytes, n: nat, encoded: Bytes, rest: Bytes)
    requires n <= |bytes| && encoded + rest == bytes[n..]
    ensures bytes[..n] + encoded + rest == bytes
  {
    assert bytes[..n] + (encoded + rest) == bytes;
  }

  lemma {:induction false} ParseCons(o: Opt, tail: Bytes, eolStops: bool)
    requires o.WellFormed() && (eolStops ==> o != Single(EOL))
    ensures Parse(o.Encode() + tail, eolStops) ==
            Parsed([o] + Parse(tail, eolStops).opts, Parse(tail, eolStops).rest)
  {
    EncodedFront(o, tail, eolStops);
    assert (o.Encode() + tail)[|o.Encode()|..] == tail;
  }

  /** Round trip: any list, followed by anything the walk cannot enter, is read back exactly. */
  lemma {:induction false} ParseEncoded(opts: seq<Opt>, rest: Bytes, eolStops: bool)
    requires Walkable(opts, eolStops) && Stuck(rest, eolStops)
    ensures Parse(EncodeAll(opts) + rest, eolStops) == Parsed(opts, rest)
  {
    if opts == [] {
      assert EncodeAll(opts) + rest == rest;
    } else {
      var tail := EncodeAll(opts[1..]) + rest;
      ParseEncoded(opts[1..], rest, eolStops);
      assert EncodeAll(opts) + rest == opts[0].Encode() + tail;
      ParseCons(opts[0], tail, eolStops);
      assert [opts[0]] + opts[1..] == opts;
    }
  }

  // ---------------------------------------------------------------- extracting one option

  /** The bytes of the first option of type `t`. */
  function FirstOf(opts: seq<Opt>, t: U8): Option<Bytes>
    requires forall o | o in opts :: o.WellFormed()
  {
    if opts == [] then None
    else if opts[0].Tlv? && opts[0].ty == t then Some(opts[0].Encode())
    else FirstOf(opts[1..], t)
  }

  /** Option i is the first one of type `t`. */
  ghost predicate IsFirst(opts: seq<Opt>, t: U8, i: nat) {
    && i < |opts| && opts[i].Tlv? && opts[i].ty == t
    && forall j | 0 <= j < i :: !(opts[j].Tlv? && opts[j].ty == t)
  }

  /** The bytes of the first option of its type, or nothing exactly when there is none. */
  lemma {:induction false} FirstOfIsFirst(opts: seq<Opt>, t: U8)
    requires forall o | o in opts :: o.WellFormed()
    ensures FirstOf(opts, t).None? <==> forall j | 0 <= j < |opts| :: !(opts[j].Tlv? && opts[j].ty == t)
    ensures forall i: nat | IsFirst(opts, t, i) :: FirstOf(opts, t) == Some(opts[i].Encode())
  {
    if opts != [] {
      var rest := opts[1..];
      FirstOfIsFirst(rest, t);
      forall i: nat | IsFirst(opts, t, i) ensures FirstOf(opts, t) == Some(opts[i].Encode()) {
        if i > 0 {
          assert IsFirst(rest, t, i - 1) && rest[i - 1] == opts[i];
        }
      }
      forall j | 1 <= j < |opts| ensures opts[j] == rest[j - 1] {
      }
    }
  }

  ghost function Extracted(bytes: Bytes, t: U8): Option<Bytes> {
    ParseSplits(bytes, true);
    FirstOf(Parse(bytes, true).opts, t)
  }

  lemma ExtractedStep(bytes: Bytes, t: U8)
    requires !Stuck(bytes, true)
    ensures Extracted(bytes, t) ==
            if bytes[0] > 1 && bytes[0] == t then Some(bytes[..Size(bytes)]) else Extracted(bytes[Size(bytes)..], t)
  {
    var n := Size(bytes);
    ParseSplits(bytes, true);
    ParseSplits(bytes[n..], true);
    FrontEncodes(bytes);
    assert Parse(bytes, true).opts[0] == Front(bytes);
    assert Parse(bytes, true).opts[1..] == Parse(bytes[n..], true).opts;
  }

  method ExtractIpv4Option(optionData: Bytes, optionType: U8) returns (r: Option<Bytes>)
    ensures r == Extracted(optionData, optionType)
  {
    var pos := 0;
    assert optionData[0..] == optionData;
    while pos < |optionData|
      invariant 0 <= pos <= |optionData|
      invariant Extracted(optionData[pos..], optionType) == Extracted(optionData, optionType)
    {
      var ty := optionData[pos];
      ghost var here := optionData[pos..];
      if ty == EOL { return None; }
      if ty == NOP {
        ExtractedStep(here, optionType);
        assert here[1..] == optionData[pos + 1..];
        pos := pos + 1;
        continue;
      }
      if pos + 1 >= |optionData| { return None; }
      var len := optionData[pos + 1];
      if len < 2 || pos + len > |optionData| { return None; }
      ExtractedStep(here, optionType);
      if ty == optionType {
        assert here[..len] == optionData[pos..pos + len];
        return Some(optionData[pos..pos + len]);
      }
      assert here[len..] == optionData[pos + len..];
      pos := pos + len;
    }
    r := None;
  }

  /**
   The round trip of extraction: from any list of NOPs and options, whatever end-of-list byte and
   junk follow it, exactly the bytes of the first option of the type come back, or nothing.
   */
  lemma {:induction false} ExtractionRoundTrip(opts: seq<Opt>, rest: Bytes, t: U8)
    requires Walkable(opts, true) && Stuck(rest, true)
    ensures Extracted(EncodeAll(opts) + rest, t) == FirstOf(opts, t)
  {
    ParseEncoded(opts, rest, true);
  }

  lemma SliceOfRest(bytes: Bytes, n: nat, i: nat, length: nat)
    requires n + i + length <= |bytes|
    ensures bytes[n..][i..i + length] == bytes[n + i..n + i + length]
  {
  }

  ghost predicate IsSlice(bytes: Bytes, o: Bytes, i: nat) {
    i + |o| <= |bytes| && bytes[i..i + |o|] == o
  }

  /** What is extracted carries its type and its own length, is part of the input, and has type above 1. */
  lemma {:induction false} ExtractedIsSelfConsistent(bytes: Bytes, t: U8) returns (i: nat)
    ensures Extracted(bytes, t).Some? ==>
              var o := Extracted(bytes, t).value;
              t > 1 && 2 <= |o| && o[0] == t && o[1] == |o| && IsSlice(bytes, o, i)
    decreases |bytes|
  {
    i := 0;
    if !Stuck(bytes, true) {
      ExtractedStep(bytes, t);
      var n := Size(bytes);
      if bytes[0] <= 1 || bytes[0] != t {
        i := ExtractedIsSelfConsistent(bytes[n..], t);
        if Extracted(bytes, t).Some? {
          var o := Extracted(bytes, t).value;
          SliceOfRest(bytes, n, i, |o|);
        }
        i := n + i;
      } else {
        assert bytes[0..0 + n] == bytes[..n];
      }
    }
  }
}
