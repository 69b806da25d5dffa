/**
 Ping's reading of recorded routes: the walk over a reply's options that collects addresses, the
 comparison behind "(same route)", and the option the program itself asks for.
 */
module RecordRoute {
  import opened Basics
  import opened IpOptions

  datatype Ip = Ip(a: U8, b: U8, c: U8, d: U8)
  {
    predicate IsUnspecified() { a == b == c == d == 0 }
  }

  function IpAt(bytes: Bytes, i: nat): Ip
    requires i + 4 <= |bytes|
  {
    Ip(bytes[i], bytes[i + 1], bytes[i + 2], bytes[i + 3])
  }

  /** How many addresses a record-route option holds; `data` starts with its pointer byte. */
  function Slots(data: Bytes): nat
    requires data != []
  {
    var filled := if data[0] > 4 then Min(data[0] - 4, |data| - 1) else 0;
    Min(filled / 4, (|data| - 1) / 4)
  }

  /** Slot i counts exactly when it lies wholly inside the option and wholly below the pointer. */
  lemma SlotCountsIff(data: Bytes, i: nat)
    requires data != []
    ensures i < Slots(data) <==> 4 * (i + 1) <= |data| - 1 && 4 + 4 * (i + 1) <= data[0]
  {
  }

  /** The first n addresses of an option, without 0.0.0.0. */
  function Addresses(data: Bytes, n: nat): (ips: seq<Ip>)
    requires data != [] && n <= Slots(data)
    ensures |ips| <= n && forall ip | ip in ips :: !ip.IsUnspecified()
  {
    if n == 0 then []
    else
      SlotCountsIff(data, n - 1);
      var ip := IpAt(data, 1 + 4 * (n - 1));
      Addresses(data, n - 1) + if ip.IsUnspecified() then [] else [ip]
  }

  /** A filled slot is in the route behind all filled slots before it; only 0.0.0.0 is left out. */
  lemma {:induction false} SlotIsListed(data: Bytes, n: nat, i: nat)
    requires data != [] && i < n <= Slots(data) && 1 + 4 * i + 4 <= |data|
    requires !IpAt(data, 1 + 4 * i).IsUnspecified()
    ensures |Addresses(data, i)| < |Addresses(data, n)|
    ensures Addresses(data, n)[|Addresses(data, i)|] == IpAt(data, 1 + 4 * i)
    ensures Addresses(data, i) <= Addresses(data, n)
  {
    AddressesStep(data, n - 1);
    if n > i + 1 {
      SlotIsListed(data, n - 1, i);
    } else {
      assert Addresses(data, n) == Addresses(data, i) + [IpAt(data, 1 + 4 * i)];
    }
  }

  lemma {:induction false} AddressesStep(data: Bytes, n: nat)
    requires data != [] && n < Slots(data)
    ensures Addresses(data, n) <= Addresses(data, n + 1)
    ensures 1 + 4 * n + 4 <= |data|
    ensures Addresses(data, n + 1) ==
            Addresses(data, n) + if IpAt(data, 1 + 4 * n).IsUnspecified() then [] else [IpAt(data, 1 + 4 * n)]
  {
    SlotCountsIff(data, n);
  }

  /** An empty slot adds nothing. */
  lemma {:induction false} EmptySlotAddsNothing(data: Bytes, i: nat)
    requires data != [] && i < Slots(data) && 1 + 4 * i + 4 <= |data| && IpAt(data, 1 + 4 * i).IsUnspecified()
    ensures Addresses(data, i + 1) == Addresses(data, i)
  {
  }

  predicate IsRoute(o: Opt) { o.Tlv? && o.ty == RECORD_ROUTE }

  /** The addresses of all record-route options, in order. */
  function Route(opts: seq<Opt>): seq<Ip> {
    if opts == [] then []
    else
      (if IsRoute(opts[0]) && opts[0].data != [] then Addresses(opts[0].data, Slots(opts[0].data)) else [])
      + Route(opts[1..])
  }

  predicate AnyRoute(opts: seq<Opt>) {
    exists o :: o in opts && IsRoute(o)
  }

  /** The routes of several options are joined in order. */
  lemma {:induction false} RouteConcat(xs: seq<Opt>, ys: seq<Opt>)
    ensures Route(xs + ys) == Route(xs) + Route(ys)
  {
    if xs == [] {
      assert xs + ys == ys;
    } else {
      assert (xs + ys)[1..] == xs[1..] + ys;
      RouteConcat(xs[1..], ys);
    }
  }

  /** And one option's route is its own addresses, if it is a record-route option with room for a pointer. */
  lemma {:induction false} RouteOfOne(o: Opt)
    ensures Route([o]) == if IsRoute(o) && o.data != [] then Addresses(o.data, Slots(o.data)) else []
  {
    assert [o][1..] == [];
  }

  datatype Walk = Walk(foundRr: bool, ips: seq<Ip>, hasNop: bool)

  /** What the walk reports, given the options it passes; it steps over end-of-list bytes. */
  function WalkOf(opts: seq<Opt>): Walk {
    Walk(AnyRoute(opts), Route(opts), Single(NOP) in opts)
  }

  function Plus(w: Walk, o: Opt): Walk {
    Walk(w.foundRr || IsRoute(o),
         w.ips + (if IsRoute(o) && o.data != [] then Addresses(o.data, Slots(o.data)) else []),
         w.hasNop || o == Single(NOP))
  }

  lemma {:induction false} RouteCons(o: Opt, opts: seq<Opt>)
    ensures Route([o] + opts) ==
            (if IsRoute(o) && o.data != [] then Addresses(o.data, Slots(o.data)) else []) + Route(opts)
  {
    assert ([o] + opts)[0] == o && ([o] + opts)[1..] == opts;
  }

  lemma AnyRouteCons(o: Opt, opts: seq<Opt>)
    ensures AnyRoute([o] + opts) <==> IsRoute(o) || AnyRoute(opts)
  {
    assert o in [o] + opts;
    forall q | q in opts ensures q in [o] + opts {
    }
  }

  lemma WalkCons(w: Walk, o: Opt, opts: seq<Opt>)
    ensures Joined(w, WalkOf([o] + opts)) == Joined(Plus(w, o), WalkOf(opts))
  {
    RouteCons(o, opts);
    AnyRouteCons(o, opts);
    assert w.ips + Route([o] + opts) == Plus(w, o).ips + Route(opts);
  }

  function Joined(w: Walk, v: Walk): Walk {
    Walk(w.foundRr || v.foundRr, w.ips + v.ips, w.hasNop || v.hasNop)
  }

  /** What a walk that has gathered `w` up to `pos` will have gathered at its end. */
  function Outlook(optionData: Bytes, pos: nat, w: Walk): Walk
    requires pos <= |optionData|
  {
    Joined(w, WalkOf(Parse(optionData[pos..], false).opts))
  }

  /** One pass of the walk: over exactly one option of the grammar, or no further. */
  predicate Steps(optionData: Bytes, pos: nat, w: Walk, pos': nat, w': Walk, more: bool)
    requires pos < |optionData|
  {
    var here := optionData[pos..];
    if Stuck(here, false) then !more && pos' == pos && w' == w
    else more && pos' == pos + Size(here) && w' == Plus(w, Front(here))
  }

  lemma StepsKeepOutlook(optionData: Bytes, pos: nat, w: Walk, pos': nat, w': Walk, more: bool)
    requires pos < |optionData| && Steps(optionData, pos, w, pos', w', more)
    ensures pos' <= |optionData| && (more ==> pos < pos')
    ensures Outlook(optionData, pos', w') == Outlook(optionData, pos, w)
    ensures !more ==> w' == Outlook(optionData, pos, w)
  {
    if more { StepsOver(optionData, pos, w); } else { Finished(optionData, pos, w); }
  }

  lemma StepsOver(optionData: Bytes, pos: nat, w: Walk)
    requires pos < |optionData| && !Stuck(optionData[pos..], false)
    ensures var here := optionData[pos..];
            Outlook(optionData, pos + Size(here), Plus(w, Front(here))) == Outlook(optionData, pos, w)
  {
    var here := optionData[pos..];
    var tail := optionData[pos + Size(here)..];
    assert here[Size(here)..] == tail;
    var opts := Parse(tail, false).opts;
    assert Parse(here, false).opts == [Front(here)] + opts;
    WalkCons(w, Front(here), opts);
  }

  lemma Finished(optionData: Bytes, pos: nat, w: Walk)
    requires pos <= |optionData| && Stuck(optionData[pos..], false)
    ensures Outlook(optionData, pos, w) == w
  {
    assert WalkOf([]) == Walk(false, [], false);
    assert w.ips + [] == w.ips;
  }

  lemma PlusSingle(w: Walk, b: U8)
    requires b <= 1
    ensures Plus(w, Single(b)) == if b == 1 then w.(hasNop := true) else w
  {
    assert w.ips + [] == w.ips;
  }

  lemma SingleAt(optionData: Bytes, pos: nat)
    requires pos < |optionData| && optionData[pos] <= 1
    ensures !Stuck(optionData[pos..], false)
    ensures Size(optionData[pos..]) == 1 && Front(optionData[pos..]) == Single(optionData[pos])
  {
  }

  lemma TlvAt(optionData: Bytes, pos: nat)
    requires pos < |optionData| && optionData[pos] > 1
    ensures Stuck(optionData[pos..], false) <==>
            pos + 1 >= |optionData| || optionData[pos + 1] < 2 || pos + optionData[pos + 1] > |optionData|
    ensures !Stuck(optionData[pos..], false) ==>
              var n := optionData[pos + 1];
              && Size(optionData[pos..]) == n
              && Front(optionData[pos..]) == Tlv(optionData[pos], optionData[pos + 2..pos + n])
  {
  }

  method CollectRoute(optionData: Bytes) returns (w: Walk)
    ensures w == WalkOf(Parse(optionData, false).opts)
  {
    var pos: nat := 0;
    w := Walk(false, [], false);
    ghost var result := Outlook(optionData, 0, w);
    assert optionData[0..] == optionData && result == WalkOf(Parse(optionData, false).opts);
    var more := true;
    while more && pos < |optionData|
      invariant pos <= |optionData| && Outlook(optionData, pos, w) == result
      invariant !more ==> w == result
      decreases more, |optionData| - pos
    {
      ghost var pos0: nat, w0 := pos, w;
      pos, w, more := WalkOnce(optionData, pos, w);
      StepsKeepOutlook(optionData, pos0, w0, pos, w, more);
    }
    if more { Finished(optionData, pos, w); }
  }

  /** One pass of the loop; `more` unless it breaks off. */
  method WalkOnce(optionData: Bytes, pos: nat, w: Walk) returns (pos': nat, w': Walk, more: bool)
    requires pos < |optionData|
    ensures Steps(optionData, pos, w, pos', w', more)
  {
    var optionType := optionData[pos];
    if optionType == 0 || optionType == 1 {
      SingleAt(optionData, pos);
      PlusSingle(w, optionType);
      return pos + 1, if optionType == 1 then w.(hasNop := true) else w, true;
    }
    TlvAt(optionData, pos);
    if pos + 1 >= |optionData| { return pos, w, false; }
    var optionLength := optionData[pos + 1];
    if optionLength < 2 || pos + optionLength > |optionData| { return pos, w, false; }
    w' := AddOption(w, optionData, pos, optionLength);
    return pos + optionLength, w', true;
  }

  method AddOption(w: Walk, optionData: Bytes, pos: nat, optionLength: nat) returns (w': Walk)
    requires 2 <= optionLength && pos + optionLength <= |optionData|
    ensures w' == Plus(w, Tlv(optionData[pos], optionData[pos + 2..pos + optionLength]))
  {
    w' := w;
    if optionData[pos] == RECORD_ROUTE {
      w' := w'.(foundRr := true);
      if optionLength >= 3 {
        var ips := ReadAddresses(optionData, pos, optionLength);
        w' := w'.(ips := w'.ips + ips);
      }
    }
    assert w.ips + [] == w.ips;
  }

  /** The inner loop; its bounds check never fails. */
  method ReadAddresses(optionData: Bytes, pos: nat, optionLength: nat) returns (ips: seq<Ip>)
    requires 3 <= optionLength && pos + optionLength <= |optionData|
    ensures var data := optionData[pos + 2..pos + optionLength]; ips == Addresses(data, Slots(data))
  {
    var optionPointer := optionData[pos + 2];
    ghost var data := optionData[pos + 2..pos + optionLength];
    var dataStart := pos + 3;
    var maxDataLen := optionLength - 3;
    var filledLen := if optionPointer > 4 then Min(optionPointer - 4, maxDataLen) else 0;
    var validIpCount := Min(filledLen / 4, maxDataLen / 4);
    assert validIpCount == Slots(data);
    ips := [];
    for i := 0 to validIpCount
      invariant ips == Addresses(data, i)
    {
      var ipStart := dataStart + i * 4;
      SlotAt(optionData, pos, optionLength, i);
      if ipStart + 4 <= pos + optionLength {
        var ip := IpAt(optionData, ipStart);
        if !ip.IsUnspecified() { ips := ips + [ip]; }
      }
    }
  }

  /** Slot i of an option, in the option's own bytes and in those around it. */
  lemma {:induction false} SlotAt(optionData: Bytes, pos: nat, optionLength: nat, i: nat)
    requires 3 <= optionLength && pos + optionLength <= |optionData|
    requires i < Slots(optionData[pos + 2..pos + optionLength])
    ensures pos + 3 + i * 4 + 4 <= pos + optionLength
    ensures var data := optionData[pos + 2..pos + optionLength];
            && IpAt(optionData, pos + 3 + i * 4) == IpAt(data, 1 + 4 * i)
            && Addresses(data, i + 1) ==
               Addresses(data, i) + if IpAt(data, 1 + 4 * i).IsUnspecified() then [] else [IpAt(data, 1 + 4 * i)]
  {
    SlotCountsIff(optionData[pos + 2..pos + optionLength], i);
  }

  // ---------------------------------------------------------------- how the two walks relate

  /** The walk sees the same options as the extractor exactly when the extractor meets no end-of-list byte. */
  lemma {:induction false} SameWalkIff(bytes: Bytes)
    ensures Parse(bytes, true) == Parse(bytes, false) <==>
              Parse(bytes, true).rest == [] || Parse(bytes, true).rest[0] != EOL
    decreases |bytes|
  {
    if Stuck(bytes, true) {
      if bytes != [] && bytes[0] == EOL { assert Parse(bytes, false).opts != []; }
    } else {
      SameWalkIff(bytes[Size(bytes)..]);
      var p, q := Parse(bytes[Size(bytes)..], true), Parse(bytes[Size(bytes)..], false);
      if [Front(bytes)] + p.opts == [Front(bytes)] + q.opts {
        assert p.opts == ([Front(bytes)] + p.opts)[1..];
        assert q.opts == ([Front(bytes)] + q.opts)[1..];
      }
    }
  }

  /** Reading back an encoded list of options gives the route those options record. */
  lemma {:induction false} RouteRoundTrip(opts: seq<Opt>, rest: Bytes)
    requires Walkable(opts, false) && Stuck(rest, false)
    ensures WalkOf(Parse(EncodeAll(opts) + rest, false).opts) == WalkOf(opts)
  {
    ParseEncoded(opts, rest, false);
  }

  // ---------------------------------------------------------------- how long a route can be

  /** Record-route options that have room for their pointer. */
  function Pointers(opts: seq<Opt>): nat {
    if opts == [] then 0 else (if IsRoute(opts[0]) && opts[0].data != [] then 1 else 0) + Pointers(opts[1..])
  }

  lemma {:induction false} RouteFits(opts: seq<Opt>)
    requires forall o | o in opts :: o.WellFormed()
    ensures 4 * |Route(opts)| + 3 * Pointers(opts) <= |EncodeAll(opts)|
    ensures Route(opts) != [] ==> Pointers(opts) >= 1
  {
    if opts != [] {
      RouteFits(opts[1..]);
      assert opts[0].WellFormed();
    }
  }

  /** The route is at most a quarter of what the options leave after their headers: nine addresses in 40 bytes. */
  lemma {:induction false} RouteBound(bytes: Bytes)
    ensures var opts := Parse(bytes, false).opts; 4 * |Route(opts)| <= |bytes| - 3 * Pointers(opts)
    ensures |bytes| <= 40 ==> |Route(Parse(bytes, false).opts)| <= 9
  {
    ParseSplits(bytes, false);
    RouteFits(Parse(bytes, false).opts);
  }

  // ---------------------------------------------------------------- "(same route)"

  /** The bytes the program compares; they are cut at a fixed offset, wherever the option is. */
  function CurrRaw(optionData: Bytes): Bytes
    requires |optionData| >= 3
  {
    var filledLen := if optionData[2] > 4 then Min(optionData[2] - 4, |optionData| - 3) else 0;
    optionData[3..3 + filledLen]
  }

  datatype Shown = Nothing | SameRoute(hasNop: bool) | NewRoute(ips: seq<Ip>, hasNop: bool)

  /** What a reply's options lead to, and the bytes kept for the next comparison. */
  function Show(optionData: Bytes, counted: bool, lastRaw: Bytes): (Shown, Bytes) {
    var w := WalkOf(Parse(optionData, false).opts);
    if w.ips == [] then (Nothing, lastRaw)
    else
      RouteNeedsRoom(optionData);
      Compared(optionData, w, counted, lastRaw)
  }

  /** The comparison; with a count, the first route of a run is never called the same. */
  function Compared(optionData: Bytes, w: Walk, counted: bool, lastRaw: Bytes): (Shown, Bytes)
    requires |optionData| >= 3
  {
    var currRaw := CurrRaw(optionData);
    (if !(counted && lastRaw == []) && lastRaw == currRaw then SameRoute(w.hasNop) else NewRoute(w.ips, w.hasNop),
     currRaw)
  }

  lemma {:induction false} RouteNeedsRoom(optionData: Bytes)
    requires Route(Parse(optionData, false).opts) != []
    ensures |optionData| >= 7
  {
    ParseSplits(optionData, false);
    RouteFits(Parse(optionData, false).opts);
  }

  /** With a count, the first route of a run is always shown in full. */
  lemma {:induction false} FirstRouteIsNew(optionData: Bytes)
    ensures !Show(optionData, true, []).0.SameRoute?
    ensures Show(optionData, true, []).0.Nothing? <==> Route(Parse(optionData, false).opts) == []
  {
  }

  method ParseRecordRouteOption(optionData: Bytes, counted: bool, lastRaw: Bytes)
    returns (shown: Shown, lastRaw': Bytes)
    ensures (shown, lastRaw') == Show(optionData, counted, lastRaw)
  {
    if optionData == [] { return Nothing, lastRaw; }
    var w := CollectRoute(optionData);
    if w.ips != [] { RouteFound(Parse(optionData, false).opts); }
    if !w.foundRr || w.ips == [] { return Nothing, lastRaw; }
    RouteNeedsRoom(optionData);
    shown, lastRaw' := Compare(optionData, w, counted, lastRaw);
  }

  method Compare(optionData: Bytes, w: Walk, counted: bool, lastRaw: Bytes) returns (shown: Shown, lastRaw': Bytes)
    requires |optionData| >= 3
    ensures (shown, lastRaw') == Compared(optionData, w, counted, lastRaw)
  {
    var optPointer := optionData[2];
    var filledLen := if optPointer > 4 then Min(optPointer - 4, |optionData| - 3) else 0;
    var currRaw := optionData[3..3 + filledLen];
    var sameRoute := if counted && lastRaw == [] then false else lastRaw == currRaw;
    if sameRoute { return SameRoute(w.hasNop), currRaw; }
    return NewRoute(w.ips, w.hasNop), currRaw;
  }

  lemma {:induction false} RouteFound(opts: seq<Opt>)
    requires Route(opts) != []
    ensures AnyRoute(opts)
  {
    if IsRoute(opts[0]) {
      assert opts[0] in opts;
    } else {
      RouteFound(opts[1..]);
    }
  }

  /** The option the program requests: a NOP, then a record-route option of 39 bytes. */
  function Requested(pointer: U8, slots: Bytes): Bytes
    requires |slots| == 36
  {
    [NOP, RECORD_ROUTE, 39, pointer] + slots
  }

  function RequestedOptions(pointer: U8, slots: Bytes): seq<Opt> {
    [Single(NOP), Tlv(RECORD_ROUTE, [pointer] + slots)]
  }

  lemma RequestedEncodes(pointer: U8, slots: Bytes)
    requires |slots| == 36
    ensures Walkable(RequestedOptions(pointer, slots), false)
    ensures EncodeAll(RequestedOptions(pointer, slots)) + [] == Requested(pointer, slots)
  {
    var tail := [Tlv(RECORD_ROUTE, [pointer] + slots)];
    assert RequestedOptions(pointer, slots)[1..] == tail;
    assert tail[1..] == [];
    assert EncodeAll(tail) == [RECORD_ROUTE, 39] + ([pointer] + slots);
  }

  lemma {:induction false} RequestedRoute(pointer: U8, slots: Bytes)
    requires |slots| == 36
    ensures Parse(Requested(pointer, slots), false) == Parsed(RequestedOptions(pointer, slots), [])
    ensures Route(RequestedOptions(pointer, slots)) == Addresses([pointer] + slots, Slots([pointer] + slots))
  {
    RequestedEncodes(pointer, slots);
    ParseEncoded(RequestedOptions(pointer, slots), [], false);
    var tail := [Tlv(RECORD_ROUTE, [pointer] + slots)];
    assert RequestedOptions(pointer, slots)[1..] == tail && tail[1..] == [];
    assert Route(tail) == Addresses([pointer] + slots, Slots([pointer] + slots));
  }

  /** With that layout the comparison reads the pointer and all but the last two of the 36 address bytes. */
  lemma RequestedRaw(pointer: U8, slots: Bytes)
    requires |slots| == 36
    ensures CurrRaw(Requested(pointer, slots)) == [pointer] + slots[..34]
  {
  }

  lemma {:induction false} AddressesAgree(p: Bytes, q: Bytes, n: nat)
    requires p != [] && q != [] && n <= Slots(p) && n <= Slots(q)
    requires forall i | 1 <= i < 1 + 4 * n :: i < |p| && i < |q| && p[i] == q[i]
    ensures Addresses(p, n) == Addresses(q, n)
  {
    if n > 0 {
      AddressesAgree(p, q, n - 1);
      SlotCountsIff(p, n - 1);
      SlotCountsIff(q, n - 1);
      assert IpAt(p, 1 + 4 * (n - 1)) == IpAt(q, 1 + 4 * (n - 1));
    }
  }

  /**
   "(same route)" in the requested layout: when the compared bytes are equal, the two routes are
   equal if and only if the ninth slot is not in use or its last two bytes agree as well.
   */
  lemma SameRouteIff(pointer: U8, pointer': U8, slots: Bytes, slots': Bytes)
    requires |slots| == |slots'| == 36
    requires CurrRaw(Requested(pointer, slots)) == CurrRaw(Requested(pointer', slots'))
    ensures pointer == pointer'
    ensures Route(Parse(Requested(pointer, slots), false).opts) ==
            Route(Parse(Requested(pointer', slots'), false).opts)
            <==> pointer < 40 || slots[34..] == slots'[34..]
  {
    RequestedRoute(pointer, slots);
    RequestedRoute(pointer', slots');
    RawAgrees(pointer, pointer', slots, slots');
    var p, q := [pointer] + slots, [pointer'] + slots';
    RoutesEqualIff(p, q);
    LastTwo(pointer, slots);
    LastTwo(pointer', slots');
  }

  lemma LastTwo(pointer: U8, slots: Bytes)
    requires |slots| == 36
    ensures var p := [pointer] + slots; |p| == 37 && slots[34..] == [p[35], p[36]]
  {
  }

  /**
   Two replies in a row in the requested layout, both with a route: "(same route)" is shown if and
   only if the compared bytes agree, and is then true exactly as `SameRouteIff` says.
   */
  lemma {:induction false} SameRouteShownIff(
    pointer: U8, pointer': U8, slots: Bytes, slots': Bytes, counted: bool, lastRaw: Bytes)
    requires |slots| == |slots'| == 36
    requires Route(Parse(Requested(pointer, slots), false).opts) != []
    requires Route(Parse(Requested(pointer', slots'), false).opts) != []
    ensures var (_, raw) := Show(Requested(pointer, slots), counted, lastRaw);
            var (shown, _) := Show(Requested(pointer', slots'), counted, raw);
            var route, route' := Addresses([pointer] + slots, Slots([pointer] + slots)),
                                 Addresses([pointer'] + slots', Slots([pointer'] + slots'));
            && (shown.SameRoute? <==> pointer == pointer' && slots[..34] == slots'[..34])
            && (shown.SameRoute? ==> (route == route' <==> pointer < 40 || slots[34..] == slots'[34..]))
            && (!shown.SameRoute? ==> shown == NewRoute(route', true))
  {
    RequestedRoute(pointer, slots);
    RequestedRoute(pointer', slots');
    RequestedRaw(pointer, slots);
    RequestedRaw(pointer', slots');
    assert Single(NOP) == RequestedOptions(pointer', slots')[0];
    var p, q := [pointer] + slots[..34], [pointer'] + slots'[..34];
    if p == q {
      assert p[0] == q[0] && p[1..] == q[1..];
      SameRouteIff(pointer, pointer', slots, slots');
    }
  }

  lemma {:induction false} RoutesEqualIff(p: Bytes, q: Bytes)
    requires |p| == |q| == 37 && forall i | 0 <= i < 35 :: p[i] == q[i]
    ensures Addresses(p, Slots(p)) == Addresses(q, Slots(q)) <==> p[0] < 40 || (p[35] == q[35] && p[36] == q[36])
  {
    if p[0] < 40 {
      AddressesAgree(p, q, Slots(p));
    } else {
      NinthSlot(p, q);
    }
  }

  lemma RawAgrees(pointer: U8, pointer': U8, slots: Bytes, slots': Bytes)
    requires |slots| == |slots'| == 36
    requires CurrRaw(Requested(pointer, slots)) == CurrRaw(Requested(pointer', slots'))
    ensures forall i | 0 <= i < 35 :: ([pointer] + slots)[i] == ([pointer'] + slots')[i]
    ensures pointer == pointer'
  {
    RequestedRaw(pointer, slots);
    RequestedRaw(pointer', slots');
    forall i | 0 <= i < 35 ensures ([pointer] + slots)[i] == ([pointer'] + slots')[i] {
      assert ([pointer] + slots)[i] == ([pointer] + slots[..34])[i];
      assert ([pointer'] + slots')[i] == ([pointer'] + slots'[..34])[i];
    }
    assert ([pointer] + slots)[0] == ([pointer'] + slots')[0];
  }

  lemma {:induction false} NinthSlot(p: Bytes, q: Bytes)
    requires |p| == |q| == 37 && p[0] == q[0] >= 40
    requires forall i | 1 <= i < 35 :: p[i] == q[i]
    ensures Addresses(p, Slots(p)) == Addresses(q, Slots(q)) <==> p[35] == q[35] && p[36] == q[36]
  {
    assert Slots(p) == Slots(q) == 9;
    AddressesAgree(p, q, 8);
    var x, y := IpAt(p, 33), IpAt(q, 33);
    var xs, ys := if x.IsUnspecified() then [] else [x], if y.IsUnspecified() then [] else [y];
    assert Addresses(p, 9) == Addresses(p, 8) + xs && Addresses(q, 9) == Addresses(p, 8) + ys;
    if Addresses(p, 9) == Addresses(q, 9) {
      assert xs == Addresses(p, 9)[|Addresses(p, 8)|..] == ys;
      if x.IsUnspecified() { assert |ys| == 0; } else { assert ys[0] == x; }
    }
  }
}
