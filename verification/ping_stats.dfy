/**
 Ping's accounting: the counters, the table of outstanding sends and the running sums of
 `PingStats`, and the figures `summary` derives from them. Floating-point sums are modelled as reals.
 */
module PingStatistics {
  import opened Basics

  const SEQ_SPACE := 0x1_0000

  /** One recorded send. */
  datatype Send = Send(seqNo: U16, time: Instant)

  // ---------------------------------------------------------------- the send log

  /** The newest send that carried sequence number `s`. */
  function Latest(sends: seq<Send>, s: U16): (k: Option<nat>)
    ensures k.Some? ==> k.value < |sends| && sends[k.value].seqNo == s
    ensures k.Some? ==> forall i | k.value < i < |sends| :: sends[i].seqNo != s
    ensures k.None? ==> forall i | 0 <= i < |sends| :: sends[i].seqNo != s
  {
    if sends == [] then None
    else if sends[|sends| - 1].seqNo == s then Some(|sends| - 1)
    else Latest(sends[..|sends| - 1], s)
  }

  /** The sends of a run, and which of them have been answered. */
  datatype Book = Book(sends: seq<Send>, answered: set<nat>)
  {
    ghost predicate WellFormed() {
      forall k | k in answered :: k < |sends|
    }

    /** Send `k` still waits for its reply: it is unanswered and its number has not been used again. */
    predicate Waits(k: nat)
      requires k < |sends|
    {
      k !in answered && Latest(sends, sends[k].seqNo) == Some(k)
    }

    /** The send a reply numbered `s` answers. */
    function Match(s: U16): (k: Option<nat>)
      ensures k.Some? ==> k.value < |sends| && Waits(k.value) && sends[k.value].seqNo == s
    {
      var k := Latest(sends, s);
      if k.Some? && k.value !in answered then k else None
    }

    function Record(s: U16, now: Instant): Book {
      Book(sends + [Send(s, now)], answered)
    }

    function Take(s: U16): Book {
      var k := Match(s);
      if k.Some? then Book(sends, answered + {k.value}) else this
    }
  }

  /** Sends are numbered from 1, modulo 2^16. */
  ghost predicate Numbered(sends: seq<Send>) {
    forall k | 0 <= k < |sends| :: sends[k].seqNo == (k + 1) % SEQ_SPACE
  }

  /** With consecutive numbering a number is still the newest of its kind for exactly 65536 sends. */
  lemma {:induction false} LatestIffRecent(sends: seq<Send>, k: nat)
    requires Numbered(sends) && k < |sends|
    ensures Latest(sends, sends[k].seqNo) == Some(k) <==> |sends| - k <= SEQ_SPACE
  {
    var n := Latest(sends, sends[k].seqNo).value;
    assert n >= k && sends[n].seqNo == sends[k].seqNo;
    SameResidue(n + 1, k + 1);
    if |sends| - k > SEQ_SPACE {
      NextResidue(k + 1);
      assert sends[k + SEQ_SPACE].seqNo == sends[k].seqNo;
    }
  }

  lemma SameResidue(a: nat, b: nat)
    requires a >= b && a % SEQ_SPACE == b % SEQ_SPACE
    ensures a == b || a - b >= SEQ_SPACE
  {
  }

  lemma NextResidue(a: nat)
    ensures (a + SEQ_SPACE) % SEQ_SPACE == a % SEQ_SPACE
  {
  }

  /** A reply to an unanswered send is matched to that send exactly when fewer than 65536 sends followed it. */
  lemma ReplyMatchesItsSend(book: Book, k: nat)
    requires Numbered(book.sends) && k < |book.sends| && k !in book.answered
    ensures book.Match(book.sends[k].seqNo) == Some(k) <==> |book.sends| - k <= SEQ_SPACE
  {
    LatestIffRecent(book.sends, k);
  }

  /** A second copy of a reply matches nothing: each send is answered at most once. */
  lemma AnsweredOnce(book: Book, s: U16)
    ensures book.Take(s).Match(s).None?
    ensures |book.Take(s).answered - book.answered| <= 1
  {
    if book.Match(s).Some? {
      assert book.Take(s).answered - book.answered == {book.Match(s).value};
    }
  }

  // ---------------------------------------------------------------- sums and inequalities

  function Sum(xs: seq<real>): real {
    if xs == [] then 0.0 else Sum(xs[..|xs| - 1]) + xs[|xs| - 1]
  }

  function SumSq(xs: seq<real>): real {
    if xs == [] then 0.0 else SumSq(xs[..|xs| - 1]) + xs[|xs| - 1] * xs[|xs| - 1]
  }

  lemma {:induction false} SumsSnoc(xs: seq<real>, x: real)
    ensures Sum(xs + [x]) == Sum(xs) + x && SumSq(xs + [x]) == SumSq(xs) + x * x
  {
    assert (xs + [x])[..|xs|] == xs;
  }

  ghost predicate Between(xs: seq<real>, lo: real, hi: real) {
    forall i | 0 <= i < |xs| :: lo <= xs[i] <= hi
  }

  lemma Product(a: real, b: real)
    requires a >= 0.0 && b >= 0.0
    ensures a * b >= 0.0
  {
  }

  lemma {:induction false} SumBounds(xs: seq<real>, lo: real, hi: real)
    requires Between(xs, lo, hi)
    ensures |xs| as real * lo <= Sum(xs) <= |xs| as real * hi
  {
    if xs != [] {
      var n := |xs| - 1;
      SumBounds(xs[..n], lo, hi);
      OneMore(n as real, lo);
      OneMore(n as real, hi);
    }
  }

  lemma OneMore(n: real, x: real)
    ensures (n + 1.0) * x == n * x + x
  {
  }

  /** The sum of (x - c)^2 is not negative, whatever c is. */
  lemma {:induction false} SquaresAround(xs: seq<real>, c: real)
    ensures SumSq(xs) - 2.0 * c * Sum(xs) + |xs| as real * c * c >= 0.0
  {
    if xs != [] {
      var n, x := |xs| - 1, xs[|xs| - 1];
      SquaresAround(xs[..n], c);
      Square(x - c);
      assert (x - c) * (x - c) == x * x - 2.0 * c * x + c * c;
      assert |xs| as real * c * c == n as real * c * c + c * c;
      assert 2.0 * c * Sum(xs) == 2.0 * c * Sum(xs[..n]) + 2.0 * c * x;
    }
  }

  lemma Square(a: real)
    ensures a * a >= 0.0
  {
    if a >= 0.0 { Product(a, a); } else { Product(-a, -a); }
  }

  /** The sum of (hi - x)(x - lo) is not negative. */
  lemma {:induction false} ProductsWithin(xs: seq<real>, lo: real, hi: real)
    requires Between(xs, lo, hi)
    ensures Slack(|xs| as real, Sum(xs), SumSq(xs), hi, lo)
  {
    if xs != [] {
      var n, x := |xs| - 1, xs[|xs| - 1];
      ProductsWithin(xs[..n], lo, hi);
      SlackSnoc(n as real, Sum(xs[..n]), SumSq(xs[..n]), hi, lo, x);
    }
  }

  lemma SlackSnoc(n: real, s: real, q: real, hi: real, lo: real, x: real)
    requires Slack(n, s, q, hi, lo) && lo <= x <= hi
    ensures Slack(n + 1.0, s + x, q + x * x, hi, lo)
  {
    Product(hi - x, x - lo);
    assert (hi - x) * (x - lo) == (hi + lo) * x - x * x - hi * lo;
    assert (n + 1.0) * hi * lo == n * hi * lo + hi * lo;
    assert (hi + lo) * (s + x) == (hi + lo) * s + (hi + lo) * x;
  }

  function Mean(xs: seq<real>): real
    requires xs != []
  {
    Sum(xs) / |xs| as real
  }

  /** What `summary` takes the square root of, before its clamp at zero. */
  function Variance(xs: seq<real>): real
    requires xs != []
  {
    SumSq(xs) / |xs| as real - Mean(xs) * Mean(xs)
  }

  lemma ScaleDown(a: real, n: real)
    requires n > 0.0 && n * a >= 0.0
    ensures a >= 0.0
  {
    if a < 0.0 { Nonzero(n, a); }
  }

  lemma Nonzero(n: real, a: real)
    requires n > 0.0 && a < 0.0
    ensures n * a < 0.0
  {
  }

  lemma {:induction false} SquaresAroundMean(xs: seq<real>)
    requires xs != []
    ensures |xs| as real * Mean(xs) == Sum(xs)
    ensures SumSq(xs) - Mean(xs) * Sum(xs) >= 0.0
  {
    var n, s, m := |xs| as real, Sum(xs), Mean(xs);
    assert s == n * m;
    SquaresAround(xs, m);
    assert n * m * m == m * s;
  }

  /** n times the sum of squares is at least the square of the sum. */
  lemma {:induction false} SumOfSquaresDominates(xs: seq<real>)
    ensures |xs| as real * SumSq(xs) >= Sum(xs) * Sum(xs)
  {
    if xs != [] {
      var n, s, q, m := |xs| as real, Sum(xs), SumSq(xs), Mean(xs);
      SquaresAroundMean(xs);
      Product(n, q - m * s);
      assert n * (q - m * s) == n * q - s * s by { assert n * (m * s) == s * s; }
    }
  }

  /** The variance is not negative even before the clamp. */
  lemma VarianceNotNegative(xs: seq<real>)
    requires xs != []
    ensures Variance(xs) >= 0.0
  {
    var n, s, q, m := |xs| as real, Sum(xs), SumSq(xs), Mean(xs);
    SquaresAroundMean(xs);
    assert q == n * (q / n);
    assert n * Variance(xs) == q - m * s by { assert n * (m * m) == m * s; }
    ScaleDown(Variance(xs), n);
  }

  lemma MeanWithin(xs: seq<real>, lo: real, hi: real)
    requires xs != [] && Between(xs, lo, hi)
    ensures lo <= Mean(xs) <= hi
  {
    SumBounds(xs, lo, hi);
    var n, m := |xs| as real, Mean(xs);
    assert Sum(xs) == n * m;
    assert n * (m - lo) == n * m - n * lo;
    assert n * (hi - m) == n * hi - n * m;
    ScaleDown(m - lo, n);
    ScaleDown(hi - m, n);
  }

  /** The squared distances of all samples from c. */
  function SquaredDistances(xs: seq<real>, c: real): real {
    if xs == [] then 0.0
    else SquaredDistances(xs[1..], c) + (xs[0] - c) * (xs[0] - c)
  }

  lemma {:induction false} DistancesSnoc(xs: seq<real>, x: real, c: real)
    ensures SquaredDistances(xs + [x], c) == SquaredDistances(xs, c) + (x - c) * (x - c)
  {
    if xs == [] {
      assert ([] + [x])[1..] == [];
    } else {
      assert (xs + [x])[1..] == xs[1..] + [x];
      DistancesSnoc(xs[1..], x, c);
    }
  }

  /** `d` is the sum of squared distances from c of n numbers with sum s and sum of squares q. */
  predicate Expanded(d: real, n: real, s: real, q: real, c: real) {
    d == q - 2.0 * c * s + n * (c * c)
  }

  lemma ExpandedSnoc(d: real, n: real, s: real, q: real, c: real, x: real)
    requires Expanded(d, n, s, q, c)
    ensures Expanded(d + (x - c) * (x - c), n + 1.0, s + x, q + x * x, c)
  {
    assert (x - c) * (x - c) == x * x - 2.0 * c * x + c * c;
    assert 2.0 * c * (s + x) == 2.0 * c * s + 2.0 * c * x;
    OneMore(n, c * c);
  }

  lemma ExpandedSame(d: real, n: real, s: real, q: real, c: real, d': real, n': real, s': real, q': real)
    requires Expanded(d, n, s, q, c) && d == d' && n == n' && s == s' && q == q'
    ensures Expanded(d', n', s', q', c)
  {
  }

  lemma {:induction false} SumsOfSnoc(xs: seq<real>, x: real, c: real)
    ensures SquaredDistances(xs + [x], c) == SquaredDistances(xs, c) + (x - c) * (x - c)
    ensures Sum(xs + [x]) == Sum(xs) + x && SumSq(xs + [x]) == SumSq(xs) + x * x
    ensures |xs + [x]| as real == |xs| as real + 1.0
  {
    DistancesSnoc(xs, x, c);
    SumsSnoc(xs, x);
  }

  lemma {:induction false} DistancesExpand(xs: seq<real>, c: real)
    ensures Expanded(SquaredDistances(xs, c), |xs| as real, Sum(xs), SumSq(xs), c)
  {
    if xs == [] {
      ExpandedSame(0.0, 0.0, 0.0, 0.0, c, SquaredDistances(xs, c), |xs| as real, Sum(xs), SumSq(xs));
    } else {
      var ys, x := xs[..|xs| - 1], xs[|xs| - 1];
      DistancesExpand(ys, c);
      var d, n, s, q := SquaredDistances(ys, c), |ys| as real, Sum(ys), SumSq(ys);
      ExpandedSnoc(d, n, s, q, c, x);
      SumsOfSnoc(ys, x, c);
      assert xs == ys + [x];
      ExpandedSame(d + (x - c) * (x - c), n + 1.0, s + x, q + x * x, c,
                   SquaredDistances(xs, c), |xs| as real, Sum(xs), SumSq(xs));
    }
  }

  lemma MeanOfDistances(n: real, s: real, q: real)
    requires n > 0.0
    ensures Expanded(n * (q / n - s / n * (s / n)), n, s, q, s / n)
  {
    var m := s / n;
    DivideBack(s, n);
    DivideBack(q, n);
    assert n * (q / n - m * m) == n * (q / n) - n * (m * m);
    assert n * (m * m) == m * s;
    assert 2.0 * m * s == m * s + m * s;
  }

  /** The variance is the mean squared distance from the mean. */
  lemma {:induction false} VarianceIsMeanDistance(xs: seq<real>)
    requires xs != []
    ensures |xs| as real * Variance(xs) == SquaredDistances(xs, Mean(xs))
  {
    DistancesExpand(xs, Mean(xs));
    MeanOfDistances(|xs| as real, Sum(xs), SumSq(xs));
  }

  lemma Expand(n: real, m: real, hi: real, lo: real, v: real)
    ensures n * ((hi - m) * (m - lo) - (v - m * m)) == (hi + lo) * (n * m) - n * hi * lo - n * v
  {
    assert (hi - m) * (m - lo) - (v - m * m) == (hi + lo) * m - hi * lo - v;
    assert n * ((hi + lo) * m) == (hi + lo) * (n * m);
  }

  /** The inequality behind `VarianceWithin`, for mean m and mean of squares v of n numbers. */
  lemma WithinRange(n: real, m: real, v: real, hi: real, lo: real)
    requires n > 0.0 && (hi + lo) * (n * m) - n * v - n * hi * lo >= 0.0
    ensures v - m * m <= (hi - m) * (m - lo)
  {
    Expand(n, m, hi, lo, v);
    ScaleDown((hi - m) * (m - lo) - (v - m * m), n);
  }

  lemma Quarter(m: real, hi: real, lo: real)
    ensures 4.0 * ((hi - m) * (m - lo)) <= (hi - lo) * (hi - lo)
  {
    Square(hi + lo - 2.0 * m);
    assert (hi - lo) * (hi - lo) - 4.0 * ((hi - m) * (m - lo)) == (hi + lo - 2.0 * m) * (hi + lo - 2.0 * m);
  }

  lemma DivideBack(a: real, n: real)
    requires n > 0.0
    ensures n * (a / n) == a
  {
  }

  predicate Slack(n: real, s: real, q: real, hi: real, lo: real) {
    (hi + lo) * s - q - n * hi * lo >= 0.0
  }

  predicate Spread(n: real, s: real, q: real, hi: real, lo: real)
    requires n > 0.0
  {
    q / n - s / n * (s / n) <= (hi - s / n) * (s / n - lo)
  }

  lemma WithinRangeOf(n: real, s: real, q: real, hi: real, lo: real)
    requires n > 0.0 && Slack(n, s, q, hi, lo)
    ensures Spread(n, s, q, hi, lo)
  {
    var m, v := s / n, q / n;
    assert n * m == s by { DivideBack(s, n); }
    assert n * v == q by { DivideBack(q, n); }
    assert (hi + lo) * (n * m) - n * v - n * hi * lo >= 0.0;
    WithinRange(n, m, v, hi, lo);
  }

  /** The variance is at most (max - avg)(avg - min). */
  lemma VarianceWithin(xs: seq<real>, lo: real, hi: real)
    requires xs != [] && Between(xs, lo, hi)
    ensures Variance(xs) <= (hi - Mean(xs)) * (Mean(xs) - lo)
  {
    SpreadOf(xs, lo, hi);
  }

  lemma {:induction false} SpreadOf(xs: seq<real>, lo: real, hi: real)
    requires xs != [] && Between(xs, lo, hi)
    ensures Spread(|xs| as real, Sum(xs), SumSq(xs), hi, lo)
  {
    ProductsWithin(xs, lo, hi);
    WithinRangeOf(|xs| as real, Sum(xs), SumSq(xs), hi, lo);
  }

  lemma Chain(v: real, p: real, r: real)
    requires v <= p && 4.0 * p <= r
    ensures 4.0 * v <= r
  {
  }

  /** The deviation is at most half the range. */
  lemma VarianceWithinQuarterRange(xs: seq<real>, lo: real, hi: real)
    requires xs != [] && Between(xs, lo, hi)
    ensures 4.0 * Variance(xs) <= (hi - lo) * (hi - lo)
  {
    VarianceWithin(xs, lo, hi);
    Quarter(Mean(xs), hi, lo);
    Chain(Variance(xs), (hi - Mean(xs)) * (Mean(xs) - lo), (hi - lo) * (hi - lo));
  }

  // ---------------------------------------------------------------- conservation of sends

  ghost function Waiting(b: Book): set<nat> {
    set k: nat | k < |b.sends| && b.Waits(k)
  }

  /** Sends that can never be answered any more: a later send took their number. */
  ghost function Superseded(b: Book): set<nat> {
    set k: nat | k < |b.sends| && k !in b.answered && !b.Waits(k)
  }

  /** The table of outstanding sends the program keeps: one entry per waiting send, under its number. */
  ghost function Table(b: Book): map<U16, Instant> {
    map s: U16 | s in Numbers(b, Waiting(b)) :: b.sends[Latest(b.sends, s).value].time
  }

  ghost function Numbers(b: Book, ks: set<nat>): set<U16>
    requires forall k | k in ks :: k < |b.sends|
  {
    set k | k in ks :: b.sends[k].seqNo
  }

  lemma InTableIffMatched(b: Book, s: U16)
    ensures s in Table(b) <==> b.Match(s).Some?
    ensures s in Table(b) ==> Table(b)[s] == b.sends[b.Match(s).value].time
  {
    if b.Match(s).Some? { assert b.Match(s).value in Waiting(b); }
  }

  lemma {:induction false} NumbersInjective(b: Book, ks: set<nat>)
    requires ks <= Waiting(b)
    ensures |Numbers(b, ks)| == |ks|
  {
    if ks != {} {
      var k :| k in ks;
      NumbersInjective(b, ks - {k});
      assert Numbers(b, ks) == Numbers(b, ks - {k}) + {b.sends[k].seqNo};
      forall j | j in ks - {k}
        ensures b.sends[j].seqNo != b.sends[k].seqNo
      {
        assert j in Waiting(b) && k in Waiting(b);
      }
    }
  }

  lemma {:induction false} CountBelow(n: nat, ks: set<nat>)
    requires forall k: nat :: k in ks <==> k < n
    ensures |ks| == n
  {
    if n > 0 { CountBelow(n - 1, ks - {n - 1}); }
  }

  /** Every send is answered, outstanding or superseded, and exactly one of the three. */
  lemma Conservation(b: Book)
    requires b.WellFormed()
    ensures |b.answered| + |Table(b)| + |Superseded(b)| == |b.sends|
  {
    NumbersInjective(b, Waiting(b));
    assert Table(b).Keys == Numbers(b, Waiting(b));
    var rest := Waiting(b) + Superseded(b);
    assert |rest| == |Waiting(b)| + |Superseded(b)|;
    assert b.answered !! rest;
    CountBelow(|b.sends|, b.answered + rest);
  }

  /** Up to 65536 consecutively numbered sends, no send is ever superseded. */
  lemma NoneSuperseded(b: Book)
    requires Numbered(b.sends) && |b.sends| <= SEQ_SPACE
    ensures Superseded(b) == {}
  {
    forall k: nat | k < |b.sends| && k !in b.answered
      ensures b.Waits(k)
    {
      LatestIffRecent(b.sends, k);
    }
  }

  lemma TableRecords(b: Book, s: U16, now: Instant)
    requires b.WellFormed()
    ensures Table(b.Record(s, now)) == Table(b)[s := now]
  {
    var b' := b.Record(s, now);
    forall t: U16
      ensures t in Table(b') <==> t in Table(b)[s := now]
      ensures t in Table(b') ==> Table(b')[t] == Table(b)[s := now][t]
    {
      InTableIffMatched(b', t);
      InTableIffMatched(b, t);
      assert b'.sends[..|b.sends|] == b.sends;
      assert Latest(b'.sends, t) == if t == s then Some(|b.sends|) else Latest(b.sends, t);
    }
  }

  lemma TableTakes(b: Book, s: U16)
    ensures Table(b.Take(s)) == Table(b) - {s}
  {
    var b' := b.Take(s);
    forall t: U16
      ensures t in Table(b') <==> t in Table(b) - {s}
      ensures t in Table(b') ==> Table(b')[t] == (Table(b) - {s})[t]
    {
      InTableIffMatched(b', t);
      InTableIffMatched(b, t);
    }
  }

  // ---------------------------------------------------------------- the program

  ghost predicate IsMin(xs: seq<real>, m: real) {
    m in xs && forall i | 0 <= i < |xs| :: m <= xs[i]
  }

  ghost predicate IsMax(xs: seq<real>, m: real) {
    m in xs && forall i | 0 <= i < |xs| :: xs[i] <= m
  }

  lemma ExtremaSnoc(xs: seq<real>, lo: real, hi: real, x: real)
    requires IsMin(xs, lo) && IsMax(xs, hi)
    ensures IsMin(xs + [x], if lo <= x then lo else x)
    ensures IsMax(xs + [x], if x <= hi then hi else x)
  {
    var ys := xs + [x];
    assert ys[|xs|] == x && forall i | 0 <= i < |xs| :: ys[i] == xs[i];
  }

  datatype RttLine = RttLine(min: real, avg: real, max: real, variance: real)

  datatype Report = Report(
    transmitted: nat,
    received: nat,
    errors: nat,
    lossPercent: real,
    rtt: Option<RttLine>)

  /** What a printed report promises about the run it closes. */
  ghost predicate Describes(r: Report, rtts: seq<real>) {
    && r.received == |rtts| <= r.transmitted
    && 0.0 <= r.lossPercent <= 100.0
    && r.lossPercent * r.transmitted as real == (r.transmitted - r.received) as real * 100.0
    && (r.rtt.Some? <==> r.received > 0)
    && (r.rtt.Some? ==>
          var l := r.rtt.value;
          Coherent(rtts, l) && l.avg == Mean(rtts) && l.variance == Variance(rtts))
  }

  class PingStats {
    var transmitted: nat
    var received: nat
    var errors: nat
    var totalRtt: real
    var totalRttSquared: real
    var minRtt: Option<real>
    var maxRtt: Option<real>
    var sentTimes: map<U16, Instant>
    ghost var book: Book
    ghost var rtts: seq<real>

    ghost predicate Valid()
      reads this
    {
      && book.WellFormed()
      && sentTimes == Table(book) && transmitted == |book.sends|
      && received == |rtts|
      && totalRtt == Sum(rtts) && totalRttSquared == SumSq(rtts)
      && minRtt.Some? == maxRtt.Some? == (rtts != [])
      && (minRtt.Some? ==> IsMin(rtts, minRtt.value) && IsMax(rtts, maxRtt.value))
    }

    /** Every reply taken out of the table has been counted. */
    ghost predicate Settled()
      reads this
    {
      Valid() && received == |book.answered|
    }

    constructor ()
      ensures Settled() && book == Book([], {}) && rtts == [] && errors == 0
    {
      transmitted, received, errors := 0, 0, 0;
      totalRtt, totalRttSquared, minRtt, maxRtt := 0.0, 0.0, None, None;
      sentTimes := map[];
      book, rtts := Book([], {}), [];
    }

    method RecordSentTime(s: U16, now: Instant)
      requires Valid()
      modifies this`transmitted, this`sentTimes, this`book
      ensures Valid() && book == old(book).Record(s, now)
    {
      TableRecords(book, s, now);
      sentTimes := sentTimes[s := now];
      transmitted := transmitted + 1;
      book := book.Record(s, now);
    }

    /** The time of the newest unanswered send numbered `s`, which it takes out of the table. */
    method GetSentTime(s: U16) returns (sent: Option<Instant>)
      requires Valid()
      modifies this`sentTimes, this`book
      ensures Valid() && book == old(book).Take(s)
      ensures sent.Some? <==> old(book).Match(s).Some?
      ensures sent.Some? ==> sent.value == book.sends[old(book).Match(s).value].time
      ensures |book.answered| == |old(book).answered| + (if sent.Some? then 1 else 0)
    {
      InTableIffMatched(book, s);
      TableTakes(book, s);
      sent := if s in sentTimes then Some(sentTimes[s]) else None;
      sentTimes := sentTimes - {s};
      book := book.Take(s);
    }

    method Update(rtt: real)
      requires Valid()
      modifies this`received, this`totalRtt, this`totalRttSquared, this`minRtt, this`maxRtt, this`rtts
      ensures Valid() && rtts == old(rtts) + [rtt]
    {
      SumsSnoc(rtts, rtt);
      received := received + 1;
      totalRtt := totalRtt + rtt;
      totalRttSquared := totalRttSquared + rtt * rtt;
      minRtt := if minRtt.Some? && minRtt.value <= rtt then minRtt else Some(rtt);
      maxRtt := if maxRtt.Some? && rtt <= maxRtt.value then maxRtt else Some(rtt);
      rtts := rtts + [rtt];
      if old(rtts) == [] { assert rtts == [rtt]; } else { ExtremaSnoc(old(rtts), old(minRtt).value, old(maxRtt).value, rtt); }
    }

    method RecordError()
      modifies this`errors
      ensures errors == old(errors) + 1
    {
      errors := errors + 1;
    }

    /** Nothing is counted twice or out of thin air: replies plus outstanding sends never exceed the sends. */
    lemma Conserved()
      requires Settled()
      ensures received + |sentTimes| <= transmitted
      ensures Numbered(book.sends) && transmitted <= SEQ_SPACE ==> received + |sentTimes| == transmitted
    {
      Conservation(book);
      if Numbered(book.sends) && transmitted <= SEQ_SPACE { NoneSuperseded(book); }
    }

    /** The average and the (population) variance of the counted round-trip times. */
    method Averages() returns (avgRtt: real, variance: real)
      requires Valid() && received > 0
      ensures avgRtt == Mean(rtts) && variance == Variance(rtts)
    {
      avgRtt := totalRtt / received as real;
      if received > 1 {
        var meanOfSquares := totalRttSquared / received as real;
        var squareOfMean := avgRtt * avgRtt;
        VarianceNotNegative(rtts);
        variance := if meanOfSquares - squareOfMean > 0.0 then meanOfSquares - squareOfMean else 0.0;
      } else {
        SingleVariance(rtts);
        variance := 0.0;
      }
    }

    method Summary() returns (r: Report)
      requires Valid() && received <= transmitted
      ensures Describes(r, rtts) && r.transmitted == transmitted && r.errors == errors
    {
      var lossPercent := 0.0;
      if transmitted > 0 {
        var lost := transmitted - received;
        lossPercent := lost as real / transmitted as real * 100.0;
        LossWithin(lost, transmitted);
      }
      var rtt := None;
      if received > 0 {
        var avgRtt, variance := Averages();
        LineCoherent(rtts, minRtt.value, maxRtt.value);
        rtt := Some(RttLine(minRtt.value, avgRtt, maxRtt.value, variance));
      }
      r := Report(transmitted, received, errors, lossPercent, rtt);
    }
  }

  /** min <= avg <= max, and the variance is between 0 and (max - avg)(avg - min). */
  ghost predicate Coherent(xs: seq<real>, l: RttLine) {
    && IsMin(xs, l.min) && IsMax(xs, l.max)
    && l.min <= l.avg <= l.max
    && 0.0 <= l.variance <= (l.max - l.avg) * (l.avg - l.min)
  }

  lemma LineCoherent(xs: seq<real>, lo: real, hi: real)
    requires xs != [] && IsMin(xs, lo) && IsMax(xs, hi)
    ensures Coherent(xs, RttLine(lo, Mean(xs), hi, Variance(xs)))
  {
    assert Between(xs, lo, hi);
    var avg, v := Mean(xs), Variance(xs);
    assert lo <= avg <= hi by { MeanWithin(xs, lo, hi); }
    assert 0.0 <= v by { VarianceNotNegative(xs); }
    assert v <= (hi - avg) * (avg - lo) by { VarianceWithin(xs, lo, hi); }
    Together(xs, RttLine(lo, avg, hi, v));
  }

  lemma Together(xs: seq<real>, l: RttLine)
    requires IsMin(xs, l.min) && IsMax(xs, l.max) && l.min <= l.avg <= l.max
    requires 0.0 <= l.variance && l.variance <= (l.max - l.avg) * (l.avg - l.min)
    ensures Coherent(xs, l)
  {
  }

  lemma LossWithin(lost: nat, transmitted: nat)
    requires lost <= transmitted && transmitted > 0
    ensures var p := lost as real / transmitted as real * 100.0;
            0.0 <= p <= 100.0 && p * transmitted as real == lost as real * 100.0
  {
    var l, t := lost as real, transmitted as real;
    assert t * (l / t) == l by { DivideBack(l, t); }
    assert 0.0 <= l / t by { ScaleDown(l / t, t); }
    assert l / t <= 1.0 by {
      assert t * (1.0 - l / t) == t - l;
      ScaleDown(1.0 - l / t, t);
    }
  }

  /** A report of a run whose sends were all answered shows no loss. */
  lemma NoLossIffAllReceived(r: Report, rtts: seq<real>)
    requires Describes(r, rtts) && r.transmitted > 0
    ensures r.lossPercent == 0.0 <==> r.received == r.transmitted
  {
    var t := r.transmitted as real;
    assert r.lossPercent * t == (r.transmitted - r.received) as real * 100.0;
    if r.received == r.transmitted && r.lossPercent > 0.0 { Positive(r.lossPercent, t); }
  }

  lemma Positive(a: real, b: real)
    requires a > 0.0 && b > 0.0
    ensures a * b > 0.0
  {
  }

  lemma SingleVariance(xs: seq<real>)
    requires |xs| == 1
    ensures Variance(xs) == 0.0
  {
    var x := xs[0];
    assert xs[..0] == [];
    assert Sum(xs) == x && SumSq(xs) == x * x;
    assert |xs| as real == 1.0;
    assert Mean(xs) == x;
  }
}
