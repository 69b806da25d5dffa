/**
 The clockdiff estimator: one `SumResult` updated sample by sample, and the summary computed
 after the last one. Timestamps are milliseconds since midnight.
 */
module Clockdiff {
  import opened Basics

  const BIASP := 43199999
  const BIASN := -43200000
  const MODULO := 86400000
  const MSGS := 50
  const I64_MAX := 0x7FFF_FFFF_FFFF_FFFF
  const HOSTDOWN := I64_MAX

  predicate FitsI64(x: int) { -I64_MAX - 1 <= x <= I64_MAX }

  /** Rust's integer division, which truncates toward zero. */
  function Quot(a: int, b: int): int
    requires b > 0
  {
    if a >= 0 then a / b else -((-a) / b)
  }

  /** The magnitude of a quotient is that of the dividend, rounded down; the sign is the dividend's. */
  lemma QuotTruncates(a: int, b: int)
    requires b > 0
    ensures b * Abs(Quot(a, b)) <= Abs(a) < b * Abs(Quot(a, b)) + b
    ensures (a >= 0 ==> Quot(a, b) >= 0) && (a <= 0 ==> Quot(a, b) <= 0)
  {
    QuotientOf(Abs(a), b);
  }

  lemma QuotientOf(a: nat, b: nat)
    requires b > 0
    ensures 0 <= a / b && b * (a / b) <= a < b * (a / b) + b
  {
    assert a == b * (a / b) + a % b;
  }

  function Abs(x: int): nat { if x < 0 then -x else x }

  /** The four timestamps of one exchange: sent, received there, sent back there, received here. */
  datatype Sample = Sample(t1: int, t2: int, t3: int, t4: int)
  {
    function Diff(): int { t4 - t1 }

    /** A sample whose local clock ran backwards (past midnight) is thrown away. */
    predicate Accepted() { Diff() >= 0 }

    function Forward(): int { Normalise(t2 - t1) }

    /** With plain ICMP timestamps the program measures the way back from t2, not from t3. */
    function Back(ipTimestamp: bool): int {
      Normalise(if ipTimestamp then t4 - t3 else t4 - t2)
    }

    predicate FromWire() {
      0 <= t1 < 0x1_0000_0000 && 0 <= t2 < 0x1_0000_0000 && 0 <= t3 < 0x1_0000_0000 && 0 <= t4 < 0x1_0000_0000
    }

    predicate WithinDay() {
      0 <= t1 < MODULO && 0 <= t2 < MODULO && 0 <= t3 < MODULO && 0 <= t4 < MODULO
    }
  }

  function Normalise(d: int): int {
    if d < BIASN then d + MODULO else if d > BIASP then d - MODULO else d
  }

  // ---------------------------------------------------------------- midnight

  predicate InBias(d: int) { BIASN <= d <= BIASP }

  /** One correction is enough exactly when the raw difference is less than a day and a half away. */
  lemma NormalisedIff(d: int)
    ensures InBias(Normalise(d)) <==> BIASN - MODULO <= d <= BIASP + MODULO
    ensures Normalise(d) % MODULO == d % MODULO
  {
  }

  /** No two values in the bias range are equal modulo one day. */
  lemma ResidueUnique(x: int, y: int)
    requires InBias(x) && InBias(y) && x % MODULO == y % MODULO
    ensures x == y
  {
    assert x / MODULO == 0 || x / MODULO == -1;
  }

  /** Normalising a difference of less than a day finds its representative in the bias range. */
  lemma NormaliseIsUnique(d: int, delta: int)
    requires -MODULO < d < MODULO && InBias(delta)
    ensures InBias(Normalise(d))
    ensures delta == Normalise(d) <==> delta % MODULO == d % MODULO
  {
    NormalisedIff(d);
    if delta % MODULO == d % MODULO { ResidueUnique(delta, Normalise(d)); }
  }

  /** For timestamps within one day both deltas are the representatives of their residue in the bias range. */
  lemma MidnightNormalisation(s: Sample, ipTimestamp: bool, delta: int)
    requires s.WithinDay() && InBias(delta)
    ensures InBias(s.Forward()) && InBias(s.Back(ipTimestamp))
    ensures delta == s.Forward() <==> delta % MODULO == (s.t2 - s.t1) % MODULO
    ensures delta == s.Back(ipTimestamp) <==>
              delta % MODULO == (s.t4 - (if ipTimestamp then s.t3 else s.t2)) % MODULO
  {
    NormaliseIsUnique(s.t2 - s.t1, delta);
    NormaliseIsUnique(s.t4 - (if ipTimestamp then s.t3 else s.t2), delta);
  }

  // ---------------------------------------------------------------- the estimate as a value

  /** The numeric fields of `SumResult`; `delta1` is `measure_delta1`. */
  datatype Estimate = Estimate(rtt: int, sigma: int, min1: int, min2: int, rttMin: int, delta1: int)

  function Fresh(): Estimate { Estimate(0, 0, 0, 0, I64_MAX, HOSTDOWN) }

  function Step(e: Estimate, ip: bool, s: Sample): Estimate {
    if !s.Accepted() then e
    else
      var rtt := Quot(e.rtt * 3 + s.Diff(), 4);
      var sigma := Quot(e.sigma + Abs(s.Diff() - rtt), 4);
      var forward, back := s.Forward(), s.Back(ip);
      var faster := forward + back < e.rttMin;
      Estimate(
        rtt, sigma,
        if s.Diff() < 1 || forward < e.min1 then forward else e.min1,
        if s.Diff() < 1 || back < e.min2 then back else e.min2,
        if faster then forward + back else e.rttMin,
        if faster then Quot(forward - back, 2) else e.delta1)
  }

  /** The other estimate of the offset, computed once at the end. */
  function MeasureDelta(e: Estimate): int { Quot(e.min1 - e.min2, 2) }

  function Run(ip: bool, samples: seq<Sample>): Estimate {
    if samples == [] then Fresh()
    else Step(Run(ip, samples[..|samples| - 1]), ip, samples[|samples| - 1])
  }

  lemma {:induction false} RunSnoc(ip: bool, samples: seq<Sample>, s: Sample)
    ensures Run(ip, samples + [s]) == Step(Run(ip, samples), ip, s)
  {
    assert (samples + [s])[..|samples|] == samples;
  }

  ghost predicate FromWire(samples: seq<Sample>) {
    forall i | 0 <= i < |samples| :: samples[i].FromWire()
  }

  ghost predicate WithinDay(samples: seq<Sample>) {
    forall i | 0 <= i < |samples| :: samples[i].WithinDay()
  }

  // ---------------------------------------------------------------- the fastest sample

  function Round(s: Sample, ip: bool): int { s.Forward() + s.Back(ip) }

  /** `j` is the first accepted sample whose round trip no other accepted sample beats. */
  ghost predicate Fastest(ip: bool, samples: seq<Sample>, j: nat) {
    && j < |samples| && samples[j].Accepted()
    && (forall i | 0 <= i < |samples| && samples[i].Accepted() :: Round(samples[j], ip) <= Round(samples[i], ip))
    && (forall i | 0 <= i < j && samples[i].Accepted() :: Round(samples[j], ip) < Round(samples[i], ip))
  }

  ghost predicate AnyAccepted(samples: seq<Sample>) {
    exists i :: 0 <= i < |samples| && samples[i].Accepted()
  }

  /** The index of the first fastest sample, if any sample was accepted. */
  function FirstFastest(ip: bool, samples: seq<Sample>): (j: Option<nat>)
    ensures j.Some? ==> j.value < |samples| && samples[j.value].Accepted()
  {
    if samples == [] then None
    else
      var n := |samples| - 1;
      var before := FirstFastest(ip, samples[..n]);
      if !samples[n].Accepted() then before
      else if before.None? || Round(samples[n], ip) < Round(samples[before.value], ip) then Some(n)
      else before
  }

  lemma {:induction false} FirstFastestIs(ip: bool, samples: seq<Sample>)
    ensures FirstFastest(ip, samples).Some? <==> AnyAccepted(samples)
    ensures FirstFastest(ip, samples).Some? ==> Fastest(ip, samples, FirstFastest(ip, samples).value)
  {
    NoneAccepted(ip, samples);
    FirstFastestLeads(ip, samples);
    if FirstFastest(ip, samples).Some? { assert samples[FirstFastest(ip, samples).value].Accepted(); }
  }

  lemma {:induction false} NoneAccepted(ip: bool, samples: seq<Sample>)
    ensures FirstFastest(ip, samples).None? ==> forall i | 0 <= i < |samples| :: !samples[i].Accepted()
  {
    if samples != [] && FirstFastest(ip, samples).None? {
      var n := |samples| - 1;
      NoneAccepted(ip, samples[..n]);
      forall i | 0 <= i < n ensures !samples[i].Accepted() { assert samples[..n][i] == samples[i]; }
    }
  }

  /** No accepted sample is faster than the first fastest one, and none before it is as fast. */
  lemma {:induction false} FirstFastestLeads(ip: bool, samples: seq<Sample>)
    ensures FirstFastest(ip, samples).Some? ==>
              var j := FirstFastest(ip, samples).value;
              && (forall i | 0 <= i < |samples| && samples[i].Accepted() :: Round(samples[j], ip) <= Round(samples[i], ip))
              && (forall i | 0 <= i < j && samples[i].Accepted() :: Round(samples[j], ip) < Round(samples[i], ip))
  {
    if samples != [] {
      var n := |samples| - 1;
      FirstFastestLeads(ip, samples[..n]);
      NoneAccepted(ip, samples[..n]);
      forall i | 0 <= i < n ensures samples[..n][i] == samples[i] {}
    }
  }

  /** `e` reports the round trip and the offset of sample `s`. */
  predicate Reports(e: Estimate, ip: bool, s: Sample) {
    e.rttMin == Round(s, ip) && e.delta1 == Quot(s.Forward() - s.Back(ip), 2)
  }

  lemma RoundBelowMax(s: Sample, ip: bool)
    requires s.FromWire()
    ensures Round(s, ip) < I64_MAX
  {
  }

  lemma StepKeepsFaster(e: Estimate, ip: bool, s: Sample)
    ensures if s.Accepted() && Round(s, ip) < e.rttMin then Reports(Step(e, ip, s), ip, s)
            else Step(e, ip, s).rttMin == e.rttMin && Step(e, ip, s).delta1 == e.delta1
    ensures !s.Accepted() ==> Step(e, ip, s) == e
  {
  }

  /** The kept minimum and offset follow the first fastest sample. */
  lemma {:induction false} KeepsFastest(ip: bool, samples: seq<Sample>)
    requires FromWire(samples)
    ensures match FirstFastest(ip, samples)
            case Some(j) => Reports(Run(ip, samples), ip, samples[j])
            case None => Run(ip, samples) == Fresh()
  {
    if samples != [] {
      var n := |samples| - 1;
      KeepsFastest(ip, samples[..n]);
      StepKeepsFaster(Run(ip, samples[..n]), ip, samples[n]);
      RoundBelowMax(samples[n], ip);
    }
  }

  /** The reported minimum and `measure_delta1` both come from the first fastest sample. */
  lemma MinimumIsFastest(ip: bool, samples: seq<Sample>) returns (j: nat)
    requires FromWire(samples)
    ensures AnyAccepted(samples) ==> Fastest(ip, samples, j) && Reports(Run(ip, samples), ip, samples[j])
    ensures !AnyAccepted(samples) ==> Run(ip, samples) == Fresh()
  {
    FirstFastestIs(ip, samples);
    KeepsFastest(ip, samples);
    j := if FirstFastest(ip, samples).Some? then FirstFastest(ip, samples).value else 0;
  }

  /**
   A sample explained by true offset `theta`, forward delay `d1` and return delay `d2`, all
   timestamps being taken modulo one day.
   */
  ghost predicate Explains(s: Sample, ip: bool, theta: int, d1: int, d2: int) {
    && s.WithinDay() && d1 >= 0 && d2 >= 0
    && InBias(theta + d1) && InBias(d2 - theta)
    && (s.t2 - s.t1) % MODULO == (theta + d1) % MODULO
    && (s.t4 - (if ip then s.t3 else s.t2)) % MODULO == (d2 - theta) % MODULO
  }

  lemma ExplainedDeltas(s: Sample, ip: bool, theta: int, d1: int, d2: int)
    requires Explains(s, ip, theta, d1, d2)
    ensures s.Forward() == theta + d1 && s.Back(ip) == d2 - theta && s.FromWire()
  {
    MidnightNormalisation(s, ip, theta + d1);
    MidnightNormalisation(s, ip, d2 - theta);
  }

  /** Every accepted sample is explained by one common offset. */
  ghost predicate Explained(samples: seq<Sample>, ip: bool, theta: int, d1: seq<int>, d2: seq<int>) {
    && |d1| == |d2| == |samples|
    && FromWire(samples)
    && forall i | 0 <= i < |samples| && samples[i].Accepted() :: Explains(samples[i], ip, theta, d1[i], d2[i])
  }

  /**
   The clock error bound: `rtt_min` is the least true round trip, and the reported offset is
   wrong by at most half the asymmetry of that fastest sample, rounded, hence by at most half
   the least round trip.
   */
  lemma ClockErrorBound(ip: bool, samples: seq<Sample>, theta: int, d1: seq<int>, d2: seq<int>) returns (j: nat)
    requires Explained(samples, ip, theta, d1, d2) && AnyAccepted(samples)
    ensures j < |samples| && samples[j].Accepted()
    ensures Run(ip, samples).rttMin == d1[j] + d2[j]
    ensures forall i | 0 <= i < |samples| && samples[i].Accepted() :: d1[j] + d2[j] <= d1[i] + d2[i]
    ensures forall i | 0 <= i < j && samples[i].Accepted() :: d1[j] + d2[j] < d1[i] + d2[i]
    ensures Abs(2 * Run(ip, samples).delta1 - 2 * theta) <= Abs(d1[j] - d2[j]) + 1 <= Run(ip, samples).rttMin + 1
    ensures WithinBound(Run(ip, samples), theta)
  {
    j := MinimumIsFastest(ip, samples);
    forall i | 0 <= i < |samples| && samples[i].Accepted()
      ensures samples[i].Forward() == theta + d1[i] && samples[i].Back(ip) == d2[i] - theta
    {
      ExplainedDeltas(samples[i], ip, theta, d1[i], d2[i]);
    }
    assert Explains(samples[j], ip, theta, d1[j], d2[j]);
  }

  /** What a timestamp option that cannot be parsed is replaced by. */
  const UNPARSED := Sample(0, 0, 0, 0)

  /** All four clocks read the same, as in `UNPARSED`. */
  predicate StandsStill(s: Sample) { s.t1 == s.t2 == s.t3 == s.t4 }

  predicate WithinBound(e: Estimate, theta: int) {
    Abs(2 * e.delta1 - 2 * theta) <= e.rttMin + 1
  }

  /**
   One unparsable option, or any number of them, is enough to destroy the bound: it counts as a
   perfect sample with offset zero. When every other round trip is positive the reported offset is
   zero, and the bound holds if and only if the true offset is zero.
   */
  lemma {:induction false} UnparsedOptionForcesZero(ip: bool, samples: seq<Sample>, k: nat, theta: int)
    requires FromWire(samples) && k < |samples| && StandsStill(samples[k])
    requires forall i | 0 <= i < |samples| && samples[i].Accepted() && !StandsStill(samples[i]) ::
               Round(samples[i], ip) > 0
    ensures Run(ip, samples).rttMin == 0 && Run(ip, samples).delta1 == 0
    ensures WithinBound(Run(ip, samples), theta) <==> theta == 0
  {
    assert samples[k].Accepted();
    var j := MinimumIsFastest(ip, samples);
    StillIsPerfect(samples[k], ip);
    assert StandsStill(samples[j]);
    StillIsPerfect(samples[j], ip);
  }

  lemma StillIsPerfect(s: Sample, ip: bool)
    requires StandsStill(s)
    ensures s.Accepted() && s.Forward() == s.Back(ip) == 0 == Round(s, ip)
  {
  }

  /** Every accepted sample is explained by one common offset, but for those in which the clocks stand still. */
  ghost predicate OthersExplained(samples: seq<Sample>, ip: bool, theta: int, d1: seq<int>, d2: seq<int>) {
    && |d1| == |d2| == |samples|
    && FromWire(samples)
    && forall i | 0 <= i < |samples| && samples[i].Accepted() && !StandsStill(samples[i]) ::
         Explains(samples[i], ip, theta, d1[i], d2[i])
  }

  /** An accepted sample before number k with no delay either way. */
  ghost predicate PerfectBefore(samples: seq<Sample>, d1: seq<int>, d2: seq<int>, k: nat)
    requires |d1| == |d2| == |samples| && k <= |samples|
  {
    exists i :: 0 <= i < k && samples[i].Accepted() && d1[i] + d2[i] == 0
  }

  /**
   The exact damage: with sample k the first one from an option that could not be parsed, the bound
   survives if and only if the true offset is zero or a sample without any delay came earlier.
   */
  lemma {:induction false} UnparsedBoundIff(ip: bool, samples: seq<Sample>, theta: int, d1: seq<int>, d2: seq<int>, k: nat)
    requires OthersExplained(samples, ip, theta, d1, d2)
    requires k < |samples| && StandsStill(samples[k]) && forall i | 0 <= i < k :: !StandsStill(samples[i])
    ensures WithinBound(Run(ip, samples), theta) <==> theta == 0 || PerfectBefore(samples, d1, d2, k)
  {
    StillIsPerfect(samples[k], ip);
    var j := MinimumIsFastest(ip, samples);
    NoRoundIsNegative(ip, samples, theta, d1, d2);
    assert Round(samples[j], ip) == 0;
    if j < k {
      ExplainedRound(samples[j], ip, theta, d1[j], d2[j]);
      assert Run(ip, samples).delta1 == theta;
    } else {
      assert j == k && Run(ip, samples).delta1 == 0;
      forall i | 0 <= i < k && samples[i].Accepted() ensures d1[i] + d2[i] != 0 {
        ExplainedRound(samples[i], ip, theta, d1[i], d2[i]);
      }
    }
  }

  lemma NoRoundIsNegative(ip: bool, samples: seq<Sample>, theta: int, d1: seq<int>, d2: seq<int>)
    requires OthersExplained(samples, ip, theta, d1, d2)
    ensures forall i | 0 <= i < |samples| && samples[i].Accepted() :: Round(samples[i], ip) >= 0
  {
    forall i | 0 <= i < |samples| && samples[i].Accepted() ensures Round(samples[i], ip) >= 0 {
      if StandsStill(samples[i]) {
        StillIsPerfect(samples[i], ip);
      } else {
        ExplainedRound(samples[i], ip, theta, d1[i], d2[i]);
      }
    }
  }

  /** The round trip of an explained sample; without any delay, its offset is the true one. */
  lemma ExplainedRound(s: Sample, ip: bool, theta: int, d1: int, d2: int)
    requires Explains(s, ip, theta, d1, d2)
    ensures Round(s, ip) == d1 + d2 >= 0
    ensures d1 + d2 == 0 ==> Quot(s.Forward() - s.Back(ip), 2) == theta
  {
    ExplainedDeltas(s, ip, theta, d1, d2);
  }

  // ---------------------------------------------------------------- the two running minima

  lemma {:induction false} MinimaInBias(ip: bool, samples: seq<Sample>)
    requires WithinDay(samples)
    ensures InBias(Run(ip, samples).min1) && InBias(Run(ip, samples).min2)
    ensures Abs(MeasureDelta(Run(ip, samples))) <= BIASP
  {
    if samples != [] {
      var n := |samples| - 1;
      MinimaInBias(ip, samples[..n]);
      NormalisedIff(samples[n].t2 - samples[n].t1);
      NormalisedIff(samples[n].t4 - (if ip then samples[n].t3 else samples[n].t2));
    }
  }

  /** The two deltas of a sample, each with its own running minimum. */
  datatype Way = Out | Home

  function Delta(s: Sample, ip: bool, way: Way): int {
    if way.Out? then s.Forward() else s.Back(ip)
  }

  function MinOf(e: Estimate, way: Way): int {
    if way.Out? then e.min1 else e.min2
  }

  /** The last sample answered within its own millisecond: it overwrites both minima. */
  function LastReset(samples: seq<Sample>): (r: Option<nat>)
    ensures r.Some? ==> r.value < |samples| && samples[r.value].Diff() == 0
    ensures r.Some? ==> forall i | r.value < i < |samples| :: samples[i].Diff() != 0
    ensures r.None? ==> forall i | 0 <= i < |samples| :: samples[i].Diff() != 0
  {
    if samples == [] then None
    else if samples[|samples| - 1].Diff() == 0 then Some(|samples| - 1)
    else LastReset(samples[..|samples| - 1])
  }

  /** The first sample the minima still remember. */
  function Start(samples: seq<Sample>): nat {
    if LastReset(samples).Some? then LastReset(samples).value else 0
  }

  /** `m` is the least delta of the accepted samples from `first` on or, with `orZero`, of those and zero. */
  ghost predicate Least(samples: seq<Sample>, ip: bool, way: Way, first: nat, orZero: bool, m: int) {
    && (orZero ==> m <= 0)
    && (forall i | first <= i < |samples| && samples[i].Accepted() :: m <= Delta(samples[i], ip, way))
    && ((orZero && m == 0) || Attained(samples, ip, way, first, m))
  }

  ghost predicate Attained(samples: seq<Sample>, ip: bool, way: Way, first: nat, m: int) {
    exists i :: first <= i < |samples| && samples[i].Accepted() && Delta(samples[i], ip, way) == m
  }

  lemma AttainedSnoc(before: seq<Sample>, s: Sample, ip: bool, way: Way, first: nat, m: int)
    ensures Attained(before, ip, way, first, m) ==> Attained(before + [s], ip, way, first, m)
    ensures first <= |before| && s.Accepted() && m == Delta(s, ip, way) ==> Attained(before + [s], ip, way, first, m)
  {
    if i :| first <= i < |before| && before[i].Accepted() && Delta(before[i], ip, way) == m {
      assert (before + [s])[i] == before[i];
    }
    assert (before + [s])[|before|] == s;
  }

  /** What a sample does to a minimum, unless it resets it. */
  lemma LeastSnoc(before: seq<Sample>, s: Sample, ip: bool, way: Way, first: nat, orZero: bool, m: int)
    requires Least(before, ip, way, first, orZero, m) && first <= |before|
    ensures Least(before + [s], ip, way, first, orZero,
                  if s.Accepted() && Delta(s, ip, way) < m then Delta(s, ip, way) else m)
  {
    var m' := if s.Accepted() && Delta(s, ip, way) < m then Delta(s, ip, way) else m;
    AttainedSnoc(before, s, ip, way, first, m');
    forall i | first <= i < |before| + 1 && (before + [s])[i].Accepted()
      ensures m' <= Delta((before + [s])[i], ip, way)
    {
      if i < |before| { assert (before + [s])[i] == before[i]; }
    }
  }

  lemma StepOfMinimum(e: Estimate, ip: bool, s: Sample, way: Way)
    ensures MinOf(Step(e, ip, s), way) ==
            if s.Accepted() && (s.Diff() == 0 || Delta(s, ip, way) < MinOf(e, way)) then Delta(s, ip, way)
            else MinOf(e, way)
  {
  }

  /**
   The running minima in every run: the least deltas since the last reset, that sample included or,
   without a reset, the least of all deltas and of the zero they started from.
   */
  lemma {:induction false} MinimaSinceReset(ip: bool, samples: seq<Sample>, way: Way)
    ensures Least(samples, ip, way, Start(samples), LastReset(samples).None?, MinOf(Run(ip, samples), way))
  {
    if samples != [] {
      var n := |samples| - 1;
      var before, s := samples[..n], samples[n];
      assert samples == before + [s];
      MinimaSinceReset(ip, before, way);
      StepOfMinimum(Run(ip, before), ip, s, way);
      if s.Diff() == 0 {
        AttainedSnoc(before, s, ip, way, n, Delta(s, ip, way));
      } else {
        LeastSnoc(before, s, ip, way, Start(before), LastReset(before).None?, MinOf(Run(ip, before), way));
      }
    }
  }

  ghost predicate SomeNotPositive(samples: seq<Sample>, ip: bool, way: Way) {
    exists i :: 0 <= i < |samples| && samples[i].Accepted() && Delta(samples[i], ip, way) <= 0
  }

  /** An accepted sample from number r on has a delta of at most d. */
  ghost predicate ReachedSince(samples: seq<Sample>, ip: bool, way: Way, r: nat, d: int) {
    exists j :: r <= j < |samples| && samples[j].Accepted() && Delta(samples[j], ip, way) <= d
  }

  /** Every delta accepted before number r is matched or undercut from r on. */
  ghost predicate Undercut(samples: seq<Sample>, ip: bool, way: Way, r: nat)
    requires r <= |samples|
  {
    forall i | 0 <= i < r && samples[i].Accepted() :: ReachedSince(samples, ip, way, r, Delta(samples[i], ip, way))
  }

  /**
   When a running minimum is what its name says, the least of all accepted deltas. Without a reset:
   if and only if some delta is not positive, because it started at zero. With one: if and only if
   what the reset forgot has been matched since.
   */
  lemma {:induction false} MinimumIsLeastIff(ip: bool, samples: seq<Sample>, way: Way)
    requires AnyAccepted(samples)
    ensures Least(samples, ip, way, 0, false, MinOf(Run(ip, samples), way)) <==>
            match LastReset(samples)
            case None => SomeNotPositive(samples, ip, way)
            case Some(r) => Undercut(samples, ip, way, r)
  {
    var m := MinOf(Run(ip, samples), way);
    MinimaSinceReset(ip, samples, way);
    if LastReset(samples).Some? {
      LeastAfterReset(ip, samples, way, LastReset(samples).value, m);
    }
  }

  lemma LeastAfterReset(ip: bool, samples: seq<Sample>, way: Way, r: nat, m: int)
    requires r <= |samples| && Least(samples, ip, way, r, false, m)
    ensures Least(samples, ip, way, 0, false, m) <==> Undercut(samples, ip, way, r)
  {
    var j :| r <= j < |samples| && samples[j].Accepted() && Delta(samples[j], ip, way) == m;
    assert Attained(samples, ip, way, 0, m);
    if Undercut(samples, ip, way, r) {
      forall i | 0 <= i < r && samples[i].Accepted() ensures m <= Delta(samples[i], ip, way) {
        assert ReachedSince(samples, ip, way, r, Delta(samples[i], ip, way));
      }
    }
  }

  /** The input that the starting value alone does not explain: an instant reply discards a lower minimum. */
  lemma ResetForgets()
    ensures var samples := [Sample(100, 50, 50, 110), Sample(200, 203, 203, 200)];
            && samples[0].Forward() == -50 && samples[1].Forward() == 3
            && Run(false, samples).min1 == 3
  {
    var s, t := Sample(100, 50, 50, 110), Sample(200, 203, 203, 200);
    RunSnoc(false, [], s);
    RunSnoc(false, [s], t);
    assert [] + [s] == [s] && [s] + [t] == [s, t];
    StepOfMinimum(Run(false, [s]), false, t, Out);
  }

  // ---------------------------------------------------------------- what measure_delta measures

  /** Sample j has the least delay `d` of the accepted samples from `first` on. */
  ghost predicate LeastDelay(samples: seq<Sample>, d: seq<int>, first: nat, j: nat)
    requires |d| == |samples|
  {
    && first <= j < |samples| && samples[j].Accepted()
    && forall i | first <= i < |samples| && samples[i].Accepted() :: d[j] <= d[i]
  }

  lemma {:induction false} LeastDelayExists(samples: seq<Sample>, d: seq<int>, first: nat, k: nat) returns (j: nat)
    requires |d| == |samples| && first <= k < |samples| && samples[k].Accepted()
    ensures LeastDelay(samples, d, first, j)
    decreases |samples|
  {
    var n := |samples| - 1;
    if k < n {
      j := LeastDelayExists(samples[..n], d[..n], first, k);
      forall i | 0 <= i < n ensures samples[..n][i] == samples[i] && d[..n][i] == d[i] {}
    } else {
      j := n;
      if i :| first <= i < n && samples[i].Accepted() {
        j := LeastDelayExists(samples[..n], d[..n], first, i);
        forall i | 0 <= i < n ensures samples[..n][i] == samples[i] && d[..n][i] == d[i] {}
      }
    }
    if samples[n].Accepted() && d[n] < d[j] { j := n; }
  }

  /** A running minimum of an explained run, in terms of the offset and the least delay that way. */
  lemma MinimumExplained(ip: bool, samples: seq<Sample>, theta: int, d1: seq<int>, d2: seq<int>, way: Way) returns (j: nat)
    requires Explained(samples, ip, theta, d1, d2) && AnyAccepted(samples)
    ensures LeastDelay(samples, if way.Out? then d1 else d2, Start(samples), j)
    ensures var least := if way.Out? then theta + d1[j] else d2[j] - theta;
            MinOf(Run(ip, samples), way) == if LastReset(samples).Some? then least else Min(0, least)
  {
    var d, reset := if way.Out? then d1 else d2, LastReset(samples);
    var k :| 0 <= k < |samples| && samples[k].Accepted();
    j := LeastDelayExists(samples, d, Start(samples), if reset.Some? then reset.value else k);
    MinimaSinceReset(ip, samples, way);
    DeltasExplained(ip, samples, theta, d1, d2, way);
    LeastIsLeastDelay(ip, samples, way, Start(samples), reset.None?, MinOf(Run(ip, samples), way),
                      d, if way.Out? then theta else -theta, j);
  }

  lemma LeastIsLeastDelay(
    ip: bool, samples: seq<Sample>, way: Way, first: nat, orZero: bool, m: int, d: seq<int>, offset: int, j: nat)
    requires Least(samples, ip, way, first, orZero, m)
    requires |d| == |samples| && LeastDelay(samples, d, first, j)
    requires forall i | first <= i < |samples| && samples[i].Accepted() :: Delta(samples[i], ip, way) == offset + d[i]
    ensures m == if orZero then Min(0, offset + d[j]) else offset + d[j]
  {
    if i :| first <= i < |samples| && samples[i].Accepted() && Delta(samples[i], ip, way) == m {
      assert d[j] <= d[i];
    }
  }

  lemma DeltasExplained(ip: bool, samples: seq<Sample>, theta: int, d1: seq<int>, d2: seq<int>, way: Way)
    requires Explained(samples, ip, theta, d1, d2)
    ensures forall i | 0 <= i < |samples| && samples[i].Accepted() ::
              Delta(samples[i], ip, way) == if way.Out? then theta + d1[i] else d2[i] - theta
  {
    forall i | 0 <= i < |samples| && samples[i].Accepted()
      ensures Delta(samples[i], ip, way) == if way.Out? then theta + d1[i] else d2[i] - theta
    {
      ExplainedDeltas(samples[i], ip, theta, d1[i], d2[i]);
    }
  }

  /**
   After a reset `measure_delta` is sound: it is off by at most half the difference of the two least
   delays since then, rounded.
   */
  lemma MeasureAfterReset(ip: bool, samples: seq<Sample>, theta: int, d1: seq<int>, d2: seq<int>)
    returns (j: nat, k: nat)
    requires Explained(samples, ip, theta, d1, d2) && LastReset(samples).Some?
    ensures LeastDelay(samples, d1, Start(samples), j) && LeastDelay(samples, d2, Start(samples), k)
    ensures Abs(2 * MeasureDelta(Run(ip, samples)) - 2 * theta) <= Abs(d1[j] - d2[k]) + 1
  {
    assert samples[Start(samples)].Accepted();
    j := MinimumExplained(ip, samples, theta, d1, d2, Out);
    k := MinimumExplained(ip, samples, theta, d1, d2, Home);
    var e := Run(ip, samples);
    assert e.min1 - e.min2 == 2 * theta + (d1[j] - d2[k]);
  }

  /**
   A remote clock that is ahead of every delay: `measure_delta` comes out as half of the offset,
   less the least return delay, unless some reply was instant; then it is the whole offset, up to
   the asymmetry of the least delays since the last such reply.
   */
  lemma RemoteAheadIsHalved(ip: bool, samples: seq<Sample>, theta: int, d1: seq<int>, d2: seq<int>)
    returns (j: nat, k: nat)
    requires Explained(samples, ip, theta, d1, d2) && AnyAccepted(samples)
    requires forall i | 0 <= i < |samples| && samples[i].Accepted() :: theta >= d2[i] && theta + d1[i] > 0
    ensures LeastDelay(samples, d1, Start(samples), j) && LeastDelay(samples, d2, Start(samples), k)
    ensures MeasureDelta(Run(ip, samples)) ==
            if LastReset(samples).None? then (theta - d2[k]) / 2 else Quot(2 * theta + d1[j] - d2[k], 2)
  {
    j := MinimumExplained(ip, samples, theta, d1, d2, Out);
    k := MinimumExplained(ip, samples, theta, d1, d2, Home);
  }

  // ---------------------------------------------------------------- the filters

  ghost predicate DiffsUpTo(samples: seq<Sample>, d: int) {
    forall i | 0 <= i < |samples| && samples[i].Accepted() :: samples[i].Diff() <= d
  }

  /** Neither filter ever leaves the range of what it smooths. */
  lemma {:induction false} FilterBounds(ip: bool, samples: seq<Sample>, d: nat)
    requires DiffsUpTo(samples, d)
    ensures 0 <= Run(ip, samples).rtt <= d
    ensures 0 <= 3 * Run(ip, samples).sigma <= d
  {
    if samples != [] {
      FilterBounds(ip, samples[..|samples| - 1], d);
    }
  }

  lemma {:induction false} FiltersNotNegative(ip: bool, samples: seq<Sample>)
    ensures Run(ip, samples).rtt >= 0 && Run(ip, samples).sigma >= 0
  {
    if samples != [] { FiltersNotNegative(ip, samples[..|samples| - 1]); }
  }

  /**
   What one more sample does to both filters: the new time is a quarter of the difference and three
   quarters of the old time, and the new deviation a quarter of the old one and of the distance from
   the new time, all rounded down. A discarded sample does nothing.
   */
  lemma {:induction false} FiltersFollow(ip: bool, samples: seq<Sample>, s: Sample)
    ensures var e, e' := Run(ip, samples), Run(ip, samples + [s]);
            if s.Accepted() then
              && 4 * e'.rtt <= 3 * e.rtt + s.Diff() < 4 * e'.rtt + 4
              && 4 * e'.sigma <= e.sigma + Abs(s.Diff() - e'.rtt) < 4 * e'.sigma + 4
            else e' == e
  {
    FiltersNotNegative(ip, samples);
    RunSnoc(ip, samples, s);
  }

  /** With every difference equal to D the filter never falls, and after D samples it has settled at max(0, D - 3). */
  lemma {:induction false} FilterConverges(ip: bool, samples: seq<Sample>, d: nat)
    requires forall i | 0 <= i < |samples| :: samples[i].Diff() == d
    ensures samples != [] ==> Run(ip, samples[..|samples| - 1]).rtt <= Run(ip, samples).rtt
    ensures Run(ip, samples).rtt <= (if d <= 3 then 0 else d - 3)
    ensures |samples| <= Run(ip, samples).rtt || Run(ip, samples).rtt == (if d <= 3 then 0 else d - 3)
  {
    if samples != [] {
      FilterConverges(ip, samples[..|samples| - 1], d);
    }
  }

  ghost predicate AllDiffs(samples: seq<Sample>, d: nat) {
    forall i | 0 <= i < |samples| :: samples[i].Diff() == d
  }

  /** Once the time has settled, the deviation falls until it is at most 1. */
  lemma {:induction false} DeviationFalls(ip: bool, before: seq<Sample>, s: Sample, d: nat)
    requires AllDiffs(before + [s], d) && |before| >= d
    ensures Run(ip, before + [s]).sigma <= Max(1, Run(ip, before).sigma - 1)
  {
    var samples := before + [s];
    assert samples[|before|] == s;
    FilterConverges(ip, samples, d);
    FiltersFollow(ip, before, s);
    FiltersNotNegative(ip, samples);
    DeviationStep(Run(ip, before).sigma, Run(ip, samples).sigma, Abs(s.Diff() - Run(ip, samples).rtt));
  }

  /** With every difference equal to D the deviation dies away: after 2D samples it is at most 1, for ever. */
  lemma {:induction false} DeviationSettles(ip: bool, samples: seq<Sample>, d: nat)
    requires AllDiffs(samples, d) && |samples| >= d
    ensures Run(ip, samples).sigma <= Max(1, d - (|samples| - d))
  {
    if |samples| <= d {
      assert DiffsUpTo(samples, d);
      FilterBounds(ip, samples, d);
    } else {
      var n := |samples| - 1;
      assert samples == samples[..n] + [samples[n]];
      DeviationSettles(ip, samples[..n], d);
      DeviationFalls(ip, samples[..n], samples[n], d);
    }
  }

  lemma DeviationStep(sigma: int, sigma': int, deviation: nat)
    requires deviation <= 3 && 4 * sigma' <= sigma + deviation
    ensures sigma' <= Max(1, sigma - 1)
  {
  }

  /** No intermediate value of the 64-bit arithmetic overflows on timestamps read from the wire. */
  lemma {:induction false} NoOverflow(ip: bool, samples: seq<Sample>, s: Sample)
    requires FromWire(samples) && s.FromWire()
    ensures var e := Run(ip, samples);
            && FitsI64(e.rtt * 3 + s.Diff())
            && FitsI64(e.sigma + Abs(s.Diff() - Quot(e.rtt * 3 + s.Diff(), 4)))
            && FitsI64(s.Forward() + s.Back(ip)) && FitsI64(s.Forward() - s.Back(ip))
            && FitsI64(e.min1 - e.min2)
  {
    FilterBounds(ip, samples, 0x1_0000_0000);
    MinimaFromWire(ip, samples);
  }

  lemma {:induction false} MinimaFromWire(ip: bool, samples: seq<Sample>)
    requires FromWire(samples)
    ensures Abs(Run(ip, samples).min1) <= 0x2_0000_0000 && Abs(Run(ip, samples).min2) <= 0x2_0000_0000
  {
    if samples != [] { MinimaFromWire(ip, samples[..|samples| - 1]); }
  }

  // ---------------------------------------------------------------- the program

  class SumResult {
    var measureDelta: int
    var measureDelta1: int
    var rtt: int
    var rttMin: int
    var rttSigma: int
    var min1: int
    var min2: int

    function Value(): Estimate
      reads this
    {
      Estimate(rtt, rttSigma, min1, min2, rttMin, measureDelta1)
    }

    constructor ()
      ensures Value() == Fresh() && measureDelta == HOSTDOWN
    {
      rtt, rttSigma, min1, min2 := 0, 0, 0, 0;
      rttMin, measureDelta, measureDelta1 := I64_MAX, HOSTDOWN, HOSTDOWN;
    }

    method CalculateDelta(ipTimestamp: bool, res: Sample) returns (code: int)
      modifies this
      ensures Value() == Step(old(Value()), ipTimestamp, res) && measureDelta == old(measureDelta)
      ensures code == 4 <==> res.Diff() == 0
      ensures code == 4 || code == 5
    {
      var diff := res.t4 - res.t1;
      if diff < 0 { return 5; }
      ghost var e := Value();
      rtt := Quot(rtt * 3 + diff, 4);
      rttSigma := Quot(rttSigma + Abs(diff - rtt), 4);
      assert (rtt, rttSigma) == (Step(e, ipTimestamp, res).rtt, Step(e, ipTimestamp, res).sigma);

      var delta1 := res.t2 - res.t1;
      var delta2 := if ipTimestamp then res.t4 - res.t3 else res.t4 - res.t2;
      if delta1 < BIASN {
        delta1 := delta1 + MODULO;
      } else if delta1 > BIASP {
        delta1 := delta1 - MODULO;
      }
      if delta2 < BIASN {
        delta2 := delta2 + MODULO;
      } else if delta2 > BIASP {
        delta2 := delta2 - MODULO;
      }
      assert delta1 == res.Forward() && delta2 == res.Back(ipTimestamp);

      if delta1 < min1 { min1 := delta1; }
      if delta2 < min2 { min2 := delta2; }
      if delta1 + delta2 < rttMin {
        rttMin := delta1 + delta2;
        measureDelta1 := Quot(delta1 - delta2, 2);
      }
      if diff < 1 {
        min1, min2 := delta1, delta2;
        return 4;
      }
      code := 5;
    }

    method Finish()
      modifies this`measureDelta
      ensures Value() == old(Value()) && measureDelta == MeasureDelta(Value())
    {
      measureDelta := Quot(min1 - min2, 2);
    }

    /** One more sample of the run so far. */
    method Add(ip: bool, ghost before: seq<Sample>, s: Sample)
      requires Value() == Run(ip, before)
      modifies this
      ensures Value() == Run(ip, before + [s])
    {
      RunSnoc(ip, before, s);
      var _ := CalculateDelta(ip, s);
    }
  }

  /** A parsed reply or option, or the error its parser returned. */
  datatype Parsed = Good(sample: Sample) | Bad

  /** What follows one request: nothing, a socket error, or a packet. */
  datatype Exchange =
    | Interrupted
    | SendError
    | Silence
    | ReceiveError
    | Packet(timestampReply: Option<Parsed>, options: seq<Parsed>)
  {
    /** The run goes on to the next request. */
    predicate Continues() {
      Silence? || (Packet? && timestampReply != Some(Bad))
    }

    /** The samples this exchange feeds to the estimator, in order. */
    function Samples(ip: bool): seq<Sample>
      requires Continues()
    {
      if Silence? then []
      else
        (if timestampReply.Some? then [timestampReply.value.sample] else []) +
        (if ip then OptionSamples(options) else [])
    }
  }

  function SampleOf(p: Parsed): Sample {
    if p.Good? then p.sample else UNPARSED
  }

  function OptionSamples(options: seq<Parsed>): seq<Sample> {
    if options == [] then []
    else OptionSamples(options[..|options| - 1]) + [SampleOf(options[|options| - 1])]
  }

  /** All of these exchanges let the run go on. */
  predicate AllContinue(exchanges: seq<Exchange>) {
    forall x | x in exchanges :: x.Continues()
  }

  /** All samples of some exchanges, in order. */
  function Gathered(ip: bool, exchanges: seq<Exchange>): seq<Sample>
    requires AllContinue(exchanges)
  {
    if exchanges == [] then []
    else
      var n := |exchanges| - 1;
      Gathered(ip, exchanges[..n]) + exchanges[n].Samples(ip)
  }

  lemma {:induction false} GatheredSnoc(ip: bool, exchanges: seq<Exchange>, n: nat)
    requires n < |exchanges| && AllContinue(exchanges[..n]) && exchanges[n].Continues()
    ensures AllContinue(exchanges[..n + 1])
    ensures Gathered(ip, exchanges[..n + 1]) == Gathered(ip, exchanges[..n]) + exchanges[n].Samples(ip)
  {
    assert exchanges[..n + 1] == exchanges[..n] + [exchanges[n]];
    assert exchanges[..n + 1][..n] == exchanges[..n];
  }

  datatype Outcome = Summary(estimate: Estimate, measureDelta: int) | Failed

  /** What stops a run: an interrupt, a failed send or receive, or a timestamp reply that cannot be parsed. */
  lemma ContinuesIff(x: Exchange)
    ensures x.Continues() <==>
            !x.Interrupted? && !x.SendError? && !x.ReceiveError? && !(x.Packet? && x.timestampReply == Some(Bad))
  {
  }

  lemma {:induction false} OptionSampleAt(options: seq<Parsed>, i: nat)
    requires i < |options|
    ensures |OptionSamples(options)| == |options|
    ensures OptionSamples(options)[i] == if options[i].Good? then options[i].sample else Sample(0, 0, 0, 0)
  {
    var n := |options| - 1;
    if i < n {
      OptionSampleAt(options[..n], i);
    } else if n > 0 {
      OptionSampleAt(options[..n], 0);
    }
  }

  /** The samples of one packet, one by one. */
  ghost predicate PacketGives(samples: seq<Sample>, ip: bool, reply: Option<Parsed>, options: seq<Parsed>) {
    var first := if reply.Some? then 1 else 0;
    && |samples| == first + (if ip then |options| else 0)
    && (reply.Some? && reply.value.Good? ==> samples[0] == reply.value.sample)
    && (ip ==> forall i | 0 <= i < |options| ::
          samples[first + i] == if options[i].Good? then options[i].sample else Sample(0, 0, 0, 0))
  }

  lemma {:induction false} PacketSamples(ip: bool, reply: Option<Parsed>, options: seq<Parsed>)
    requires reply != Some(Bad)
    ensures PacketGives(Packet(reply, options).Samples(ip), ip, reply, options)
  {
    if options != [] { OptionSampleAt(options, 0); }
    forall i | 0 <= i < |options|
      ensures OptionSamples(options)[i] == if options[i].Good? then options[i].sample else Sample(0, 0, 0, 0)
    {
      OptionSampleAt(options, i);
    }
  }

  /**
   What one packet adds to the samples: the sample of its timestamp reply, if it is one, and behind
   it, if options are asked for, one sample for every timestamp option, its own or all zeros.
   */
  lemma {:induction false} GatheredPacket(ip: bool, exchanges: seq<Exchange>, reply: Option<Parsed>, options: seq<Parsed>)
    requires AllContinue(exchanges) && reply != Some(Bad)
    ensures AllContinue(exchanges + [Packet(reply, options)])
    ensures var g, g' := Gathered(ip, exchanges), Gathered(ip, exchanges + [Packet(reply, options)]);
            g <= g' && PacketGives(g'[|g|..], ip, reply, options)
  {
    var x := Packet(reply, options);
    var more := exchanges + [x];
    assert more[..|exchanges|] == exchanges && more[..|exchanges| + 1] == more;
    GatheredSnoc(ip, more, |exchanges|);
    PacketSamples(ip, reply, options);
    assert (Gathered(ip, exchanges) + x.Samples(ip))[|Gathered(ip, exchanges)|..] == x.Samples(ip);
  }

  lemma {:induction false} SilenceAddsNothing(ip: bool, exchanges: seq<Exchange>)
    requires AllContinue(exchanges)
    ensures AllContinue(exchanges + [Silence])
    ensures Gathered(ip, exchanges + [Silence]) == Gathered(ip, exchanges)
  {
    var more := exchanges + [Silence];
    assert more[..|exchanges|] == exchanges && more[..|exchanges| + 1] == more;
    GatheredSnoc(ip, more, |exchanges|);
  }

  /** The samples of the timestamp replies among some exchanges, in order. */
  function Replies(exchanges: seq<Exchange>): seq<Sample> {
    if exchanges == [] then []
    else if exchanges[0].Packet? && exchanges[0].timestampReply.Some? && exchanges[0].timestampReply.value.Good?
    then [exchanges[0].timestampReply.value.sample] + Replies(exchanges[1..])
    else Replies(exchanges[1..])
  }

  lemma {:induction false} RepliesConcat(xs: seq<Exchange>, ys: seq<Exchange>)
    ensures Replies(xs + ys) == Replies(xs) + Replies(ys)
  {
    if xs == [] {
      assert xs + ys == ys;
    } else {
      assert (xs + ys)[1..] == xs[1..] + ys;
      RepliesConcat(xs[1..], ys);
    }
  }

  /** Without IP timestamps a run gathers exactly the timestamp replies, whatever else happens. */
  lemma {:induction false} GatheredIsReplies(exchanges: seq<Exchange>)
    requires AllContinue(exchanges)
    ensures Gathered(false, exchanges) == Replies(exchanges)
  {
    if exchanges != [] {
      var n := |exchanges| - 1;
      var before, x := exchanges[..n], exchanges[n];
      assert exchanges == before + [x] && x in exchanges;
      GatheredIsReplies(before);
      RepliesConcat(before, [x]);
      assert [x][1..] == [];
      if x.Silence? {
        SilenceAddsNothing(false, before);
      } else {
        GatheredPacket(false, before, x.timestampReply, x.options);
        var g, g' := Gathered(false, before), Gathered(false, exchanges);
        assert g' == g + g'[|g|..];
      }
    }
  }

  /** One exchange for each of the 50 requests. */
  type Script = x: seq<Exchange> | |x| == MSGS witness seq(MSGS, _ => Silence)

  /** How many exchanges happen: all of them, or as many as precede the first that stops the run. */
  ghost predicate RunsFor(exchanges: seq<Exchange>, n: nat) {
    && n <= |exchanges|
    && AllContinue(exchanges[..n])
    && (n < |exchanges| ==> !exchanges[n].Continues())
  }

  /** What a run that ends after n exchanges reports: an interrupt still prints a summary, any error does not. */
  ghost predicate Reported(ip: bool, exchanges: Script, r: Outcome, n: nat) {
    && RunsFor(exchanges, n)
    && (r.Failed? <==> n < MSGS && !exchanges[n].Interrupted?)
    && (r.Summary? ==>
          && r.estimate == Run(ip, Gathered(ip, exchanges[..n]))
          && r.measureDelta == MeasureDelta(r.estimate))
  }

  /** The whole run. */
  method ClockdiffRun(ip: bool, exchanges: Script) returns (r: Outcome, n: nat)
    ensures Reported(ip, exchanges, r, n)
  {
    var sum := new SumResult();
    var ok;
    ok, n := SampleLoop(sum, ip, exchanges);
    if !ok { return Failed, n; }
    sum.Finish();
    r := Summary(sum.Value(), sum.measureDelta);
  }

  method SampleLoop(sum: SumResult, ip: bool, exchanges: seq<Exchange>) returns (ok: bool, n: nat)
    requires sum.Value() == Fresh()
    modifies sum
    ensures RunsFor(exchanges, n) && (!ok <==> n < |exchanges| && !exchanges[n].Interrupted?)
    ensures ok ==> sum.Value() == Run(ip, Gathered(ip, exchanges[..n]))
  {
    n := 0;
    while n < |exchanges|
      invariant n <= |exchanges| && AllContinue(exchanges[..n])
      invariant sum.Value() == Run(ip, Gathered(ip, exchanges[..n]))
    {
      if exchanges[n].Interrupted? { break; }
      var go := HandleNext(sum, ip, exchanges, n);
      if !go { return false, n; }
      n := n + 1;
    }
    ok := true;
  }

  /** The exchange after the first n. */
  method HandleNext(sum: SumResult, ip: bool, exchanges: seq<Exchange>, n: nat) returns (go: bool)
    requires n < |exchanges| && !exchanges[n].Interrupted? && AllContinue(exchanges[..n])
    requires sum.Value() == Run(ip, Gathered(ip, exchanges[..n]))
    modifies sum
    ensures go == exchanges[n].Continues()
    ensures go ==> AllContinue(exchanges[..n + 1]) && sum.Value() == Run(ip, Gathered(ip, exchanges[..n + 1]))
  {
    go := Handle(sum, ip, Gathered(ip, exchanges[..n]), exchanges[n]);
    if go { GatheredSnoc(ip, exchanges, n); }
  }

  /** One request and what follows it; `go` unless an error ends the run. */
  method Handle(sum: SumResult, ip: bool, ghost before: seq<Sample>, x: Exchange) returns (go: bool)
    requires !x.Interrupted? && sum.Value() == Run(ip, before)
    modifies sum
    ensures go == x.Continues()
    ensures go ==> sum.Value() == Run(ip, before + x.Samples(ip))
  {
    match x
    case SendError => return false;
    case Silence =>
      assert before + x.Samples(ip) == before;
      return true;
    case ReceiveError => return false;
    case Packet(timestampReply, options) =>
      if timestampReply == Some(Bad) { return false; }
      FeedAll(sum, ip, before, x.Samples(ip));
      return true;
  }

  /** Feed the samples of one packet to the estimator, in order. */
  method FeedAll(sum: SumResult, ip: bool, ghost before: seq<Sample>, samples: seq<Sample>)
    requires sum.Value() == Run(ip, before)
    modifies sum
    ensures sum.Value() == Run(ip, before + samples)
  {
    ghost var fed := before;
    for i := 0 to |samples|
      invariant sum.Value() == Run(ip, fed) && fed == before + samples[..i]
    {
      sum.Add(ip, fed, samples[i]);
      fed := fed + [samples[i]];
    }
    assert fed == before + samples;
  }

  // ---------------------------------------------------------------- the error bound of a whole run

  /** The one sample an exchange carries: its reply's or, with IP timestamps, that of its only option. */
  function Carried(ip: bool, x: Exchange): Option<Sample> {
    if !x.Packet? then None
    else if x.timestampReply.Some? && x.timestampReply.value.Good? then Some(x.timestampReply.value.sample)
    else if ip && |x.options| == 1 && x.options[0].Good? then Some(x.options[0].sample)
    else None
  }

  /** Nothing in the exchange stops the run or carries a second sample. */
  predicate Simple(ip: bool, x: Exchange) {
    || x.Silence?
    || (x.Packet? && x.timestampReply != Some(Bad)
        && (ip ==> if x.timestampReply.Some? then x.options == []
                   else x.options == [] || (|x.options| == 1 && x.options[0].Good?)))
  }

  /** The exchanges that carry a sample. */
  function Carriers(ip: bool, exchanges: seq<Exchange>): seq<nat> {
    if exchanges == [] then []
    else
      var n := |exchanges| - 1;
      Carriers(ip, exchanges[..n]) + if Carried(ip, exchanges[n]).Some? then [n] else []
  }

  lemma OneGiven(samples: seq<Sample>, ip: bool, reply: Option<Parsed>, options: seq<Parsed>)
    requires Simple(ip, Packet(reply, options)) && PacketGives(samples, ip, reply, options)
    ensures samples == match Carried(ip, Packet(reply, options)) case Some(s) => [s] case None => []
  {
    if ip && reply.None? && options != [] { assert samples[0 + 0] == options[0].sample; }
  }

  /** A simple exchange adds the sample it carries. */
  lemma {:induction false} GatheredSimple(ip: bool, exchanges: seq<Exchange>, x: Exchange)
    requires AllContinue(exchanges) && Simple(ip, x)
    ensures AllContinue(exchanges + [x])
    ensures Gathered(ip, exchanges + [x]) ==
            Gathered(ip, exchanges) + match Carried(ip, x) case Some(s) => [s] case None => []
  {
    if x.Silence? {
      SilenceAddsNothing(ip, exchanges);
    } else {
      GatheredPacket(ip, exchanges, x.timestampReply, x.options);
      var g, g' := Gathered(ip, exchanges), Gathered(ip, exchanges + [x]);
      assert g' == g + g'[|g|..];
      OneGiven(g'[|g|..], ip, x.timestampReply, x.options);
    }
  }

  ghost predicate AllSimple(ip: bool, exchanges: seq<Exchange>) {
    forall x | x in exchanges :: Simple(ip, x)
  }

  /** The carriers are in order, and each is an exchange that carries a sample. */
  lemma {:induction false} CarriersInOrder(ip: bool, exchanges: seq<Exchange>)
    ensures forall m | 0 <= m < |Carriers(ip, exchanges)| ::
              Carriers(ip, exchanges)[m] < |exchanges| && Carried(ip, exchanges[Carriers(ip, exchanges)[m]]).Some?
    ensures forall l, m | 0 <= l < m < |Carriers(ip, exchanges)| ::
              Carriers(ip, exchanges)[l] < Carriers(ip, exchanges)[m]
  {
    if exchanges != [] { CarriersInOrder(ip, exchanges[..|exchanges| - 1]); }
  }

  lemma {:induction false} CarrierOf(ip: bool, exchanges: seq<Exchange>, i: nat) returns (m: nat)
    requires i < |exchanges| && Carried(ip, exchanges[i]).Some?
    ensures m < |Carriers(ip, exchanges)| && Carriers(ip, exchanges)[m] == i
  {
    var n := |exchanges| - 1;
    if i == n {
      m := |Carriers(ip, exchanges[..n])|;
    } else {
      m := CarrierOf(ip, exchanges[..n], i);
    }
  }

  /** Sample m is the one that exchange number from[m] carries. */
  ghost predicate ComesFrom(ip: bool, exchanges: seq<Exchange>, samples: seq<Sample>, from: seq<nat>) {
    && |samples| == |from|
    && forall m | 0 <= m < |from| :: from[m] < |exchanges| && Carried(ip, exchanges[from[m]]) == Some(samples[m])
  }

  lemma ComesFromSnoc(ip: bool, exchanges: seq<Exchange>, samples: seq<Sample>, from: seq<nat>, x: Exchange)
    requires ComesFrom(ip, exchanges, samples, from)
    ensures ComesFrom(ip, exchanges + [x], samples, from)
    ensures Carried(ip, x).Some? ==>
              ComesFrom(ip, exchanges + [x], samples + [Carried(ip, x).value], from + [|exchanges|])
  {
    forall m | 0 <= m < |from| ensures (exchanges + [x])[from[m]] == exchanges[from[m]] {
    }
  }

  /** The m-th gathered sample is the one the m-th carrier carries. */
  lemma {:induction false} GatheredFrom(ip: bool, exchanges: seq<Exchange>)
    requires AllSimple(ip, exchanges)
    ensures AllContinue(exchanges)
    ensures ComesFrom(ip, exchanges, Gathered(ip, exchanges), Carriers(ip, exchanges))
  {
    if exchanges != [] {
      var n := |exchanges| - 1;
      var before, x := exchanges[..n], exchanges[n];
      assert exchanges == before + [x] && x in exchanges;
      GatheredFrom(ip, before);
      GatheredSimple(ip, before, x);
      ComesFromSnoc(ip, before, Gathered(ip, before), Carriers(ip, before), x);
      assert Gathered(ip, before) + [] == Gathered(ip, before);
    }
  }

  /** Exchange i carries a sample that the estimator accepts. */
  predicate Measures(ip: bool, x: Exchange) {
    Carried(ip, x).Some? && Carried(ip, x).value.Accepted()
  }

  /** Every sample carried is explained by one offset and the delays of its exchange. */
  ghost predicate RunExplained(ip: bool, exchanges: seq<Exchange>, theta: int, d1: seq<int>, d2: seq<int>) {
    && |d1| == |d2| == |exchanges|
    && AllSimple(ip, exchanges)
    && (forall i | 0 <= i < |exchanges| && Carried(ip, exchanges[i]).Some? :: Carried(ip, exchanges[i]).value.FromWire())
    && forall i | 0 <= i < |exchanges| && Measures(ip, exchanges[i]) ::
         Explains(Carried(ip, exchanges[i]).value, ip, theta, d1[i], d2[i])
  }

  function Pick(d: seq<int>, indices: seq<nat>): seq<int>
    requires forall m | 0 <= m < |indices| :: indices[m] < |d|
  {
    seq(|indices|, m requires 0 <= m < |indices| => d[indices[m]])
  }

  lemma {:induction false} SamplesExplained(ip: bool, exchanges: seq<Exchange>, theta: int, d1: seq<int>, d2: seq<int>)
    requires RunExplained(ip, exchanges, theta, d1, d2)
    ensures AllContinue(exchanges)
    ensures forall m | 0 <= m < |Carriers(ip, exchanges)| :: Carriers(ip, exchanges)[m] < |exchanges|
    ensures Explained(Gathered(ip, exchanges), ip, theta, Pick(d1, Carriers(ip, exchanges)), Pick(d2, Carriers(ip, exchanges)))
  {
    GatheredFrom(ip, exchanges);
    var samples, from := Gathered(ip, exchanges), Carriers(ip, exchanges);
    forall m | 0 <= m < |samples| ensures samples[m].FromWire() {
      assert Carried(ip, exchanges[from[m]]) == Some(samples[m]);
    }
    forall m | 0 <= m < |samples| && samples[m].Accepted()
      ensures Explains(samples[m], ip, theta, Pick(d1, from)[m], Pick(d2, from)[m])
    {
      assert Carried(ip, exchanges[from[m]]) == Some(samples[m]);
      assert Measures(ip, exchanges[from[m]]);
    }
  }

  /** Of samples that come from the exchanges numbered `from`, the j-th is the first with the least delays. */
  ghost predicate Leads(samples: seq<Sample>, from: seq<nat>, d1: seq<int>, d2: seq<int>, j: nat) {
    && |samples| == |from| && |d1| == |d2| && j < |samples|
    && (forall m | 0 <= m < |from| :: from[m] < |d1|)
    && (forall m | 0 <= m < |samples| && samples[m].Accepted() ::
          d1[from[j]] + d2[from[j]] <= d1[from[m]] + d2[from[m]])
    && (forall m | 0 <= m < j && samples[m].Accepted() ::
          d1[from[j]] + d2[from[j]] < d1[from[m]] + d2[from[m]])
  }

  lemma {:induction false} LeadsExchanges(
    ip: bool, exchanges: seq<Exchange>, d1: seq<int>, d2: seq<int>, j: nat, i: nat)
    requires |d1| == |d2| == |exchanges| && AllSimple(ip, exchanges) && AllContinue(exchanges)
    requires Leads(Gathered(ip, exchanges), Carriers(ip, exchanges), d1, d2, j)
    requires i < |exchanges| && Measures(ip, exchanges[i])
    ensures var k := Carriers(ip, exchanges)[j];
            && d1[k] + d2[k] <= d1[i] + d2[i]
            && (i < k ==> d1[k] + d2[k] < d1[i] + d2[i])
  {
    GatheredFrom(ip, exchanges);
    CarriersInOrder(ip, exchanges);
    var m := CarrierOf(ip, exchanges, i);
    assert Gathered(ip, exchanges)[m].Accepted();
  }

  lemma {:induction false} SomeAccepted(ip: bool, exchanges: seq<Exchange>, i: nat)
    requires AllSimple(ip, exchanges) && i < |exchanges| && Measures(ip, exchanges[i])
    ensures AllContinue(exchanges) && AnyAccepted(Gathered(ip, exchanges))
  {
    GatheredFrom(ip, exchanges);
    var m := CarrierOf(ip, exchanges, i);
    assert Gathered(ip, exchanges)[m].Accepted();
  }

  /** `ClockErrorBound` for samples that come from the exchanges numbered `from`. */
  lemma LeadingSample(
    ip: bool, samples: seq<Sample>, from: seq<nat>, theta: int, d1: seq<int>, d2: seq<int>) returns (j: nat)
    requires |d1| == |d2| && forall m | 0 <= m < |from| :: from[m] < |d1|
    requires Explained(samples, ip, theta, Pick(d1, from), Pick(d2, from)) && AnyAccepted(samples)
    ensures Leads(samples, from, d1, d2, j) && samples[j].Accepted()
    ensures Bounded(Run(ip, samples), theta, d1[from[j]], d2[from[j]])
  {
    j := ClockErrorBound(ip, samples, theta, Pick(d1, from), Pick(d2, from));
    forall m | 0 <= m < |from| ensures Pick(d1, from)[m] == d1[from[m]] && Pick(d2, from)[m] == d2[from[m]] {
    }
  }

  /** The minimum is this round trip, and the offset is wrong by at most half its asymmetry, rounded. */
  predicate Bounded(e: Estimate, theta: int, d1: int, d2: int) {
    && e.rttMin == d1 + d2
    && Abs(2 * e.delta1 - 2 * theta) <= Abs(d1 - d2) + 1 <= e.rttMin + 1
  }

  /** Exchange k is the first of those that measured the least round trip. */
  ghost predicate FirstLeast(ip: bool, exchanges: seq<Exchange>, d1: seq<int>, d2: seq<int>, k: nat)
    requires |d1| == |d2| == |exchanges|
  {
    && k < |exchanges| && Measures(ip, exchanges[k])
    && (forall i | 0 <= i < |exchanges| && Measures(ip, exchanges[i]) :: d1[k] + d2[k] <= d1[i] + d2[i])
    && (forall i | 0 <= i < k && Measures(ip, exchanges[i]) :: d1[k] + d2[k] < d1[i] + d2[i])
  }

  /** The estimate over the exchanges gathered, in terms of the exchanges. */
  lemma {:induction false} ExchangeErrorBound(
    ip: bool, exchanges: seq<Exchange>, theta: int, d1: seq<int>, d2: seq<int>, some: nat) returns (k: nat)
    requires RunExplained(ip, exchanges, theta, d1, d2)
    requires some < |exchanges| && Measures(ip, exchanges[some])
    ensures AllContinue(exchanges) && FirstLeast(ip, exchanges, d1, d2, k)
    ensures Bounded(Run(ip, Gathered(ip, exchanges)), theta, d1[k], d2[k])
  {
    SamplesExplained(ip, exchanges, theta, d1, d2);
    SomeAccepted(ip, exchanges, some);
    var j := LeadingSample(ip, Gathered(ip, exchanges), Carriers(ip, exchanges), theta, d1, d2);
    k := Carriers(ip, exchanges)[j];
    CarrierMeasures(ip, exchanges, j);
    forall i | 0 <= i < |exchanges| && Measures(ip, exchanges[i])
      ensures d1[k] + d2[k] <= d1[i] + d2[i]
      ensures i < k ==> d1[k] + d2[k] < d1[i] + d2[i]
    {
      LeadsExchanges(ip, exchanges, d1, d2, j, i);
    }
  }

  lemma {:induction false} CarrierMeasures(ip: bool, exchanges: seq<Exchange>, j: nat)
    requires AllSimple(ip, exchanges) && AllContinue(exchanges)
    requires j < |Gathered(ip, exchanges)| && Gathered(ip, exchanges)[j].Accepted()
    ensures j < |Carriers(ip, exchanges)| && Carriers(ip, exchanges)[j] < |exchanges|
    ensures Measures(ip, exchanges[Carriers(ip, exchanges)[j]])
  {
    GatheredFrom(ip, exchanges);
  }

  /**
   The clock error bound of a whole run, in terms of what came back over the network: the reported
   minimum is the least round trip of all exchanges that measured one, the reported offset comes
   from the first exchange that attained it, and it is wrong by at most half its asymmetry, rounded.
   */
  lemma {:induction false} RunErrorBound(
    ip: bool, exchanges: Script, r: Outcome, n: nat, theta: int, d1: seq<int>, d2: seq<int>) returns (k: nat)
    requires Reported(ip, exchanges, r, n) && r.Summary?
    requires RunExplained(ip, exchanges[..n], theta, d1, d2)
    requires exists x :: x in exchanges[..n] && Measures(ip, x)
    ensures FirstLeast(ip, exchanges[..n], d1, d2, k)
    ensures Bounded(r.estimate, theta, d1[k], d2[k])
  {
    var x :| x in exchanges[..n] && Measures(ip, x);
    var some :| 0 <= some < n && exchanges[..n][some] == x;
    k := ExchangeErrorBound(ip, exchanges[..n], theta, d1, d2, some);
  }
}
