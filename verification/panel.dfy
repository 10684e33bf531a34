/**
 * Per-country derivations of the epidemiology time series and panel: the
 * outbreak start t0, the days elapsed since it, the two waves read off the case
 * peaks, each wave's case-fatality ratio, and each wave's mean positive rate.
 * A country's series has one row per consecutive day; row `i` is day
 * `first + i`.
 */
module Panel {
  import opened Nan
  import opened WaveClassifier
  import PositiveRate

  const ABSOLUTE_T0_THRESHOLD: real := 1000.0
  /** Cases per million people. */
  const POP_RELATIVE_T0_THRESHOLD: real := 5.0
  /** Days from a confirmed case to a death. */
  const DEATH_LAG: int := 21

  // ---------------------------------------------------------------------------
  // t0 and days since t0

  /** The time series uses a strict comparison, the panel a non-strict one. */
  datatype Comparison = AtLeastThreshold | AboveThreshold

  /** The outbreak criterion: a cumulative count, or a count per million people. */
  datatype Criterion =
    | Count(cmp: Comparison, threshold: real)
    | PerMillion(population: Option<real>, cmp: Comparison, threshold: real)

  predicate Passes(x: real, cmp: Comparison, t: real) {
    match cmp
    case AtLeastThreshold => x >= t
    case AboveThreshold => x > t
  }

  /**
   * Whether a cumulative count meets the criterion. NaN meets nothing. Per
   * million, a population of 0 makes a positive count infinite (which passes)
   * and a zero count NaN (which does not).
   */
  predicate Meets(c: Option<real>, k: Criterion) {
    match k
    case Count(cmp, t) => c.Some? && Passes(c.value, cmp, t)
    case PerMillion(pop, cmp, t) =>
      c.Some? && pop.Some? &&
      if pop.value == 0.0 then c.value > 0.0 else Passes(c.value / pop.value * 1000000.0, cmp, t)
  }

  /** The first row meeting the criterion. */
  function FirstMeeting(c: seq<Option<real>>, k: Criterion): (r: Option<nat>)
    ensures r.Some? ==> r.value < |c| && Meets(c[r.value], k) && forall j :: 0 <= j < r.value ==> !Meets(c[j], k)
    ensures r.None? ==> forall j :: 0 <= j < |c| ==> !Meets(c[j], k)
  {
    if |c| == 0 then None
    else if Meets(c[0], k) then Some(0)
    else
      var rest := FirstMeeting(c[1..], k);
      assert forall j :: 1 <= j < |c| ==> c[1..][j - 1] == c[j];
      if rest.Some? then Some(rest.value + 1) else None
  }

  /** t0: the first date whose cumulative count meets the criterion, NaN if none does. */
  function T0(first: int, confirmed: seq<Option<real>>, k: Criterion): (t0: Option<int>)
    ensures t0.None? <==> forall j :: 0 <= j < |confirmed| ==> !Meets(confirmed[j], k)
    ensures t0.Some? ==>
      first <= t0.value < first + |confirmed| && Meets(confirmed[t0.value - first], k) &&
      forall j :: 0 <= j < t0.value - first ==> !Meets(confirmed[j], k)
  {
    match FirstMeeting(confirmed, k)
    case None => None
    case Some(i) => Some(first + i)
  }

  /**
   * The strict comparison (time series) never finds an earlier t0 than the
   * non-strict one (panel), and finds one only if the panel does.
   */
  lemma {:induction false} StrictT0NotEarlier(first: int, confirmed: seq<Option<real>>, k: Criterion)
    requires k.cmp == AtLeastThreshold
    ensures var strict := T0(first, confirmed, k.(cmp := AboveThreshold));
      strict.Some? ==> T0(first, confirmed, k).Some? && T0(first, confirmed, k).value <= strict.value
  {
    var s := k.(cmp := AboveThreshold);
    var i := FirstMeeting(confirmed, s);
    if i.Some? {
      assert Meets(confirmed[i.value], k);
    }
  }

  /** `(date - t0).days` for each of the `n` days from `first`; NaN throughout when t0 is NaN. */
  function DaysSince(first: int, n: nat, t0: Option<int>): (d: seq<Option<int>>)
    ensures |d| == n
  {
    seq(n, i requires 0 <= i < n => if t0.None? then None else Some(first + i - t0.value))
  }

  /**
   * Days since t0: NaN on every row when no row meets the criterion; otherwise 0
   * on the t0 row, rising by one per row, and negative exactly on the rows
   * before it, none of which meets the criterion.
   */
  lemma {:induction false} DaysSinceSpec(first: int, confirmed: seq<Option<real>>, k: Criterion)
    ensures var d := DaysSince(first, |confirmed|, T0(first, confirmed, k));
      (T0(first, confirmed, k).None? ==> forall i :: 0 <= i < |d| ==> d[i].None?) &&
      (T0(first, confirmed, k).Some? ==>
        var t := T0(first, confirmed, k).value - first;
        0 <= t < |d| && d[t] == Some(0) &&
        (forall i :: 0 <= i < |d| - 1 ==> d[i + 1] == Some(d[i].value + 1)) &&
        (forall i :: 0 <= i < |d| ==> (d[i].value < 0 <==> i < t)) &&
        (forall i :: 0 <= i < |d| && d[i].value < 0 ==> !Meets(confirmed[i], k)))
  {
    var d := DaysSince(first, |confirmed|, T0(first, confirmed, k));
    var r := FirstMeeting(confirmed, k);
    if r.Some? {
      forall i | 0 <= i < |d|
        ensures d[i] == Some(i - r.value)
      {
      }
    }
  }

  // ---------------------------------------------------------------------------
  // Date windows

  function Clamp(x: int, n: nat): nat {
    if x < 0 then 0 else if x > n then n else x
  }

  /**
   * The rows whose date lies in [lo, hi], as `series[(date >= lo) & (date <= hi)]`
   * selects them.
   */
  function Window(first: int, v: seq<Option<real>>, lo: int, hi: int): seq<Option<real>> {
    var a, b := Clamp(lo - first, |v|), Clamp(hi - first + 1, |v|);
    if a <= b then v[a..b] else []
  }

  /** Whether row `i` of a series starting on day `first` is dated within [lo, hi]. */
  predicate RowIn(first: int, i: int, lo: int, hi: int) {
    lo <= first + i <= hi
  }

  /**
   * The window is exactly the date filter: a row is in it iff its date is in
   * [lo, hi], and the rows keep their order.
   */
  lemma {:induction false} WindowIsDateFilter(first: int, v: seq<Option<real>>, lo: int, hi: int)
    ensures var a, w := Clamp(lo - first, |v|), Window(first, v, lo, hi);
      a + |w| <= |v| &&
      (forall i :: 0 <= i < |v| ==> (RowIn(first, i, lo, hi) <==> a <= i < a + |w|)) &&
      (forall j :: 0 <= j < |w| ==> w[j] == v[a + j])
  {
    var a, b := Clamp(lo - first, |v|), Clamp(hi - first + 1, |v|);
    var w := Window(first, v, lo, hi);
    if a <= b {
      assert w == v[a..b];
      forall i | 0 <= i < |v|
        ensures RowIn(first, i, lo, hi) <==> a <= i < b
      {
      }
    } else {
      assert w == [];
      forall i | 0 <= i < |v|
        ensures !RowIn(first, i, lo, hi)
      {
      }
    }
  }

  // ---------------------------------------------------------------------------
  // Waves and case-fatality ratios

  /**
   * One wave of the panel: its dates and its peak. Its case-fatality ratio is
   * `Cfr` over its start and end dates.
   */
  datatype Wave = Wave(start: int, end: int, peakDate: int, peak: real)

  /**
   * Smoothed deaths over the wave shifted DEATH_LAG days later, divided by
   * smoothed cases over the wave. A zero case sum gives NaN; otherwise the
   * ratio times the case sum gives back the lagged death sum.
   */
  function Cfr(first: int, cases: seq<Option<real>>, deaths: seq<Option<real>>, start: int, end: int): (r: Option<real>)
    ensures r.None? <==> SumDefined(Window(first, cases, start, end)) == 0.0
    ensures r.Some? ==>
      r.value * SumDefined(Window(first, cases, start, end)) ==
      SumDefined(Window(first, deaths, start + DEATH_LAG, end + DEATH_LAG))
  {
    var c := SumDefined(Window(first, cases, start, end));
    if c == 0.0 then None
    else Some(SumDefined(Window(first, deaths, start + DEATH_LAG, end + DEATH_LAG)) / c)
  }

  /** The case peaks the waves are read from, as the peak finder returns them on the smoothed cases. */
  predicate CasePeaks(cases: seq<Option<real>>, p: Peaks) {
    ValidPeaks(cases, p, ProminenceThreshold(CASES.absolute, cases))
  }

  /**
   * The first wave runs between the bases of the first case peak. It lies
   * inside the series, strictly around its peak, whose smoothed count it records.
   */
  function FirstWave(first: int, cases: seq<Option<real>>, p: Peaks): (w: Option<Wave>)
    requires CasePeaks(cases, p)
    ensures w.Some? <==> |p.indices| >= 1
    ensures w.Some? ==>
      first <= w.value.start < w.value.peakDate < w.value.end <= first + |cases| - 1 &&
      Some(w.value.peak) == cases[w.value.peakDate - first]
  {
    if |p.indices| < 1 then None
    else
      var i := p.indices[0];
      PeakInside(cases, p, 0);
      var start, end := first + p.leftBases[0], first + p.rightBases[0];
      Some(Wave(start, end, first + i, cases[i].value))
  }

  /**
   * The second wave runs from the right base of the first peak to the last
   * day: it starts where the first wave ends, and peaks no later than its end
   * and at least DISTANCE days after the first wave's peak, recording that
   * day's smoothed count. Its start can fall after its own peak, when the
   * first peak's right base lies beyond the second peak.
   */
  function SecondWave(first: int, cases: seq<Option<real>>, p: Peaks): (w: Option<Wave>)
    requires CasePeaks(cases, p)
    ensures w.Some? <==> |p.indices| >= 2
    ensures w.Some? ==>
      var w1 := FirstWave(first, cases, p).value;
      w.value.start == w1.end && w.value.end == first + |cases| - 1 &&
      w1.peakDate + DISTANCE <= w.value.peakDate <= w.value.end &&
      Some(w.value.peak) == cases[w.value.peakDate - first]
  {
    if |p.indices| < 2 then None
    else
      var i := p.indices[1];
      PeakInside(cases, p, 0);
      PeakInside(cases, p, 1);
      var start, end := first + p.rightBases[0], first + |cases| - 1;
      Some(Wave(start, end, first + i, cases[i].value))
  }

  /** The k-th case peak lies strictly between its bases inside the series, on a day with a value, DISTANCE days after the one before. */
  lemma {:induction false} PeakInside(cases: seq<Option<real>>, p: Peaks, k: nat)
    requires CasePeaks(cases, p) && k < |p.indices|
    ensures p.leftBases[k] < p.indices[k] < p.rightBases[k] < |cases| && cases[p.indices[k]].Some?
    ensures k > 0 ==> p.indices[k - 1] + DISTANCE <= p.indices[k]
  {
    assert IsPeak(cases, p.indices[k], p.leftBases[k], p.rightBases[k], ProminenceThreshold(CASES.absolute, cases));
  }

  /**
   * In row terms: a wave's case-fatality ratio is defined exactly when its case
   * rows do not sum to 0, and is then the sum of the death rows DEATH_LAG rows
   * later (cut at the end of the series) over the sum of its case rows.
   */
  lemma {:induction false} CfrRows(first: int, cases: seq<Option<real>>, deaths: seq<Option<real>>, a: nat, b: nat)
    requires |deaths| == |cases| && a <= b < |cases|
    ensures var n := |cases|;
      var c := SumDefined(cases[a..b + 1]);
      var dl, dh := Clamp(a + DEATH_LAG, n), Clamp(b + DEATH_LAG + 1, n);
      (Cfr(first, cases, deaths, first + a, first + b).Some? <==> c != 0.0) &&
      (c != 0.0 ==> Cfr(first, cases, deaths, first + a, first + b) == Some(SumDefined(deaths[dl..dh]) / c))
  {
  }

  // ---------------------------------------------------------------------------
  // Mean positive rate of each wave

  datatype RateMeans = RateMeans(firstWave: Option<real>, secondWave: Option<real>)

  /**
   * The mean of the defined positive rates over a wave. Without the wave its
   * bounds are NaN, every date comparison is false, no row is selected, and the
   * mean of nothing is NaN.
   */
  function WaveRateMean(first: int, rate: seq<Option<real>>, w: Option<Wave>): (m: Option<real>)
    ensures m.Some? <==> (w.Some? &&
      exists j :: 0 <= j < |Window(first, rate, w.value.start, w.value.end)| && Window(first, rate, w.value.start, w.value.end)[j].Some?)
  {
    if w.None? then None else NanMean(Window(first, rate, w.value.start, w.value.end))
  }

  /**
   * As written: the means are taken only when testing data exists and the TEST
   * series has at least one (for the second wave, two) peaks, because the peak
   * list variable was overwritten by the test peaks; the windows are still the
   * CASE waves.
   */
  function RateMeansAsWritten(first: int, rate: seq<Option<real>>, newTests: seq<Option<real>>, testPeaks: nat,
                              w1: Option<Wave>, w2: Option<Wave>): (m: RateMeans)
    ensures m.firstWave.Some? ==> PositiveRate.TestingAvailable(newTests) && testPeaks >= 1 && w1.Some?
    ensures m.secondWave.Some? ==> PositiveRate.TestingAvailable(newTests) && testPeaks >= 2 && w2.Some?
  {
    if !PositiveRate.TestingAvailable(newTests) || testPeaks < 1 then RateMeans(None, None)
    else RateMeans(WaveRateMean(first, rate, w1), if testPeaks >= 2 then WaveRateMean(first, rate, w2) else None)
  }

  /** Gated by the case waves the windows come from: each wave with testing data gets its mean. */
  function RateMeansByCaseWaves(first: int, rate: seq<Option<real>>, newTests: seq<Option<real>>,
                                w1: Option<Wave>, w2: Option<Wave>): (m: RateMeans)
    ensures m.firstWave.Some? ==> PositiveRate.TestingAvailable(newTests) && w1.Some?
    ensures m.secondWave.Some? ==> PositiveRate.TestingAvailable(newTests) && w2.Some?
  {
    if !PositiveRate.TestingAvailable(newTests) then RateMeans(None, None)
    else RateMeans(WaveRateMean(first, rate, w1), WaveRateMean(first, rate, w2))
  }

  /**
   * Every defined positive rate is at most 1, so both wave means are; a wave's
   * mean is defined exactly when the wave exists and has a defined rate.
   */
  lemma {:induction false} RateMeansAtMostOne(first: int, rate: seq<Option<real>>, newTests: seq<Option<real>>, w1: Option<Wave>, w2: Option<Wave>)
    requires forall i :: 0 <= i < |rate| && rate[i].Some? ==> rate[i].value <= 1.0
    ensures var m := RateMeansByCaseWaves(first, rate, newTests, w1, w2);
      (m.firstWave.Some? ==> m.firstWave.value <= 1.0) && (m.secondWave.Some? ==> m.secondWave.value <= 1.0)
    ensures var m := RateMeansByCaseWaves(first, rate, newTests, w1, w2);
      m.firstWave.Some? <==> (PositiveRate.TestingAvailable(newTests) && w1.Some? &&
        exists j :: 0 <= j < |Window(first, rate, w1.value.start, w1.value.end)| && Window(first, rate, w1.value.start, w1.value.end)[j].Some?)
    ensures var m := RateMeansByCaseWaves(first, rate, newTests, w1, w2);
      m.secondWave.Some? <==> (PositiveRate.TestingAvailable(newTests) && w2.Some? &&
        exists j :: 0 <= j < |Window(first, rate, w2.value.start, w2.value.end)| && Window(first, rate, w2.value.start, w2.value.end)[j].Some?)
  {
    if w1.Some? {
      WindowAtMostOne(first, rate, w1.value.start, w1.value.end);
    }
    if w2.Some? {
      WindowAtMostOne(first, rate, w2.value.start, w2.value.end);
    }
  }

  lemma {:induction false} WindowAtMostOne(first: int, rate: seq<Option<real>>, lo: int, hi: int)
    requires forall i :: 0 <= i < |rate| && rate[i].Some? ==> rate[i].value <= 1.0
    ensures var m := NanMean(Window(first, rate, lo, hi));
      (m.Some? ==> m.value <= 1.0) &&
      (m.Some? <==> exists j :: 0 <= j < |Window(first, rate, lo, hi)| && Window(first, rate, lo, hi)[j].Some?)
  {
    var win := Window(first, rate, lo, hi);
    WindowIsDateFilter(first, rate, lo, hi);
    NanMeanAtMost(win, 1.0);
  }

  /** With two or more test peaks the two gatings agree. */
  lemma {:induction false} RateMeansAgree(first: int, rate: seq<Option<real>>, newTests: seq<Option<real>>, testPeaks: nat, w1: Option<Wave>, w2: Option<Wave>)
    requires testPeaks >= 2
    ensures RateMeansAsWritten(first, rate, newTests, testPeaks, w1, w2) ==
            RateMeansByCaseWaves(first, rate, newTests, w1, w2)
  {
  }

  /**
   * A country with one case wave whose positive rate is known on every day of
   * it, but whose test series has no peak: as written the first-wave mean is
   * NaN; gated by the case waves it is the rate.
   */
  lemma {:induction false} AsWrittenNeedsTestPeak()
    ensures var w1 := Some(Wave(0, 2, 1, 10.0));
      var rate := [Some(0.5), Some(0.5), Some(0.5)];
      RateMeansAsWritten(0, rate, [Some(100.0)], 0, w1, None).firstWave == None &&
      RateMeansByCaseWaves(0, rate, [Some(100.0)], w1, None).firstWave == Some(0.5)
  {
    var rate := [Some(0.5), Some(0.5), Some(0.5)];
    assert PositiveRate.TestingAvailable([Some(100.0)]) by {
      assert [Some(100.0)][0].Some?;
    }
    assert Window(0, rate, 0, 2) == rate;
    assert rate[..2][..1] == [Some(0.5)];
    assert rate[..2] == [Some(0.5), Some(0.5)];
    assert SumDefined(rate[..2][..1]) == 0.5;
    assert SumDefined(rate[..2]) == 1.0;
    assert SumDefined(rate) == 1.5;
    assert CountDefined(rate) == 3;
  }
}
