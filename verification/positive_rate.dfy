/**
 * The testing columns of one country's epidemiology time series. The daily
 * test counts are looked up on each epidemiology day; the smoothed test counts
 * (smoothing is not part of this model, it arrives as an input) are written
 * back onto the days that have a count; and the positive rate is smoothed
 * cases over smoothed tests on those days, discarded when above 1.
 */
module PositiveRate {
  import opened Nan
  import opened Testing

  /** The number of rows of a country's testing table. */
  function TestRows(testing: Preprocessed): nat {
    if testing.Daily? then |testing.tests| else 0
  }

  /** The test count on day `d`, NaN when the testing table has no row for it. */
  function TestsOn(testing: Preprocessed, d: int): Option<real> {
    if testing.Daily? && testing.start <= d < testing.start + |testing.tests| then testing.tests[d - testing.start] else None
  }

  /**
   * `new_tests` after the left merge on date: for each of the `n` epidemiology
   * days from `first`, the test count of that day.
   */
  function MergeTests(first: int, n: nat, testing: Preprocessed): (m: seq<Option<real>>)
    ensures |m| == n
  {
    seq(n, i requires 0 <= i < n => TestsOn(testing, first + i))
  }

  /** `new_tests[~np.isnan(new_tests)]`: the defined entries, in order. */
  function Compact(s: seq<Option<real>>): (r: seq<real>)
    ensures |r| == CountDefined(s)
  {
    if |s| == 0 then []
    else
      var init := Compact(s[..|s| - 1]);
      if s[|s| - 1].Some? then init + [s[|s| - 1].value] else init
  }

  /**
   * `out[np.where(~np.isnan(mask))] = vals` on a NaN-filled array: the k-th
   * defined position of `mask` receives `vals[k]`, every other position stays NaN.
   */
  function Scatter(mask: seq<Option<real>>, vals: seq<real>): (r: seq<Option<real>>)
    requires |vals| == CountDefined(mask)
    ensures |r| == |mask|
  {
    if |mask| == 0 then []
    else
      var init := mask[..|mask| - 1];
      if mask[|mask| - 1].Some? then Scatter(init, vals[..|vals| - 1]) + [Some(vals[|vals| - 1])]
      else Scatter(init, vals) + [None]
  }

  /** Scattering and then compacting gives back the scattered values. */
  lemma {:induction false} CompactScatter(mask: seq<Option<real>>, vals: seq<real>)
    requires |vals| == CountDefined(mask)
    ensures Compact(Scatter(mask, vals)) == vals
  {
    if |mask| > 0 {
      var init := mask[..|mask| - 1];
      var r := Scatter(mask, vals);
      if mask[|mask| - 1].Some? {
        var v := vals[..|vals| - 1];
        CompactScatter(init, v);
        assert r[..|r| - 1] == Scatter(init, v);
        assert vals == v + [vals[|vals| - 1]];
      } else {
        CompactScatter(init, vals);
        assert r[..|r| - 1] == Scatter(init, vals);
      }
    }
  }

  /** A scattered position is defined exactly where the mask is, and holds the value of its rank among them. */
  lemma {:induction false} ScatterAt(mask: seq<Option<real>>, vals: seq<real>, i: nat)
    requires |vals| == CountDefined(mask) && i < |mask|
    ensures Scatter(mask, vals)[i].Some? <==> mask[i].Some?
    ensures mask[i].Some? ==> CountDefined(mask[..i]) < |vals| && Scatter(mask, vals)[i] == Some(vals[CountDefined(mask[..i])])
  {
    var n := |mask| - 1;
    var init := mask[..n];
    var last := mask[n];
    var v := if last.Some? then vals[..|vals| - 1] else vals;
    assert Scatter(mask, vals) == Scatter(init, v) + [if last.Some? then Some(vals[|vals| - 1]) else None];
    if i < n {
      ScatterAt(init, v, i);
      assert init[..i] == mask[..i];
      assert init[i] == mask[i];
    } else {
      assert mask[..i] == init;
    }
  }

  /**
   * The raw ratio of smoothed cases to smoothed tests; a zero divisor gives
   * NaN, otherwise the ratio times the tests gives back the cases.
   */
  function Ratio(cases: real, tests: real): (r: Option<real>)
    ensures r.None? <==> tests == 0.0
    ensures r.Some? ==> r.value * tests == cases
  {
    if tests == 0.0 then None else Some(cases / tests)
  }

  /** `positive_rate[positive_rate > 1] = np.nan`. */
  function DropAboveOne(x: Option<real>): Option<real> {
    if Above(x, 1.0) then None else x
  }

  /**
   * The positive rate of each day: smoothed cases over smoothed tests where a
   * smoothed test count exists, NaN elsewhere and wherever the ratio exceeds 1.
   */
  function Rate(ys: seq<real>, testsSmoothed: seq<Option<real>>): (r: seq<Option<real>>)
    requires |ys| == |testsSmoothed|
    ensures |r| == |ys|
  {
    seq(|ys|, i requires 0 <= i < |ys| =>
      if testsSmoothed[i].Some? then DropAboveOne(Ratio(ys[i], testsSmoothed[i].value)) else None)
  }

  /**
   * Every defined positive rate is at most 1, lies on a day with a smoothed test
   * count, and is that day's smoothed cases over smoothed tests; a day with a
   * nonzero smoothed test count whose ratio is at most 1 keeps it.
   */
  lemma RateSpec(ys: seq<real>, testsSmoothed: seq<Option<real>>)
    requires |ys| == |testsSmoothed|
    ensures forall i :: 0 <= i < |ys| && Rate(ys, testsSmoothed)[i].Some? ==>
      testsSmoothed[i].Some? && testsSmoothed[i].value != 0.0 &&
      Rate(ys, testsSmoothed)[i].value == ys[i] / testsSmoothed[i].value &&
      Rate(ys, testsSmoothed)[i].value <= 1.0
    ensures forall i :: 0 <= i < |ys| && testsSmoothed[i].Some? && testsSmoothed[i].value != 0.0 ==>
      (ys[i] / testsSmoothed[i].value <= 1.0 <==> Rate(ys, testsSmoothed)[i] == Some(ys[i] / testsSmoothed[i].value))
  {
  }

  /** The testing columns of one country: test counts, smoothed test counts and positive rates. */
  datatype TestingColumns = TestingColumns(newTests: seq<Option<real>>, testsSmoothed: seq<Option<real>>, positiveRate: seq<Option<real>>)

  /** The ratio before the values above 1 are discarded. */
  function RawRate(ys: seq<real>, testsSmoothed: seq<Option<real>>): (r: seq<Option<real>>)
    requires |ys| == |testsSmoothed|
    ensures |r| == |ys|
  {
    seq(|ys|, i requires 0 <= i < |ys| =>
      if testsSmoothed[i].Some? then Ratio(ys[i], testsSmoothed[i].value) else None)
  }

  /**
   * The block as the source runs it on NaN-filled arrays for the `|ys|` days
   * from `first`. Only when the country has more than one testing row are the
   * test counts merged in, the smoothed test counts scattered onto the days
   * that have a count, and the ratios taken, those above 1 being discarded;
   * otherwise all three columns stay NaN.
   */
  method TestingBlock(first: int, ys: seq<real>, testing: Preprocessed, smoothedTests: seq<real>)
    returns (cols: TestingColumns)
    requires TestRows(testing) > 1 ==> |smoothedTests| == CountDefined(MergeTests(first, |ys|, testing))
    ensures |cols.newTests| == |ys| && |cols.testsSmoothed| == |ys| && |cols.positiveRate| == |ys|
    ensures TestRows(testing) > 1 ==>
      cols.newTests == MergeTests(first, |ys|, testing) &&
      cols.testsSmoothed == Scatter(cols.newTests, smoothedTests) &&
      cols.positiveRate == Rate(ys, cols.testsSmoothed)
    ensures TestRows(testing) <= 1 ==>
      forall i :: 0 <= i < |ys| ==> cols.newTests[i].None? && cols.testsSmoothed[i].None? && cols.positiveRate[i].None?
  {
    var n := |ys|;
    var newTests := new Option<real>[n](_ => None);
    var smoothed := new Option<real>[n](_ => None);
    var rate := new Option<real>[n](_ => None);
    if TestRows(testing) > 1 {
      var merged := MergeTests(first, n, testing);
      newTests := new Option<real>[n](i requires 0 <= i < n => merged[i]);
      assert newTests[..] == merged;
      ScatterTests(ys, merged, smoothedTests, smoothed, rate);
      DiscardAboveOne(rate);
      assert rate[..] == Rate(ys, smoothed[..]);
    }
    cols := TestingColumns(newTests[..], smoothed[..], rate[..]);
  }

  /**
   * `new_tests_smoothed[mask] = ys_testing` and `positive_rate[mask] = ys[mask] / ys_testing`
   * on two NaN-filled arrays.
   */
  method ScatterTests(ys: seq<real>, newTests: seq<Option<real>>, smoothedTests: seq<real>,
                      smoothed: array<Option<real>>, rate: array<Option<real>>)
    requires |newTests| == |ys| == smoothed.Length == rate.Length && smoothed != rate
    requires |smoothedTests| == CountDefined(newTests)
    requires forall k :: 0 <= k < smoothed.Length ==> smoothed[k].None? && rate[k].None?
    modifies smoothed, rate
    ensures smoothed[..] == Scatter(newTests, smoothedTests)
    ensures rate[..] == RawRate(ys, smoothed[..])
  {
    ghost var target := Scatter(newTests, smoothedTests);
    var n := |ys|;
    var j := 0;
    for i := 0 to n
      invariant j == CountDefined(newTests[..i]) && j <= |smoothedTests|
      invariant forall k :: 0 <= k < i ==> smoothed[k] == target[k]
      invariant forall k :: 0 <= k < i ==> rate[k] == (if target[k].Some? then Ratio(ys[k], target[k].value) else None)
      invariant forall k :: i <= k < n ==> smoothed[k].None? && rate[k].None?
    {
      CountDefinedStep(newTests, i);
      CountDefinedPrefix(newTests, i + 1);
      ScatterAt(newTests, smoothedTests, i);
      if newTests[i].Some? {
        smoothed[i] := Some(smoothedTests[j]);
        rate[i] := Ratio(ys[i], smoothedTests[j]);
        j := j + 1;
      }
    }
    assert smoothed[..] == target;
  }

  /** `positive_rate[positive_rate > 1] = np.nan`, in place. */
  method DiscardAboveOne(rate: array<Option<real>>)
    modifies rate
    ensures forall k :: 0 <= k < rate.Length ==> rate[k] == DropAboveOne(old(rate[k]))
  {
    for i := 0 to rate.Length
      invariant forall k :: 0 <= k < i ==> rate[k] == DropAboveOne(old(rate[k]))
      invariant forall k :: i <= k < rate.Length ==> rate[k] == old(rate[k])
    {
      if Above(rate[i], 1.0) {
        rate[i] := None;
      }
    }
  }

  /** `testing_available`: `len(new_tests.dropna()) > 0`, that is, some day has a test count. */
  predicate TestingAvailable(newTests: seq<Option<real>>)
    ensures TestingAvailable(newTests) <==> exists i :: 0 <= i < |newTests| && newTests[i].Some?
  {
    CountDefinedZero(newTests);
    CountDefined(newTests) > 0
  }

  /**
   * The merge places every testing row whose day falls among the epidemiology
   * days on that day, and leaves every other epidemiology day NaN.
   */
  lemma MergeTestsSpec(first: int, n: nat, testing: Preprocessed)
    requires testing.Daily?
    ensures forall k :: 0 <= k < |testing.tests| && first <= testing.start + k < first + n ==>
      MergeTests(first, n, testing)[testing.start + k - first] == testing.tests[k]
    ensures forall i :: 0 <= i < n && !(testing.start <= first + i < testing.start + |testing.tests|) ==>
      MergeTests(first, n, testing)[i].None?
  {
    forall k | 0 <= k < |testing.tests| && first <= testing.start + k < first + n
      ensures MergeTests(first, n, testing)[testing.start + k - first] == testing.tests[k]
    {
      var i := testing.start + k - first;
      assert MergeTests(first, n, testing)[i] == TestsOn(testing, first + i);
      assert first + i - testing.start == k;
    }
    forall i | 0 <= i < n && !(testing.start <= first + i < testing.start + |testing.tests|)
      ensures MergeTests(first, n, testing)[i].None?
    {
      assert MergeTests(first, n, testing)[i] == TestsOn(testing, first + i);
    }
  }
}
