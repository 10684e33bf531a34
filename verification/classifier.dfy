/**
 * Wave-stage classification of one smoothed daily series (new cases, new
 * deaths or new tests). The accepted peaks come from a peak finder that is not
 * part of this model; the classifier turns them into a wave code:
 * twice the number of peaks, plus one when the series is climbing into a new
 * wave. Every series is one value per consecutive day, so "the days after the
 * last peak" are the positions after it.
 */
module WaveClassifier {
  import opened Nan

  /** Minimum distance, in days, between two accepted peaks. */
  const DISTANCE: nat := 21
  /** A rebound (and every peak's prominence) is measured against this share of the series maximum. */
  const RELATIVE_PROMINENCE: real := 0.3

  /** The two per-series thresholds: absolute prominence, and the level that marks entry into a first wave. */
  datatype Thresholds = Thresholds(absolute: real, entry: real)

  /**
   * The thresholds of the smoothed case series. The death and test series run
   * `Classify` with their own thresholds, passed as its `th` parameter.
   */
  const CASES := Thresholds(5.0, 100.0)

  /**
   * The prominence handed to the peak finder: the absolute threshold or 30% of
   * the series maximum, whichever is larger. Python's `max` keeps its first
   * argument when the second is NaN, so an all-NaN series falls back to the
   * absolute threshold.
   */
  function ProminenceThreshold(absolute: real, s: seq<Option<real>>): (p: real)
    ensures p >= absolute
    ensures NanMax(s).Some? ==> p >= RELATIVE_PROMINENCE * NanMax(s).value
    ensures p == absolute || (NanMax(s).Some? && p == RELATIVE_PROMINENCE * NanMax(s).value)
  {
    var m := NanMax(s);
    if m.Some? && RELATIVE_PROMINENCE * m.value > absolute then RELATIVE_PROMINENCE * m.value else absolute
  }

  /** What the peak finder reports: peak positions and, for each, its left and right base. */
  datatype Peaks = Peaks(indices: seq<nat>, leftBases: seq<nat>, rightBases: seq<nat>)

  function Max(a: real, b: real): real {
    if a >= b then a else b
  }

  /**
   * A reported peak: strictly inside the series between its bases, with defined
   * neighbours (NaN never compares greater, so a NaN cannot border a peak), and
   * standing at least `prominence` above the higher of its two bases.
   */
  predicate IsPeak(s: seq<Option<real>>, i: nat, lb: nat, rb: nat, prominence: real) {
    lb < i < rb < |s| &&
    s[i - 1].Some? && s[i].Some? && s[i + 1].Some? && s[lb].Some? && s[rb].Some? &&
    s[i].value - Max(s[lb].value, s[rb].value) >= prominence
  }

  /** The peak finder's guarantees: peaks in increasing order, at least DISTANCE days apart. */
  predicate ValidPeaks(s: seq<Option<real>>, p: Peaks, prominence: real) {
    |p.indices| == |p.leftBases| == |p.rightBases| &&
    (forall k :: 0 <= k < |p.indices| ==> IsPeak(s, p.indices[k], p.leftBases[k], p.rightBases[k], prominence)) &&
    (forall k :: 0 < k < |p.indices| ==> p.indices[k - 1] + DISTANCE <= p.indices[k])
  }

  /** The k-th peak lies at least 1 + DISTANCE * k days into the series. */
  lemma {:induction false} PeakPosition(s: seq<Option<real>>, p: Peaks, prominence: real, k: nat)
    requires ValidPeaks(s, p, prominence) && k < |p.indices|
    ensures p.indices[k] >= 1 + DISTANCE * k
  {
    assert IsPeak(s, p.indices[k], p.leftBases[k], p.rightBases[k], prominence);
    if k > 0 {
      PeakPosition(s, p, prominence, k - 1);
    }
  }

  /** A series of n days holds at most (n - 3) / DISTANCE + 1 peaks. */
  lemma PeakCountBound(s: seq<Option<real>>, p: Peaks, prominence: real)
    requires ValidPeaks(s, p, prominence) && |p.indices| > 0
    ensures DISTANCE * (|p.indices| - 1) <= |s| - 3
  {
    var m := |p.indices| - 1;
    PeakPosition(s, p, prominence, m);
    assert IsPeak(s, p.indices[m], p.leftBases[m], p.rightBases[m], prominence);
  }

  // ---------------------------------------------------------------------------
  // The rebound test after the last peak

  /** The day after the last peak exists and holds a number. */
  predicate HasDayAfter(s: seq<Option<real>>, last: nat) {
    last + 1 < |s| && s[last + 1].Some?
  }

  /** Python's `min` over the days after the last peak: no day after the peak is lower. */
  function Trough(s: seq<Option<real>>, last: nat): (m: real)
    requires HasDayAfter(s, last)
    ensures forall j :: last < j < |s| && s[j].Some? ==> m <= s[j].value
  {
    var tail := s[last + 1..];
    PyMinSpec(tail);
    assert forall j :: last < j < |s| ==> tail[j - last - 1] == s[j];
    PyMin(tail).value
  }

  /** The trough is the least defined value after the last peak, and it occurs there. */
  lemma TroughIsLeastAfterPeak(s: seq<Option<real>>, last: nat)
    requires HasDayAfter(s, last)
    ensures forall j :: last < j < |s| && s[j].Some? ==> Trough(s, last) <= s[j].value
    ensures exists j :: last < j < |s| && s[j] == Some(Trough(s, last))
  {
    var tail := s[last + 1..];
    PyMinSpec(tail);
    forall j | last < j < |s| && s[j].Some?
      ensures Trough(s, last) <= s[j].value
    {
      assert tail[j - last - 1] == s[j];
    }
    var i :| 0 <= i < |tail| && tail[i] == PyMin(tail);
    assert s[last + 1 + i] == Some(Trough(s, last));
  }

  /**
   * The trough date: the first day ANYWHERE in the series holding the trough
   * value, which may lie before the last peak.
   */
  function TroughIndex(s: seq<Option<real>>, last: nat): (t: nat)
    requires HasDayAfter(s, last)
    ensures t < |s| && s[t] == Some(Trough(s, last))
    ensures forall j :: 0 <= j < t ==> s[j] != Some(Trough(s, last))
    ensures t <= last || forall j :: last < j < t ==> s[j] != Some(Trough(s, last))
  {
    TroughIsLeastAfterPeak(s, last);
    FirstIndexOf(s, Some(Trough(s, last))).value
  }

  /**
   * The rebound condition: the largest value from the trough date on exceeds the
   * trough by at least 30% of the series maximum.
   */
  predicate Rebounds(s: seq<Option<real>>, last: nat)
    requires HasDayAfter(s, last)
    ensures Rebounds(s, last) ==>
      exists j :: TroughIndex(s, last) <= j < |s| && s[j].Some? &&
        s[j].value - Trough(s, last) >= RELATIVE_PROMINENCE * NanMax(s).value
  {
    var t := TroughIndex(s, last);
    assert s[t..][0] == s[t];
    NanMaxReaches(s[t..], Trough(s, last), RELATIVE_PROMINENCE * NanMax(s).value);
    HighDayFrom(s, t, Trough(s, last), RELATIVE_PROMINENCE * NanMax(s).value);
    NanMax(s[t..]).value - Trough(s, last) >= RELATIVE_PROMINENCE * NanMax(s).value
  }

  /** The rebound condition without the maximum: some day from the trough date on is high enough. */
  lemma ReboundsIff(s: seq<Option<real>>, last: nat)
    requires HasDayAfter(s, last)
    ensures Rebounds(s, last) <==>
      exists j :: TroughIndex(s, last) <= j < |s| && s[j].Some? &&
        s[j].value - Trough(s, last) >= RELATIVE_PROMINENCE * NanMax(s).value
  {
    var t := TroughIndex(s, last);
    var after := s[t..];
    var base, bar := Trough(s, last), RELATIVE_PROMINENCE * NanMax(s).value;
    assert after[0] == s[t];
    NanMaxReaches(after, base, bar);
    HighDayFrom(s, t, base, bar);
  }

  /** Some day of the suffix from `t` is `bar` above `base` exactly when some day from `t` on is. */
  lemma HighDayFrom(s: seq<Option<real>>, t: nat, base: real, bar: real)
    requires t <= |s|
    ensures (exists i :: 0 <= i < |s[t..]| && s[t..][i].Some? && s[t..][i].value - base >= bar) <==>
      exists j :: t <= j < |s| && s[j].Some? && s[j].value - base >= bar
  {
    var after := s[t..];
    if exists i :: 0 <= i < |after| && after[i].Some? && after[i].value - base >= bar {
      var i :| 0 <= i < |after| && after[i].Some? && after[i].value - base >= bar;
      assert s[t + i] == after[i];
    }
    if exists j :: t <= j < |s| && s[j].Some? && s[j].value - base >= bar {
      var j :| t <= j < |s| && s[j].Some? && s[j].value - base >= bar;
      assert after[j - t] == s[j];
    }
  }

  /** The largest defined value is at least `bar` above `base` exactly when some defined value is. */
  lemma NanMaxReaches(s: seq<Option<real>>, base: real, bar: real)
    requires NanMax(s).Some?
    ensures NanMax(s).value - base >= bar <==> exists i :: 0 <= i < |s| && s[i].Some? && s[i].value - base >= bar
  {
    var i :| 0 <= i < |s| && s[i] == NanMax(s);
  }

  /** With no peak, the series enters a first wave when some day reaches the entry level. */
  predicate EntersFirstWave(s: seq<Option<real>>, entry: real)
    ensures EntersFirstWave(s, entry) ==> NanMax(s).Some? && NanMax(s).value >= entry
  {
    exists i :: 0 <= i < |s| && AtLeast(s[i], entry)
  }

  lemma EntersFirstWaveIff(s: seq<Option<real>>, entry: real)
    ensures EntersFirstWave(s, entry) <==> NanMax(s).Some? && NanMax(s).value >= entry
  {
    if NanMax(s).Some? && NanMax(s).value >= entry {
      var i :| 0 <= i < |s| && s[i] == NanMax(s);
      assert AtLeast(s[i], entry);
    }
  }

  /**
   * The class of one series. Starts at twice the number of peaks; after a peak,
   * adds one on a rebound from the trough; with no peak, adds one when the
   * series maximum reaches the entry level.
   */
  method Classify(s: seq<Option<real>>, peaks: Peaks, th: Thresholds) returns (code: nat)
    requires ValidPeaks(s, peaks, ProminenceThreshold(th.absolute, s))
    ensures code / 2 == |peaks.indices|
    ensures code % 2 == 1 <==>
      if |peaks.indices| > 0 then Rebounds(s, peaks.indices[|peaks.indices| - 1])
      else EntersFirstWave(s, th.entry)
  {
    var n := |peaks.indices|;
    code := 2 * n;
    if code > 0 && peaks.indices[n - 1] < |s| {
      var last := peaks.indices[n - 1];
      assert IsPeak(s, last, peaks.leftBases[n - 1], peaks.rightBases[n - 1], ProminenceThreshold(th.absolute, s));
      var rebound := ReboundTest(s, last);
      ReboundsIff(s, last);
      if rebound {
        code := code + 1;
      }
    } else if code == 0 {
      var seriesMax := NanMax(s);
      EntersFirstWaveIff(s, th.entry);
      if seriesMax.Some? && seriesMax.value >= th.entry {
        code := code + 1;
      }
    }
  }

  /**
   * The rebound test after the last peak: the trough value after it, the first
   * day holding that value, the maximum from that day on, and the comparison
   * of the rise with 30% of the series maximum.
   */
  method ReboundTest(s: seq<Option<real>>, last: nat) returns (rebound: bool)
    requires HasDayAfter(s, last)
    ensures rebound <==>
      exists j :: TroughIndex(s, last) <= j < |s| && s[j].Some? &&
        s[j].value - Trough(s, last) >= RELATIVE_PROMINENCE * NanMax(s).value
  {
    var troughValue := PyMin(s[last + 1..]);
    var troughDate := FirstIndexOf(s, troughValue);
    PyMinSpec(s[last + 1..]);
    assert troughValue == Some(Trough(s, last));
    assert troughDate == Some(TroughIndex(s, last));
    var maxAfterTrough := NanMax(s[troughDate.value..]);
    var seriesMax := NanMax(s);
    rebound := maxAfterTrough.value - troughValue.value >= RELATIVE_PROMINENCE * seriesMax.value;
    assert rebound == Rebounds(s, last);
    ReboundsIff(s, last);
  }

  /**
   * A series that only falls after its last peak, and whose trough value is not
   * seen before the peak, is not entering a new wave.
   */
  lemma FallingTailDoesNotRebound(s: seq<Option<real>>, last: nat)
    requires HasDayAfter(s, last)
    requires forall j :: last < j < |s| ==> s[j].Some?
    requires forall j :: last < j < |s| - 1 ==> s[j + 1].value <= s[j].value
    requires TroughIndex(s, last) > last
    requires NanMax(s).value > 0.0
    ensures !Rebounds(s, last)
  {
    var t := TroughIndex(s, last);
    var low := Trough(s, last);
    TroughIsLeastAfterPeak(s, last);
    FallingFrom(s, t, |s| - 1);
    forall j | t <= j < |s|
      ensures s[j].Some? && s[j].value - low < RELATIVE_PROMINENCE * NanMax(s).value
    {
      FallingFrom(s, t, j);
    }
    ReboundsIff(s, last);
  }

  /** In a non-increasing run of defined values, a later value is no larger. */
  lemma {:induction false} FallingFrom(s: seq<Option<real>>, t: nat, j: nat)
    requires forall k :: t <= k < |s| ==> s[k].Some?
    requires forall k :: t <= k < |s| - 1 ==> s[k + 1].value <= s[k].value
    requires t <= j < |s|
    ensures s[j].value <= s[t].value
    decreases j - t
  {
    if j > t {
      FallingFrom(s, t, j - 1);
    }
  }

  /**
   * The trough date can fall before the peak: here the series starts at 0,
   * peaks at 10 and stays at 0 afterwards, yet the trough date is day 0, the
   * peak is counted as a rebound, and the code is 3 rather than 2.
   */
  lemma TroughBeforePeak()
    ensures var s := [Some(0.0), Some(10.0), Some(0.0), Some(0.0)];
      TroughIndex(s, 1) == 0 && Rebounds(s, 1)
  {
    var s := [Some(0.0), Some(10.0), Some(0.0), Some(0.0)];
    var tail := s[2..];
    assert tail == [Some(0.0), Some(0.0)];
    assert PyMin(tail) == MinFold(Some(0.0), [Some(0.0)]) == Some(0.0);
    assert Trough(s, 1) == 0.0;
    assert s[0] == Some(0.0);
    TroughIsLeastAfterPeak(s, 1);
    assert TroughIndex(s, 1) == 0;
    assert NanMax(s).value == 10.0 by {
      assert s[1] == Some(10.0);
    }
    ReboundsIff(s, 1);
    assert s[1].value - 0.0 >= RELATIVE_PROMINENCE * NanMax(s).value;
  }
}
