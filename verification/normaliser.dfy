/**
 * The daily-series normaliser: one country's cumulative observations are
 * re-indexed onto every calendar day between the first and the last observed
 * date, the cumulative count is linearly interpolated, the daily delta is its
 * first difference, negative deltas are repaired from the day before, and the
 * leading undefined delta is back-filled.
 */
module Normaliser {
  import opened Nan

  /** One raw row: a date (as a day number) and the cumulative count reported for it. */
  datatype Observation = Observation(date: int, value: Option<real>)

  /** One row of the normalised series. */
  datatype DayRow = DayRow(date: int, cumulative: Option<real>, delta: Option<real>)

  /** Raw rows sorted by date with no date twice (the source sorts them and asserts no duplicates). */
  predicate DatesIncreasing(obs: seq<Observation>) {
    forall i, j :: 0 <= i < j < |obs| ==> obs[i].date < obs[j].date
  }

  predicate Negative(x: Option<real>) {
    x.Some? && x.value < 0.0
  }

  // ---------------------------------------------------------------------------
  // Re-indexing onto the calendar

  /** The value observed on day `d`, NaN when no row has that date. */
  function ValueOn(obs: seq<Observation>, d: int): (v: Option<real>)
    requires DatesIncreasing(obs)
    ensures v.Some? ==> exists k :: 0 <= k < |obs| && obs[k].date == d && obs[k].value == v
    ensures forall k :: 0 <= k < |obs| && obs[k].date == d ==> v == obs[k].value
  {
    if |obs| == 0 then None
    else if obs[0].date == d then obs[0].value
    else
      var rest := obs[1..];
      assert forall k :: 1 <= k < |obs| ==> rest[k - 1] == obs[k];
      ValueOn(rest, d)
  }

  /** `reindex(date_range(first, last))`: one entry per calendar day, NaN on days without a row. */
  function Reindex(obs: seq<Observation>): (r: seq<Option<real>>)
    requires |obs| > 0 && DatesIncreasing(obs)
    ensures |r| == obs[|obs| - 1].date - obs[0].date + 1
  {
    var first := obs[0].date;
    seq(obs[|obs| - 1].date - first + 1, i requires 0 <= i => ValueOn(obs, first + i))
  }

  /** Every observation sits at its day's offset from the first observed date. */
  lemma {:induction false} ReindexPlaces(obs: seq<Observation>)
    requires |obs| > 0 && DatesIncreasing(obs)
    ensures forall k :: 0 <= k < |obs| ==> 0 <= obs[k].date - obs[0].date < |Reindex(obs)|
    ensures forall k :: 0 <= k < |obs| ==> Reindex(obs)[obs[k].date - obs[0].date] == obs[k].value
  {
    var r := Reindex(obs);
    var first := obs[0].date;
    forall k | 0 <= k < |obs|
      ensures 0 <= obs[k].date - first < |r| && r[obs[k].date - first] == obs[k].value
    {
      if k > 0 {
        assert obs[0].date < obs[k].date;
      }
      if k < |obs| - 1 {
        assert obs[k].date < obs[|obs| - 1].date;
      }
      assert r[obs[k].date - first] == ValueOn(obs, obs[k].date);
    }
  }

  /** A day of the re-indexed series holds a number only if some observation reported it for that day. */
  lemma {:induction false} ReindexOnlyObserved(obs: seq<Observation>)
    requires |obs| > 0 && DatesIncreasing(obs)
    ensures forall i :: 0 <= i < |Reindex(obs)| && Reindex(obs)[i].Some? ==>
      exists k :: 0 <= k < |obs| && obs[k].date == obs[0].date + i && obs[k].value == Reindex(obs)[i]
  {
    var r := Reindex(obs);
    forall i | 0 <= i < |r| && r[i].Some?
      ensures exists k :: 0 <= k < |obs| && obs[k].date == obs[0].date + i && obs[k].value == r[i]
    {
      assert r[i] == ValueOn(obs, obs[0].date + i);
    }
  }

  // ---------------------------------------------------------------------------
  // Linear interpolation (`interpolate(method='linear')`)

  /** The nearest defined position at or before `i`. */
  function LastKnownAtOrBefore(s: seq<Option<real>>, i: nat): (r: Option<nat>)
    requires i < |s|
    ensures r.Some? ==> r.value <= i && s[r.value].Some? && forall j :: r.value < j <= i ==> s[j].None?
    ensures r.None? ==> forall j :: 0 <= j <= i ==> s[j].None?
    decreases i
  {
    if s[i].Some? then Some(i)
    else if i == 0 then None
    else LastKnownAtOrBefore(s, i - 1)
  }

  /** The nearest defined position at or after `i`. */
  function FirstKnownAtOrAfter(s: seq<Option<real>>, i: nat): (r: Option<nat>)
    requires i <= |s|
    ensures r.Some? ==> i <= r.value < |s| && s[r.value].Some? && forall j :: i <= j < r.value ==> s[j].None?
    ensures r.None? ==> forall j :: i <= j < |s| ==> s[j].None?
    decreases |s| - i
  {
    if i == |s| then None
    else if s[i].Some? then Some(i)
    else FirstKnownAtOrAfter(s, i + 1)
  }

  /** The point at fraction `num / den` of the way from `a` to `b`. */
  function Lerp(a: real, b: real, num: int, den: int): real
    requires den > 0
  {
    a + (b - a) * (num as real) / (den as real)
  }

  /**
   * The interpolated value at position `i`: a defined value is kept; a gap
   * between two defined values gets the point on the straight line between
   * them; a gap after the last defined value repeats it; a gap before the first
   * defined value stays NaN.
   */
  function InterpolateAt(s: seq<Option<real>>, i: nat): Option<real>
    requires i < |s|
  {
    if s[i].Some? then s[i]
    else
      match LastKnownAtOrBefore(s, i)
      case None => None
      case Some(j) =>
        match FirstKnownAtOrAfter(s, i)
        case None => s[j]
        case Some(k) => Some(Lerp(s[j].value, s[k].value, i - j, k - j))
  }

  function Interpolate(s: seq<Option<real>>): (r: seq<Option<real>>)
    ensures |r| == |s|
  {
    seq(|s|, i requires 0 <= i < |s| => InterpolateAt(s, i))
  }

  /** Interpolation keeps every defined value. */
  lemma {:induction false} InterpolateKeeps(s: seq<Option<real>>)
    ensures forall i :: 0 <= i < |s| && s[i].Some? ==> Interpolate(s)[i] == s[i]
  {
    forall i | 0 <= i < |s| && s[i].Some?
      ensures Interpolate(s)[i] == s[i]
    {
      assert Interpolate(s)[i] == InterpolateAt(s, i);
    }
  }

  /** Interpolation leaves NaN exactly the positions before the first defined value. */
  lemma {:induction false} InterpolateDefined(s: seq<Option<real>>)
    ensures forall i :: 0 <= i < |s| ==> (Interpolate(s)[i].Some? <==> exists j :: 0 <= j <= i && s[j].Some?)
  {
    var r := Interpolate(s);
    forall i | 0 <= i < |s|
      ensures r[i].Some? <==> exists j :: 0 <= j <= i && s[j].Some?
    {
      assert r[i] == InterpolateAt(s, i);
      if r[i].Some? {
        var j := LastKnownAtOrBefore(s, i).value;
        assert 0 <= j <= i && s[j].Some?;
      }
    }
  }

  /** After the last defined value, interpolation repeats it. */
  lemma {:induction false} InterpolateTrailing(s: seq<Option<real>>, j: nat, i: nat)
    requires j < i < |s| && s[j].Some?
    requires forall m :: j < m < |s| ==> s[m].None?
    ensures Interpolate(s)[i] == s[j]
  {
    assert Interpolate(s)[i] == InterpolateAt(s, i);
    assert s[i].None?;
    assert LastKnownAtOrBefore(s, i) == Some(j);
    assert FirstKnownAtOrAfter(s, i).None?;
  }

  /** Between two defined values with only gaps in between, the interpolation is the straight line. */
  lemma {:induction false} InterpolateIsLinear(s: seq<Option<real>>, j: nat, k: nat, i: nat)
    requires j < i < k < |s|
    requires s[j].Some? && s[k].Some?
    requires forall m :: j < m < k ==> s[m].None?
    ensures Interpolate(s)[i] == Some(Lerp(s[j].value, s[k].value, i - j, k - j))
  {
    assert Interpolate(s)[i] == InterpolateAt(s, i);
    assert s[i].None?;
    assert LastKnownAtOrBefore(s, i) == Some(j);
    assert FirstKnownAtOrAfter(s, i) == Some(k);
    assert InterpolateAt(s, i) == Some(Lerp(s[j].value, s[k].value, i - j, k - j));
  }

  /** Defined values that never decrease from earlier to later positions. */
  predicate KnownNondecreasing(s: seq<Option<real>>) {
    forall j, k :: 0 <= j < k < |s| && s[j].Some? && s[k].Some? ==> s[j].value <= s[k].value
  }

  lemma {:induction false} LerpBounds(a: real, b: real, n1: int, n2: int, den: int)
    requires a <= b && 0 <= n1 <= n2 <= den && den > 0
    ensures a <= Lerp(a, b, n1, den) <= Lerp(a, b, n2, den) <= b
  {
    LerpMonotone(a, b, 0, n1, den);
    LerpMonotone(a, b, n1, n2, den);
    LerpMonotone(a, b, n2, den, den);
    DivSelf(b - a, den as real);
  }

  /** Moving further along the line from `a` to `b` never goes down. */
  lemma {:induction false} LerpMonotone(a: real, b: real, n1: int, n2: int, den: int)
    requires a <= b && n1 <= n2 && den > 0
    ensures Lerp(a, b, n1, den) <= Lerp(a, b, n2, den)
  {
    var d := b - a;
    MulMonotone(d, n1 as real, n2 as real);
    DivMonotone(d * (n1 as real), d * (n2 as real), den as real);
  }

  /** One step of the interpolated series never goes down when the defined values never do. */
  lemma {:induction false} InterpolateStep(s: seq<Option<real>>, i: nat)
    requires i + 1 < |s| && KnownNondecreasing(s)
    requires Interpolate(s)[i].Some?
    ensures Interpolate(s)[i + 1].Some?
    ensures Interpolate(s)[i].value <= Interpolate(s)[i + 1].value
  {
    var r := Interpolate(s);
    var j := LastKnownAtOrBefore(s, i).value;
    assert LastKnownAtOrBefore(s, i + 1).Some?;
    if s[i + 1].Some? {
      if s[i].None? {
        assert FirstKnownAtOrAfter(s, i) == FirstKnownAtOrAfter(s, i + 1) == Some(i + 1);
        LerpBounds(s[j].value, s[i + 1].value, i - j, i - j, i + 1 - j);
      }
    } else if s[i].Some? {
      assert LastKnownAtOrBefore(s, i + 1) == Some(i);
      match FirstKnownAtOrAfter(s, i + 1)
      case None =>
      case Some(k) =>
        LerpBounds(s[i].value, s[k].value, 0, 1, k - i);
    } else {
      assert LastKnownAtOrBefore(s, i + 1) == Some(j);
      assert FirstKnownAtOrAfter(s, i) == FirstKnownAtOrAfter(s, i + 1);
      match FirstKnownAtOrAfter(s, i + 1)
      case None =>
      case Some(k) =>
        LerpBounds(s[j].value, s[k].value, i - j, i + 1 - j, k - j);
    }
  }

  // ---------------------------------------------------------------------------
  // First difference, repair of negative deltas, back-fill

  /** `diff()`: the first entry is NaN, later ones are the day-on-day change (NaN if either side is NaN). */
  function Diff(c: seq<Option<real>>): (d: seq<Option<real>>)
    ensures |d| == |c|
    ensures |d| > 0 ==> d[0].None?
    ensures forall i :: 0 < i < |c| ==> (d[i].Some? <==> c[i].Some? && c[i - 1].Some?)
    ensures forall i :: 0 < i < |c| && d[i].Some? && c[i].Some? && c[i - 1].Some? ==> c[i].value == c[i - 1].value + d[i].value
  {
    seq(|c|, i requires 0 <= i < |c| =>
      if i > 0 && c[i].Some? && c[i - 1].Some? then Some(c[i].value - c[i - 1].value) else None)
  }

  /**
   * Negative-delta repair read positionally: every negative entry, all at once,
   * takes the entry one position before it as it was before the repair
   * (`iloc[-1]`, the last entry, for position 0). This is the behaviour the
   * repair is meant to have; see RepairAligned for what pandas does with it.
   */
  function Repaired(d: seq<Option<real>>): (r: seq<Option<real>>)
    ensures |r| == |d|
  {
    seq(|d|, i requires 0 <= i < |d| =>
      if Negative(d[i]) then (if i > 0 then d[i - 1] else d[|d| - 1]) else d[i])
  }

  /**
   * Repair changes only negative entries, copies into each the entry before it
   * as it stood before the repair, and so leaves an entry negative exactly when
   * it and its predecessor were both negative.
   */
  lemma {:induction false} RepairedSpec(d: seq<Option<real>>)
    requires |d| > 0 && !Negative(d[0])
    ensures forall i :: 0 <= i < |d| && !Negative(d[i]) ==> Repaired(d)[i] == d[i]
    ensures forall i :: 0 < i < |d| && Negative(d[i]) ==> Repaired(d)[i] == d[i - 1]
    ensures forall i :: 0 < i < |d| ==> (Negative(Repaired(d)[i]) <==> Negative(d[i]) && Negative(d[i - 1]))
    ensures !Negative(Repaired(d)[0])
  {
  }

  /** Two consecutive negative deltas: the second is still negative after the repair. */
  lemma {:induction false} RepairIsNotPropagation()
    ensures Repaired([None, Some(4.0), Some(-1.0), Some(-2.0)]) == [None, Some(4.0), Some(4.0), Some(-1.0)]
  {
  }

  /**
   * The repair as pandas 1.x executes it: `Series.iloc[idx] = other_series`
   * aligns the right-hand series on its index labels, so target label `i`
   * receives the right-hand entry labelled `i`, which exists only when `i + 1`
   * is negative too (and then holds the unchanged `d[i]`); every other negative
   * entry becomes NaN.
   */
  function RepairAligned(d: seq<Option<real>>): (r: seq<Option<real>>)
    ensures |r| == |d|
  {
    seq(|d|, i requires 0 <= i < |d| =>
      if Negative(d[i]) then (if i + 1 < |d| && Negative(d[i + 1]) then d[i] else None) else d[i])
  }

  /** `fillna(method='bfill')`: a NaN takes the next defined value after it; trailing NaNs stay. */
  function Backfill(d: seq<Option<real>>): (r: seq<Option<real>>)
    ensures |r| == |d|
  {
    seq(|d|, i requires 0 <= i < |d| =>
      var k := FirstKnownAtOrAfter(d, i);
      if k.Some? then d[k.value] else None)
  }

  /**
   * Back-filling keeps every defined value, gives a NaN the first defined value
   * after it, and leaves NaN exactly the positions with no defined value at or
   * after them.
   */
  lemma {:induction false} BackfillSpec(d: seq<Option<real>>)
    ensures forall i :: 0 <= i < |d| && d[i].Some? ==> Backfill(d)[i] == d[i]
    ensures forall i, k :: 0 <= i < k < |d| && d[k].Some? && (forall j :: i <= j < k ==> d[j].None?) ==> Backfill(d)[i] == d[k]
    ensures forall i :: 0 <= i < |d| ==> (Backfill(d)[i].None? <==> forall j :: i <= j < |d| ==> d[j].None?)
  {
    var r := Backfill(d);
    forall i | 0 <= i < |d|
      ensures d[i].Some? ==> r[i] == d[i]
      ensures r[i].None? <==> forall j :: i <= j < |d| ==> d[j].None?
    {
      assert r[i] == (var k := FirstKnownAtOrAfter(d, i); if k.Some? then d[k.value] else None);
    }
    forall i, k | 0 <= i < k < |d| && d[k].Some? && (forall j :: i <= j < k ==> d[j].None?)
      ensures r[i] == d[k]
    {
      BackfillAt(d, i, k);
    }
  }

  /**
   * An isolated negative delta: pandas' aligned assignment makes it NaN and the
   * back-fill then gives it the NEXT day's delta, whereas the repair copies the
   * PREVIOUS day's.
   */
  lemma {:induction false} RepairAlignedTakesNextDay()
    ensures Backfill(RepairAligned([None, Some(5.0), Some(-2.0), Some(3.0)])) == [Some(5.0), Some(5.0), Some(3.0), Some(3.0)]
    ensures Backfill(Repaired([None, Some(5.0), Some(-2.0), Some(3.0)])) == [Some(5.0), Some(5.0), Some(5.0), Some(3.0)]
  {
    var d: seq<Option<real>> := [None, Some(5.0), Some(-2.0), Some(3.0)];
    var a := RepairAligned(d);
    assert a[0] == None && a[1] == Some(5.0) && a[2] == None && a[3] == Some(3.0);
    BackfillAt(a, 0, 1);
    BackfillAt(a, 2, 3);
    var p := Repaired(d);
    assert p[0] == None && p[1] == Some(5.0) && p[2] == Some(5.0) && p[3] == Some(3.0);
    BackfillAt(p, 0, 1);
  }

  /** A NaN followed by NaNs up to a defined entry `k` is back-filled from `k`. */
  lemma {:induction false} BackfillAt(d: seq<Option<real>>, i: nat, k: nat)
    requires i <= k < |d| && d[k].Some? && forall j :: i <= j < k ==> d[j].None?
    ensures Backfill(d)[i] == d[k]
  {
    assert Backfill(d)[i] == (var f := FirstKnownAtOrAfter(d, i); if f.Some? then d[f.value] else None);
    assert FirstKnownAtOrAfter(d, i) == Some(k);
  }

  // ---------------------------------------------------------------------------
  // The whole normaliser

  /** The normalised series of one country's raw cumulative observations. */
  function Normalise(obs: seq<Observation>): (rows: seq<DayRow>)
    requires |obs| > 0 && DatesIncreasing(obs)
    ensures |rows| == obs[|obs| - 1].date - obs[0].date + 1
    ensures forall i :: 0 <= i < |rows| ==> rows[i].date == obs[0].date + i
  {
    var c := Interpolate(Reindex(obs));
    var d := Backfill(Repaired(Diff(c)));
    seq(|c|, i requires 0 <= i < |c| => DayRow(obs[0].date + i, c[i], d[i]))
  }

  /** Every observed cumulative count appears unchanged on its own day of the normalised series. */
  lemma {:induction false} NormaliseKeepsObserved(obs: seq<Observation>)
    requires |obs| > 0 && DatesIncreasing(obs)
    ensures forall k :: 0 <= k < |obs| && obs[k].value.Some? ==>
      0 <= obs[k].date - obs[0].date < |Normalise(obs)| && Normalise(obs)[obs[k].date - obs[0].date].cumulative == obs[k].value
  {
    var s := Reindex(obs);
    ReindexPlaces(obs);
    InterpolateKeeps(s);
  }

  /** A country with a single observation yields one row whose delta is NaN. */
  lemma {:induction false} NormaliseSingle(o: Observation)
    ensures Normalise([o]) == [DayRow(o.date, o.value, None)]
  {
    var s := Reindex([o]);
    assert s[0] == ValueOn([o], o.date) == o.value;
    var c := Interpolate(s);
    assert c[0] == InterpolateAt(s, 0) == o.value;
    assert c == [o.value];
    var d := Repaired(Diff(c));
    assert d == [None];
    assert FirstKnownAtOrAfter(d, 0) == None;
  }

  /** Rows sorted by date: an earlier date sits at an earlier position. */
  lemma {:induction false} DatesOrder(obs: seq<Observation>, x: nat, y: nat)
    requires DatesIncreasing(obs) && x < |obs| && y < |obs| && obs[x].date < obs[y].date
    ensures x < y
  {
  }

  lemma {:induction false} ReindexNondecreasing(obs: seq<Observation>)
    requires |obs| > 0 && DatesIncreasing(obs)
    requires forall j, k :: 0 <= j < k < |obs| && obs[j].value.Some? && obs[k].value.Some? ==> obs[j].value.value <= obs[k].value.value
    ensures KnownNondecreasing(Reindex(obs))
  {
    var r := Reindex(obs);
    var first := obs[0].date;
    ReindexOnlyObserved(obs);
    forall a, b | 0 <= a < b < |r| && r[a].Some? && r[b].Some?
      ensures r[a].value <= r[b].value
    {
      var ka :| 0 <= ka < |obs| && obs[ka].date == first + a && obs[ka].value == r[a];
      var kb :| 0 <= kb < |obs| && obs[kb].date == first + b && obs[kb].value == r[b];
      DatesOrder(obs, ka, kb);
    }
  }

  /**
   * When the observed cumulative counts never decrease, no first difference of
   * the interpolated count is negative, so the repair changes nothing, and no
   * delta of the normalised series (back-filled or not) is negative.
   */
  lemma {:induction false} NormaliseMonotone(obs: seq<Observation>)
    requires |obs| > 0 && DatesIncreasing(obs)
    requires forall j, k :: 0 <= j < k < |obs| && obs[j].value.Some? && obs[k].value.Some? ==> obs[j].value.value <= obs[k].value.value
    ensures var c := Interpolate(Reindex(obs));
      Repaired(Diff(c)) == Diff(c) &&
      forall i :: 0 <= i < |c| && Diff(c)[i].Some? ==> Diff(c)[i].value >= 0.0
    ensures forall i :: 0 <= i < |Normalise(obs)| && Normalise(obs)[i].delta.Some? ==> Normalise(obs)[i].delta.value >= 0.0
  {
    var s := Reindex(obs);
    ReindexNondecreasing(obs);
    var c := Interpolate(s);
    var d := Diff(c);
    forall i | 0 < i < |c| && d[i].Some?
      ensures d[i].value >= 0.0
    {
      InterpolateStep(s, i - 1);
    }
    assert Repaired(d) == d;
    NormaliseDeltas(obs);
    forall i | 0 <= i < |c| && Normalise(obs)[i].delta.Some?
      ensures Normalise(obs)[i].delta.value >= 0.0
    {
      var k := FirstKnownAtOrAfter(d, i);
      assert Backfill(d)[i] == (if k.Some? then d[k.value] else None);
    }
  }

  /**
   * A gapless series whose cumulative counts never decrease comes back as it
   * went in: one row per observation with the same cumulative count.
   */
  lemma {:induction false} NormaliseGapless(obs: seq<Observation>)
    requires |obs| > 0 && DatesIncreasing(obs)
    requires forall k :: 0 <= k < |obs| ==> obs[k].date == obs[0].date + k && obs[k].value.Some?
    ensures |Normalise(obs)| == |obs|
    ensures forall i :: 0 <= i < |obs| ==> Normalise(obs)[i].cumulative == obs[i].value
  {
    GaplessCumulative(obs);
  }

  /**
   * On such a series each delta is the day-on-day change, and the first delta
   * is back-filled from the second.
   */
  lemma {:induction false} NormaliseGaplessDeltas(obs: seq<Observation>)
    requires |obs| >= 2 && DatesIncreasing(obs)
    requires forall k :: 0 <= k < |obs| ==> obs[k].date == obs[0].date + k && obs[k].value.Some?
    requires forall j, k :: 0 <= j < k < |obs| ==> obs[j].value.value <= obs[k].value.value
    ensures |Normalise(obs)| == |obs|
    ensures forall i :: 0 < i < |obs| ==> Normalise(obs)[i].delta == Some(obs[i].value.value - obs[i - 1].value.value)
    ensures Normalise(obs)[0].delta == Normalise(obs)[1].delta
  {
    var c := Interpolate(Reindex(obs));
    GaplessCumulative(obs);
    forall i | 0 < i < |c|
      ensures c[i - 1].value <= c[i].value
    {
      assert c[i - 1] == obs[i - 1].value && c[i] == obs[i].value;
    }
    DefinedDeltas(c);
    NormaliseDeltas(obs);
    DeltasOfObserved(Normalise(obs), c, Backfill(Repaired(Diff(c))), obs);
  }

  /** Rows carrying the day-on-day changes of `c`, where `c` holds the observed counts, carry the observed changes. */
  lemma {:induction false} DeltasOfObserved(rows: seq<DayRow>, c: seq<Option<real>>, b: seq<Option<real>>, obs: seq<Observation>)
    requires |rows| == |c| == |b| == |obs| >= 2
    requires forall i :: 0 <= i < |obs| ==> c[i] == obs[i].value && obs[i].value.Some?
    requires forall i :: 0 <= i < |c| ==> rows[i].delta == b[i]
    requires forall i :: 0 < i < |c| ==> b[i] == Some(c[i].value - c[i - 1].value)
    requires b[0] == b[1]
    ensures forall i :: 0 < i < |obs| ==> rows[i].delta == Some(obs[i].value.value - obs[i - 1].value.value)
    ensures rows[0].delta == rows[1].delta
  {
    forall i | 0 < i < |obs|
      ensures rows[i].delta == Some(obs[i].value.value - obs[i - 1].value.value)
    {
      assert c[i] == obs[i].value && c[i - 1] == obs[i - 1].value;
    }
  }

  /** The deltas of the normalised series are the back-filled, repaired first differences of the interpolated counts. */
  lemma {:induction false} NormaliseDeltas(obs: seq<Observation>)
    requires |obs| > 0 && DatesIncreasing(obs)
    ensures var c := Interpolate(Reindex(obs));
      |Normalise(obs)| == |c| &&
      forall i :: 0 <= i < |c| ==> Normalise(obs)[i].delta == Backfill(Repaired(Diff(c)))[i]
  {
  }

  /**
   * On a fully defined, never-decreasing cumulative series the repair changes
   * nothing: each delta after the first is the day-on-day change, and the
   * first is back-filled from the second.
   */
  lemma {:induction false} DefinedDeltas(c: seq<Option<real>>)
    requires |c| >= 2
    requires forall i :: 0 <= i < |c| ==> c[i].Some?
    requires forall i :: 0 < i < |c| ==> c[i - 1].value <= c[i].value
    ensures var b := Backfill(Repaired(Diff(c)));
      (forall i :: 0 < i < |c| ==> b[i] == Some(c[i].value - c[i - 1].value)) && b[0] == b[1]
  {
    var d := Diff(c);
    forall i | 0 < i < |c|
      ensures d[i] == Some(c[i].value - c[i - 1].value)
    {
    }
    forall i | 0 <= i < |d|
      ensures Repaired(d)[i] == d[i]
    {
    }
    assert Repaired(d) == d;
    forall i | 0 < i < |c|
      ensures Backfill(d)[i] == d[i]
    {
      BackfillAt(d, i, i);
    }
    BackfillAt(d, 0, 1);
  }

  /** On a gapless series the interpolated cumulative count is the observed one. */
  lemma {:induction false} GaplessCumulative(obs: seq<Observation>)
    requires |obs| > 0 && DatesIncreasing(obs)
    requires forall k :: 0 <= k < |obs| ==> obs[k].date == obs[0].date + k && obs[k].value.Some?
    ensures |Interpolate(Reindex(obs))| == |obs|
    ensures forall i :: 0 <= i < |obs| ==> Interpolate(Reindex(obs))[i] == obs[i].value
  {
    var s := Reindex(obs);
    ReindexPlaces(obs);
    assert obs[|obs| - 1].date == obs[0].date + |obs| - 1;
    forall i | 0 <= i < |obs|
      ensures Interpolate(s)[i] == obs[i].value
    {
      assert obs[i].date - obs[0].date == i;
      assert s[i] == obs[i].value;
      assert Interpolate(s)[i] == InterpolateAt(s, i);
    }
  }

  // ---------------------------------------------------------------------------
  // The per-country block with the intended positional repair

  /**
   * The intended repair of negative deltas, in place: the positions are found
   * first and every one of them is assigned the previous day's delta from a
   * snapshot taken before any assignment. (The label-aligned assignment pandas
   * actually performs is `RepairAligned`.)
   */
  method RepairNegativeDeltas(a: array<Option<real>>)
    modifies a
    ensures a[..] == Repaired(old(a[..]))
  {
    var before := a[..];
    var i := 0;
    while i < a.Length
      invariant 0 <= i <= a.Length
      invariant forall k :: 0 <= k < i ==> a[k] == Repaired(before)[k]
      invariant forall k :: i <= k < a.Length ==> a[k] == before[k]
    {
      if Negative(before[i]) {
        a[i] := if i > 0 then before[i - 1] else before[a.Length - 1];
      }
      i := i + 1;
    }
    assert a[..] == Repaired(before);
  }

  /** One country's pre-processing block with the intended repair: reindex, interpolate, diff, positional repair in place, back-fill. */
  method NormaliseCountry(obs: seq<Observation>) returns (rows: seq<DayRow>)
    requires |obs| > 0 && DatesIncreasing(obs)
    ensures rows == Normalise(obs)
  {
    var c := Interpolate(Reindex(obs));
    var d := Diff(c);
    var a := new Option<real>[|d|](i requires 0 <= i < |d| => d[i]);
    assert a[..] == d;
    RepairNegativeDeltas(a);
    var filled := Backfill(a[..]);
    rows := seq(|c|, i requires 0 <= i < |c| => DayRow(obs[0].date + i, c[i], filled[i]));
  }
}
