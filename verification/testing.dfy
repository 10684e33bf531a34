/**
 * Testing pre-processing: one country's raw daily test counts are trimmed to
 * the rows from the first to the last reported count, re-indexed onto the
 * calendar and linearly interpolated. A country that never reports a test
 * count is skipped.
 */
module Testing {
  import opened Nan
  import opened Normaliser

  /** The outcome of pre-processing one country's test counts. */
  datatype Preprocessed =
    | NoTests                                           // skipped: not a single count reported
    | Aborted                                           // the trimmed slice is empty: the script stops with an IndexError
    | Daily(start: int, tests: seq<Option<real>>)       // one entry per day from `start`

  predicate Reported(rows: seq<Observation>) {
    exists i :: 0 <= i < |rows| && rows[i].value.Some?
  }

  /** The position of the first row with a reported count. */
  function FirstReported(rows: seq<Observation>): (f: nat)
    requires Reported(rows)
    ensures f < |rows| && rows[f].value.Some?
    ensures forall i :: 0 <= i < f ==> rows[i].value.None?
  {
    if rows[0].value.Some? then 0
    else
      var rest := rows[1..];
      assert forall i :: 1 <= i < |rows| ==> rest[i - 1] == rows[i];
      FirstReported(rest) + 1
  }

  /** The position of the last row with a reported count. */
  function LastReported(rows: seq<Observation>): (l: nat)
    requires Reported(rows)
    ensures l < |rows| && rows[l].value.Some?
    ensures forall i :: l < i < |rows| ==> rows[i].value.None?
  {
    if rows[|rows| - 1].value.Some? then |rows| - 1
    else
      var rest := rows[..|rows| - 1];
      assert forall i :: 0 <= i < |rows| - 1 ==> rest[i] == rows[i];
      LastReported(rest)
  }

  /** Re-index a non-empty slice of rows onto the calendar and interpolate it. */
  function DailyTests(slice: seq<Observation>): (p: Preprocessed)
    requires |slice| > 0 && DatesIncreasing(slice)
    ensures p.Daily? && p.start == slice[0].date && |p.tests| == slice[|slice| - 1].date - slice[0].date + 1
  {
    Daily(slice[0].date, Interpolate(Reindex(slice)))
  }

  /**
   * The block as written: `iloc[first:last]` stops BEFORE the last reported
   * row, and an empty slice (a single reported row) makes the next step fail.
   */
  function PreprocessAsWritten(rows: seq<Observation>): (p: Preprocessed)
    requires DatesIncreasing(rows)
    ensures p.NoTests? <==> !Reported(rows)
    ensures p.Daily? ==> p.start == rows[FirstReported(rows)].date
  {
    if !Reported(rows) then NoTests
    else
      var slice := rows[FirstReported(rows)..LastReported(rows)];
      if |slice| == 0 then Aborted else DailyTests(slice)
  }

  /**
   * The block with the slice taken up to and including the last reported row.
   * A country is skipped exactly when it reports no count, and the run never
   * aborts.
   */
  function Preprocess(rows: seq<Observation>): (p: Preprocessed)
    requires DatesIncreasing(rows)
    ensures p.NoTests? <==> !Reported(rows)
    ensures !p.Aborted?
  {
    if !Reported(rows) then NoTests
    else
      var f, l := FirstReported(rows), LastReported(rows);
      assert f <= l;
      DailyTests(rows[f..l + 1])
  }

  lemma {:induction false} SliceIncreasing(rows: seq<Observation>, a: nat, b: nat)
    requires DatesIncreasing(rows) && a <= b <= |rows|
    ensures DatesIncreasing(rows[a..b])
  {
  }

  /**
   * As written, a country is skipped exactly when it reports no count, the run
   * aborts exactly when it reports a single one, and otherwise the series ends
   * on the day of the row before the last reported one, so the last reported
   * count is never part of it.
   */
  lemma {:induction false} PreprocessAsWrittenSpec(rows: seq<Observation>)
    requires DatesIncreasing(rows)
    ensures PreprocessAsWritten(rows).NoTests? <==> !Reported(rows)
    ensures PreprocessAsWritten(rows).Aborted? <==>
      Reported(rows) && forall i, j :: 0 <= i < |rows| && 0 <= j < |rows| && rows[i].value.Some? && rows[j].value.Some? ==> i == j
    ensures PreprocessAsWritten(rows).Daily? ==>
      var p := PreprocessAsWritten(rows);
      p.start + |p.tests| - 1 < rows[LastReported(rows)].date
  {
    if Reported(rows) {
      var f, l := FirstReported(rows), LastReported(rows);
      if f < l {
        SliceIncreasing(rows, f, l);
        assert rows[f..l][l - f - 1] == rows[l - 1];
      }
    }
  }

  /** Two reported days: as written only the first survives; the intended trim keeps both. */
  lemma {:induction false} AsWrittenDropsLastCount()
    ensures PreprocessAsWritten([Observation(0, Some(5.0)), Observation(1, Some(7.0))]) == Daily(0, [Some(5.0)])
    ensures Preprocess([Observation(0, Some(5.0)), Observation(1, Some(7.0))]) == Daily(0, [Some(5.0), Some(7.0)])
  {
    var rows := [Observation(0, Some(5.0)), Observation(1, Some(7.0))];
    assert FirstReported(rows) == 0;
    assert LastReported(rows) == 1;
    var one := rows[0..1];
    assert Reindex(one)[0] == ValueOn(one, 0) == Some(5.0);
    assert Interpolate(Reindex(one))[0] == InterpolateAt(Reindex(one), 0);
    var both := rows[0..2];
    var s := Reindex(both);
    assert s[0] == ValueOn(both, 0) == Some(5.0);
    assert s[1] == ValueOn(both, 1) == Some(7.0);
    assert Interpolate(s)[0] == InterpolateAt(s, 0);
    assert Interpolate(s)[1] == InterpolateAt(s, 1);
  }

  /** A slice that starts with a reported count has a number on every day. */
  lemma {:induction false} DailyTestsFilled(slice: seq<Observation>)
    requires |slice| > 0 && DatesIncreasing(slice) && slice[0].value.Some?
    ensures forall i :: 0 <= i < |DailyTests(slice).tests| ==> DailyTests(slice).tests[i].Some?
  {
    var s := Reindex(slice);
    ReindexPlaces(slice);
    assert s[0] == slice[0].value;
    InterpolateDefined(s);
    forall i | 0 <= i < |s|
      ensures Interpolate(s)[i].Some?
    {
      assert 0 <= 0 <= i && s[0].Some?;
    }
  }

  /** Every reported count of a slice appears on its own day. */
  lemma {:induction false} DailyTestsKeeps(slice: seq<Observation>)
    requires |slice| > 0 && DatesIncreasing(slice)
    ensures forall k :: 0 <= k < |slice| && slice[k].value.Some? ==>
      0 <= slice[k].date - slice[0].date < |DailyTests(slice).tests| &&
      DailyTests(slice).tests[slice[k].date - slice[0].date] == slice[k].value
  {
    ReindexPlaces(slice);
    InterpolateKeeps(Reindex(slice));
  }

  /** Otherwise its series runs from the first to the last reported date, both included. */
  lemma {:induction false} PreprocessSpan(rows: seq<Observation>)
    requires DatesIncreasing(rows) && Reported(rows)
    ensures Preprocess(rows).Daily?
    ensures Preprocess(rows).start == rows[FirstReported(rows)].date
    ensures Preprocess(rows).start + |Preprocess(rows).tests| - 1 == rows[LastReported(rows)].date
  {
    var f, l := FirstReported(rows), LastReported(rows);
    PreprocessIsSlice(rows);
    SliceSpan(rows, f, l);
  }

  /** With a reported count, the intended block is the daily series of the rows from the first to the last reported one. */
  lemma {:induction false} PreprocessIsSlice(rows: seq<Observation>)
    requires DatesIncreasing(rows) && Reported(rows)
    ensures FirstReported(rows) <= LastReported(rows)
    ensures DatesIncreasing(rows[FirstReported(rows)..LastReported(rows) + 1])
    ensures Preprocess(rows) == DailyTests(rows[FirstReported(rows)..LastReported(rows) + 1])
  {
    SliceIncreasing(rows, FirstReported(rows), LastReported(rows) + 1);
  }

  /** The series of the rows from `f` to `l` runs from the date of row `f` to the date of row `l`. */
  lemma {:induction false} SliceSpan(rows: seq<Observation>, f: nat, l: nat)
    requires DatesIncreasing(rows) && f <= l < |rows|
    ensures DatesIncreasing(rows[f..l + 1])
    ensures DailyTests(rows[f..l + 1]).start == rows[f].date
    ensures DailyTests(rows[f..l + 1]).start + |DailyTests(rows[f..l + 1]).tests| - 1 == rows[l].date
  {
    var slice := rows[f..l + 1];
    SliceIncreasing(rows, f, l + 1);
    assert slice[0] == rows[f];
    assert slice[|slice| - 1] == rows[l];
  }

  /** Interpolation leaves no gap between the first and the last reported count. */
  lemma {:induction false} PreprocessFilled(rows: seq<Observation>)
    requires DatesIncreasing(rows)
    ensures Preprocess(rows).Daily? ==>
      forall i :: 0 <= i < |Preprocess(rows).tests| ==> Preprocess(rows).tests[i].Some?
  {
    if Reported(rows) {
      var f, l := FirstReported(rows), LastReported(rows);
      PreprocessIsSlice(rows);
      DailyTestsFilled(rows[f..l + 1]);
    }
  }

  /** Every reported count of the country appears, unchanged, on its own day. */
  lemma {:induction false} PreprocessKeeps(rows: seq<Observation>, k: nat)
    requires DatesIncreasing(rows) && k < |rows| && rows[k].value.Some?
    ensures Preprocess(rows).Daily?
    ensures var p := Preprocess(rows);
      0 <= rows[k].date - p.start < |p.tests| && p.tests[rows[k].date - p.start] == rows[k].value
  {
    var f, l := FirstReported(rows), LastReported(rows);
    var slice := rows[f..l + 1];
    PreprocessIsSlice(rows);
    assert f <= k <= l;
    assert slice[k - f] == rows[k] && slice[0] == rows[f];
    DailyTestsKeeps(slice);
  }
}
