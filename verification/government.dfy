/**
 * Government-response derivations for one country: a policy flag is compared
 * with its threshold day by day, the resulting 0/1 series is cut into maximal
 * runs of equal values, and the first days of the 2nd, 3rd and 4th runs become
 * the "raised", "lowered" and "raised again" dates. The stringency index gives
 * the date of maximal stringency and the response times from t0.
 */
module GovernmentResponse {
  import opened Nan

  /** `flag_thresholds['c6_stay_at_home_requirements']`. */
  const STAY_AT_HOME_THRESHOLD: real := 2.0

  // ---------------------------------------------------------------------------
  // Days at or above the threshold

  /** `(flag >= threshold).astype(int)`: 1 on the days at or above the threshold, 0 elsewhere (NaN included). */
  function DaysAbove(flags: seq<Option<real>>, threshold: real): (b: seq<int>)
    ensures |b| == |flags|
    ensures forall i :: 0 <= i < |b| ==> (b[i] == 0 || b[i] == 1) && (b[i] == 1 <==> AtLeast(flags[i], threshold))
  {
    seq(|flags|, i requires 0 <= i < |flags| => if AtLeast(flags[i], threshold) then 1 else 0)
  }

  /** The sum of a series. */
  function Total(b: seq<int>): int {
    if |b| == 0 then 0 else b[0] + Total(b[1..])
  }

  /**
   * The total is a count of days: it lies between 0 and the number of days, is
   * 0 exactly when no flag reaches the threshold, and equals the number of days
   * exactly when every flag does.
   */
  lemma {:induction false} TotalDaysSpec(flags: seq<Option<real>>, threshold: real)
    ensures 0 <= Total(DaysAbove(flags, threshold)) <= |flags|
    ensures Total(DaysAbove(flags, threshold)) == 0 <==> forall i :: 0 <= i < |flags| ==> !AtLeast(flags[i], threshold)
    ensures Total(DaysAbove(flags, threshold)) == |flags| <==> forall i :: 0 <= i < |flags| ==> AtLeast(flags[i], threshold)
  {
    if |flags| > 0 {
      var b := DaysAbove(flags, threshold);
      assert b[1..] == DaysAbove(flags[1..], threshold);
      TotalDaysSpec(flags[1..], threshold);
      assert forall i :: 1 <= i < |flags| ==> flags[1..][i - 1] == flags[i];
    }
  }

  // ---------------------------------------------------------------------------
  // Runs

  /** A maximal run: `length` consecutive days of the same `value`. */
  datatype Run = Run(value: int, length: nat)

  /**
   * The runs of a series, first to last: the groups of
   * `days_above.groupby([days_above.ne(days_above.shift()).cumsum(), days_above])`.
   */
  function Runs(b: seq<int>): (r: seq<Run>)
    ensures |r| <= |b|
    ensures |b| > 0 ==> |r| > 0 && r[0].value == b[0]
  {
    if |b| == 0 then []
    else
      var rest := Runs(b[1..]);
      if |rest| > 0 && rest[0].value == b[0] then [Run(b[0], rest[0].length + 1)] + rest[1..]
      else [Run(b[0], 1)] + rest
  }

  /** The series a list of runs stands for. */
  function Expand(runs: seq<Run>): seq<int> {
    if |runs| == 0 then [] else Repeat(runs[0].value, runs[0].length) + Expand(runs[1..])
  }

  /** No run is empty and no two neighbouring runs hold the same value. */
  predicate Maximal(runs: seq<Run>) {
    (forall k :: 0 <= k < |runs| ==> runs[k].length >= 1) &&
    (forall k :: 0 < k < |runs| ==> runs[k - 1].value != runs[k].value)
  }

  /** The runs of a series are maximal and spell the series out again. */
  lemma RunsSpec(b: seq<int>)
    ensures Expand(Runs(b)) == b
    ensures Maximal(Runs(b))
  {
    RunsExpand(b);
    RunsMaximal(b);
  }

  lemma {:induction false} RunsExpand(b: seq<int>)
    ensures Expand(Runs(b)) == b
  {
    if |b| > 0 {
      var rest := Runs(b[1..]);
      RunsExpand(b[1..]);
      var r := Runs(b);
      if |rest| > 0 && rest[0].value == b[0] {
        assert r[1..] == rest[1..];
        assert Expand(rest) == Repeat(b[0], rest[0].length) + Expand(rest[1..]);
        assert Repeat(b[0], rest[0].length + 1) == [b[0]] + Repeat(b[0], rest[0].length);
        assert Expand(r) == [b[0]] + Expand(rest);
      } else {
        assert r[1..] == rest;
        assert Expand(r) == [b[0]] + Expand(rest);
      }
      assert b == [b[0]] + b[1..];
    }
  }

  lemma {:induction false} RunsMaximal(b: seq<int>)
    ensures Maximal(Runs(b))
  {
    if |b| > 0 {
      var rest := Runs(b[1..]);
      RunsMaximal(b[1..]);
      var r := Runs(b);
      if |rest| > 0 && rest[0].value == b[0] {
        assert forall k :: 1 <= k < |r| ==> r[k] == rest[k];
      } else {
        assert forall k :: 1 <= k < |r| ==> r[k] == rest[k - 1];
      }
    }
  }

  /** Conversely, the runs of the series spelled out by maximal runs are those runs. */
  lemma {:induction false} RunsOfExpand(runs: seq<Run>)
    requires Maximal(runs)
    ensures Runs(Expand(runs)) == runs
  {
    if |runs| > 0 {
      var rest := runs[1..];
      assert Maximal(rest) by {
        assert forall k :: 0 <= k < |rest| ==> rest[k] == runs[k + 1];
      }
      RunsOfExpand(rest);
      RunsPrepend(runs[0].value, runs[0].length, rest);
      assert [Run(runs[0].value, runs[0].length)] + rest == runs;
    }
  }

  /** Prefixing a block of `v` that differs from the first run adds one run in front. */
  lemma {:induction false} RunsPrepend(v: int, n: nat, rest: seq<Run>)
    requires n >= 1 && Runs(Expand(rest)) == rest
    requires |rest| > 0 ==> rest[0].value != v
    ensures Runs(Repeat(v, n) + Expand(rest)) == [Run(v, n)] + rest
  {
    var b := Repeat(v, n) + Expand(rest);
    assert b[0] == v;
    if n == 1 {
      assert b[1..] == Expand(rest);
      assert Runs(b) == [Run(v, 1)] + Runs(b[1..]);
    } else {
      RunsPrepend(v, n - 1, rest);
      assert b[1..] == Repeat(v, n - 1) + Expand(rest);
      var tail := Runs(b[1..]);
      assert tail == [Run(v, n - 1)] + rest;
      assert Runs(b) == [Run(v, n)] + tail[1..];
      assert tail[1..] == rest;
    }
  }

  // ---------------------------------------------------------------------------
  // Where each run starts

  /** The position of the first day of run `k`: the lengths of the runs before it, summed. */
  function RunStart(runs: seq<Run>, k: nat): nat
    requires k <= |runs|
  {
    if k == 0 then 0 else runs[0].length + RunStart(runs[1..], k - 1)
  }

  /** Run `k` occupies the `length` positions from its start, all holding its value. */
  lemma {:induction false} ExpandRunStart(runs: seq<Run>, k: nat)
    requires k < |runs|
    ensures RunStart(runs, k) + runs[k].length <= |Expand(runs)|
    ensures forall i :: RunStart(runs, k) <= i < RunStart(runs, k) + runs[k].length ==> Expand(runs)[i] == runs[k].value
  {
    var head := Repeat(runs[0].value, runs[0].length);
    assert Expand(runs) == head + Expand(runs[1..]);
    if k > 0 {
      ExpandRunStart(runs[1..], k - 1);
      assert runs[1..][k - 1] == runs[k];
      forall i | RunStart(runs, k) <= i < RunStart(runs, k) + runs[k].length
        ensures Expand(runs)[i] == runs[k].value
      {
        assert Expand(runs)[i] == Expand(runs[1..])[i - |head|];
      }
    } else {
      forall i | 0 <= i < runs[0].length
        ensures Expand(runs)[i] == runs[0].value
      {
        assert Expand(runs)[i] == head[i];
      }
    }
  }

  /** Each run starts where the one before it ends. */
  lemma {:induction false} RunStartStep(runs: seq<Run>, k: nat)
    requires k < |runs|
    ensures RunStart(runs, k + 1) == RunStart(runs, k) + runs[k].length
  {
    if k > 0 {
      RunStartStep(runs[1..], k - 1);
    }
  }

  /**
   * In the series itself, every run after the first starts on a change of
   * value, and every day from the start of the run before it up to that change
   * holds the same value: run `k` starts on the `k`-th change.
   */
  lemma RunStartIsChange(b: seq<int>, k: nat)
    requires 1 <= k < |Runs(b)|
    ensures var s, p := RunStart(Runs(b), k), RunStart(Runs(b), k - 1);
      0 < s < |b| && b[s] != b[s - 1] && p < s &&
      forall j :: p <= j < s ==> b[j] == b[s - 1]
  {
    var runs := Runs(b);
    RunsSpec(b);
    ExpandRunStart(runs, k);
    ExpandRunStart(runs, k - 1);
    RunStartStep(runs, k - 1);
    var s, p := RunStart(runs, k), RunStart(runs, k - 1);
    assert b[s] == runs[k].value;
    assert b[s - 1] == runs[k - 1].value;
  }

  /** The total is the number of days in the runs at the threshold. */
  function RunDays(runs: seq<Run>): int {
    if |runs| == 0 then 0 else (if runs[0].value == 1 then runs[0].length else 0) + RunDays(runs[1..])
  }

  /** The days counted one by one equal the days counted run by run. */
  lemma TotalByRuns(flags: seq<Option<real>>, threshold: real)
    ensures Total(DaysAbove(flags, threshold)) == RunDays(Runs(DaysAbove(flags, threshold)))
  {
    var b := DaysAbove(flags, threshold);
    var runs := Runs(b);
    RunsSpec(b);
    forall k | 0 <= k < |runs|
      ensures runs[k].value == 0 || runs[k].value == 1
    {
      ExpandRunStart(runs, k);
      assert b[RunStart(runs, k)] == runs[k].value;
    }
    TotalExpand(runs);
  }

  lemma {:induction false} TotalExpand(runs: seq<Run>)
    requires forall k :: 0 <= k < |runs| ==> runs[k].value == 0 || runs[k].value == 1
    ensures Total(Expand(runs)) == RunDays(runs)
  {
    if |runs| > 0 {
      TotalExpand(runs[1..]);
      TotalAppend(Repeat(runs[0].value, runs[0].length), Expand(runs[1..]));
      TotalRepeat(runs[0].value, runs[0].length);
    }
  }

  lemma {:induction false} TotalAppend(x: seq<int>, y: seq<int>)
    ensures Total(x + y) == Total(x) + Total(y)
  {
    if |x| > 0 {
      TotalAppend(x[1..], y);
      assert (x + y)[1..] == x[1..] + y;
    } else {
      assert x + y == y;
    }
  }

  lemma {:induction false} TotalRepeat(v: int, n: nat)
    requires v == 0 || v == 1
    ensures Total(Repeat(v, n)) == if v == 1 then n else 0
  {
    if n > 0 {
      TotalRepeat(v, n - 1);
      assert Repeat(v, n)[1..] == Repeat(v, n - 1);
    }
  }

  // ---------------------------------------------------------------------------
  // The panel row of one flag

  /** The flag's columns of the government-response panel. */
  datatype FlagPanel = FlagPanel(raised: Option<int>, lowered: Option<int>, raisedAgain: Option<int>,
                                 responseTime: Option<int>, totalDays: int)

  /** The date of the first day of run `k`, NaN when there are not that many runs. */
  function RunDate(dates: seq<int>, b: seq<int>, k: nat): (d: Option<int>)
    requires |dates| == |b|
    ensures d.Some? <==> k < |Runs(b)|
    ensures d.Some? ==> RunStart(Runs(b), k) < |dates| && d.value == dates[RunStart(Runs(b), k)]
  {
    var runs := Runs(b);
    if k < |runs| then
      RunsSpec(b);
      ExpandRunStart(runs, k);
      Some(dates[RunStart(runs, k)])
    else None
  }

  /**
   * raised, lowered and raised again are the first dates of the 2nd, 3rd and
   * 4th runs, whatever the value of the first run; the response time is raised
   * minus the population-relative t0, both needed; the total is the days at or
   * above the threshold.
   */
  function FlagPanelOf(dates: seq<int>, flags: seq<Option<real>>, threshold: real, t0Relative: Option<int>): (p: FlagPanel)
    requires |dates| == |flags|
    ensures p.raisedAgain.Some? ==> p.lowered.Some?
    ensures p.lowered.Some? ==> p.raised.Some?
    ensures p.responseTime.Some? ==> p.raised.Some? && t0Relative.Some?
    ensures 0 <= p.totalDays <= |flags|
  {
    TotalDaysSpec(flags, threshold);
    var b := DaysAbove(flags, threshold);
    var raised := RunDate(dates, b, 1);
    FlagPanel(raised, RunDate(dates, b, 2), RunDate(dates, b, 3),
              if raised.Some? && t0Relative.Some? then Some(raised.value - t0Relative.value) else None,
              Total(b))
  }

  /**
   * Each date is defined exactly when that many runs exist; raised falls on
   * the first day whose state differs from the first day's, lowered on the next
   * change after it, raised again on the one after that; the response time is
   * the days from t0 to raised.
   */
  lemma FlagPanelSpec(dates: seq<int>, flags: seq<Option<real>>, threshold: real, t0Relative: Option<int>)
    requires |dates| == |flags|
    ensures var p, b := FlagPanelOf(dates, flags, threshold, t0Relative), DaysAbove(flags, threshold);
      (p.raised.Some? <==> |Runs(b)| >= 2) &&
      (p.lowered.Some? <==> |Runs(b)| >= 3) &&
      (p.raisedAgain.Some? <==> |Runs(b)| >= 4) &&
      (p.responseTime.Some? <==> p.raised.Some? && t0Relative.Some?)
    ensures var p, b := FlagPanelOf(dates, flags, threshold, t0Relative), DaysAbove(flags, threshold);
      p.raised.Some? ==>
        exists s :: 0 < s < |b| && p.raised.value == dates[s] && b[s] != b[0] &&
          (forall j :: 0 <= j < s ==> b[j] == b[0]) &&
          (t0Relative.Some? ==> p.responseTime == Some(dates[s] - t0Relative.value))
  {
    var b := DaysAbove(flags, threshold);
    if |Runs(b)| >= 2 {
      RunStartIsChange(b, 1);
      var s := RunStart(Runs(b), 1);
      assert RunStart(Runs(b), 0) == 0;
      assert b[s - 1] == b[0];
    }
  }

  // ---------------------------------------------------------------------------
  // Maximal stringency and response times

  /**
   * The position of the maximal stringency: the first day whose index equals
   * `si.max()`. Without a single defined index the selection is empty and the
   * script stops, so a defined index is required.
   */
  function MaxSiIndex(si: seq<Option<real>>): (i: nat)
    requires exists j :: 0 <= j < |si| && si[j].Some?
    ensures i < |si| && si[i].Some?
    ensures forall j :: 0 <= j < |si| && si[j].Some? ==> si[j].value <= si[i].value
    ensures forall j :: 0 <= j < i ==> si[j] != si[i]
  {
    var m := NanMax(si);
    var k :| 0 <= k < |si| && si[k] == m;
    var r := FirstIndexOf(si, m);
    assert r.Some?;
    r.value
  }

  /** The stringency columns of the government-response panel. */
  datatype StringencyPanel = StringencyPanel(maxSi: real, dateMaxSi: int, responseTime: Option<int>, responseTimePop: Option<int>)

  /** The days from t0 (and from the population-relative t0) to the day of maximal stringency. */
  function StringencyPanelOf(dates: seq<int>, si: seq<Option<real>>, t0: Option<int>, t0Relative: Option<int>): (p: StringencyPanel)
    requires |dates| == |si| && exists j :: 0 <= j < |si| && si[j].Some?
    ensures p.responseTime.Some? <==> t0.Some?
    ensures p.responseTimePop.Some? <==> t0Relative.Some?
    ensures exists i :: (0 <= i < |si| && si[i] == Some(p.maxSi) && p.dateMaxSi == dates[i] &&
                         (forall j :: 0 <= j < |si| && si[j].Some? ==> si[j].value <= p.maxSi) &&
                         (forall j :: 0 <= j < i ==> si[j] != si[i]) &&
                         (t0.Some? ==> p.responseTime.value == dates[i] - t0.value) &&
                         (t0Relative.Some? ==> p.responseTimePop.value == dates[i] - t0Relative.value))
  {
    var i := MaxSiIndex(si);
    var d := dates[i];
    StringencyPanel(si[i].value, d,
                    if t0.Some? then Some(d - t0.value) else None,
                    if t0Relative.Some? then Some(d - t0Relative.value) else None)
  }
}
