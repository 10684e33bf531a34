/**
 * Missing values. The source threads numpy's NaN through every series; here a
 * day's value is an `Option<real>` and `None` stands for NaN. The reductions
 * below are the NaN-aware numpy/pandas reductions the source relies on.
 */
module Nan {

  datatype Option<+T> = None | Some(value: T)

  /** `n` copies of `v`: a column filled with one value. */
  function Repeat<T>(v: T, n: nat): (s: seq<T>)
    ensures |s| == n && forall i :: 0 <= i < n ==> s[i] == v
  {
    seq(n, _ => v)
  }

  /** True when `x` holds a number that is at least `t` (NaN compares false). */
  predicate AtLeast(x: Option<real>, t: real) {
    x.Some? && x.value >= t
  }

  /** True when `x` holds a number strictly above `t` (NaN compares false). */
  predicate Above(x: Option<real>, t: real) {
    x.Some? && x.value > t
  }

  /** The number of defined entries. */
  function CountDefined(s: seq<Option<real>>): (n: nat)
    ensures n <= |s|
  {
    if |s| == 0 then 0
    else CountDefined(s[..|s| - 1]) + (if s[|s| - 1].Some? then 1 else 0)
  }

  /** No entry is counted exactly when every entry is NaN. */
  lemma {:induction false} CountDefinedZero(s: seq<Option<real>>)
    ensures CountDefined(s) == 0 <==> forall i :: 0 <= i < |s| ==> s[i].None?
  {
    if |s| > 0 {
      var init := s[..|s| - 1];
      CountDefinedZero(init);
      assert forall i :: 0 <= i < |init| ==> init[i] == s[i];
    }
  }

  /** pandas `Series.sum()`: the sum of the defined entries (0 when there are none). */
  function SumDefined(s: seq<Option<real>>): real
  {
    if |s| == 0 then 0.0
    else SumDefined(s[..|s| - 1]) + (if s[|s| - 1].Some? then s[|s| - 1].value else 0.0)
  }

  /** `np.nanmax`: the largest defined entry, NaN when every entry is NaN. */
  function NanMax(s: seq<Option<real>>): (m: Option<real>)
    ensures m.None? <==> forall i :: 0 <= i < |s| ==> s[i].None?
    ensures m.Some? ==> exists i :: 0 <= i < |s| && s[i] == m
    ensures m.Some? ==> forall i :: 0 <= i < |s| && s[i].Some? ==> s[i].value <= m.value
  {
    if |s| == 0 then None
    else
      var rest := NanMax(s[..|s| - 1]);
      var x := s[|s| - 1];
      assert forall i :: 0 <= i < |s| - 1 ==> s[..|s| - 1][i] == s[i];
      if x.None? then rest
      else if rest.Some? && rest.value >= x.value then rest
      else x
  }

  /**
   * Python's builtin `min` over a pandas Series: the running candidate starts at
   * the first item and is replaced only by an item that compares `<` to it, so a
   * NaN item is never taken, and a NaN first item is never replaced.
   */
  function PyMin(s: seq<Option<real>>): (m: Option<real>)
    requires |s| > 0
    ensures m.None? <==> s[0].None?
  {
    if s[0].Some? then
      MinFoldDefined(s[0].value, s[1..]);
      MinFold(s[0], s[1..])
    else
      MinFoldNaN(s[1..]);
      MinFold(s[0], s[1..])
  }

  function MinFold(candidate: Option<real>, s: seq<Option<real>>): Option<real>
    decreases |s|
  {
    if |s| == 0 then candidate
    else
      var next := if s[0].Some? && candidate.Some? && s[0].value < candidate.value then s[0] else candidate;
      MinFold(next, s[1..])
  }

  /** The fold keeps a defined candidate defined, at or below its start, and at or below every defined item. */
  lemma {:induction false} MinFoldDefined(c: real, s: seq<Option<real>>)
    decreases |s|
    ensures MinFold(Some(c), s).Some?
    ensures MinFold(Some(c), s).value <= c
    ensures forall i :: 0 <= i < |s| && s[i].Some? ==> MinFold(Some(c), s).value <= s[i].value
    ensures MinFold(Some(c), s).value == c || exists i :: 0 <= i < |s| && s[i] == MinFold(Some(c), s)
  {
    if |s| > 0 {
      var next := if s[0].Some? && s[0].value < c then s[0].value else c;
      MinFoldDefined(next, s[1..]);
      assert forall i :: 1 <= i < |s| ==> s[1..][i - 1] == s[i];
    }
  }

  /** A NaN candidate is never replaced. */
  lemma {:induction false} MinFoldNaN(s: seq<Option<real>>)
    ensures MinFold(None, s).None?
  {
    if |s| > 0 {
      MinFoldNaN(s[1..]);
    }
  }

  /**
   * `min` is NaN exactly when the first item is NaN; otherwise it is the least
   * defined item, and it occurs in the series.
   */
  lemma PyMinSpec(s: seq<Option<real>>)
    requires |s| > 0
    ensures PyMin(s).None? <==> s[0].None?
    ensures s[0].Some? ==> exists i :: 0 <= i < |s| && s[i] == PyMin(s)
    ensures s[0].Some? ==> forall i :: 0 <= i < |s| && s[i].Some? ==> PyMin(s).value <= s[i].value
  {
    if s[0].Some? {
      MinFoldDefined(s[0].value, s[1..]);
      assert forall i :: 1 <= i < |s| ==> s[1..][i - 1] == s[i];
      var m := PyMin(s);
      if m.value != s[0].value {
        var i :| 0 <= i < |s[1..]| && s[1..][i] == m;
        assert s[i + 1] == m;
      }
    } else {
      MinFoldNaN(s[1..]);
    }
  }

  /**
   * The position of the first entry equal to `x`, as `s[s == x].iloc[0]` finds it
   * (NaN equals nothing, so a NaN `x` is found nowhere).
   */
  function FirstIndexOf(s: seq<Option<real>>, x: Option<real>): (r: Option<nat>)
    ensures r.Some? ==> r.value < |s| && x.Some? && s[r.value] == x
    ensures r.Some? ==> forall j :: 0 <= j < r.value ==> s[j] != x
    ensures r.None? ==> x.None? || forall j :: 0 <= j < |s| ==> s[j] != x
  {
    if x.None? || |s| == 0 then None
    else if s[0] == x then Some(0)
    else
      var rest := FirstIndexOf(s[1..], x);
      assert forall j :: 1 <= j < |s| ==> s[1..][j - 1] == s[j];
      if rest.Some? then Some(rest.value + 1) else None
  }

  /** The mean of the defined entries (`np.nanmean`), NaN when there are none. */
  function NanMean(s: seq<Option<real>>): (m: Option<real>)
    ensures m.Some? <==> exists i :: 0 <= i < |s| && s[i].Some?
  {
    CountDefinedZero(s);
    var n := CountDefined(s);
    if n == 0 then None else Some(SumDefined(s) / n as real)
  }

  /** Counting the defined entries of a prefix adds the last entry, if defined. */
  lemma CountDefinedStep(s: seq<Option<real>>, i: nat)
    requires i < |s|
    ensures CountDefined(s[..i + 1]) == CountDefined(s[..i]) + (if s[i].Some? then 1 else 0)
  {
    assert s[..i + 1][..i] == s[..i];
  }

  /** A prefix has no more defined entries than the whole. */
  lemma {:induction false} CountDefinedPrefix(s: seq<Option<real>>, i: nat)
    requires i <= |s|
    ensures CountDefined(s[..i]) <= CountDefined(s)
    decreases |s| - i
  {
    if i < |s| {
      CountDefinedStep(s, i);
      CountDefinedPrefix(s, i + 1);
    } else {
      assert s[..i] == s;
    }
  }

  /** The sum of the defined entries is at most their count times a bound that holds for each. */
  lemma {:induction false} SumDefinedAtMost(s: seq<Option<real>>, hi: real)
    requires forall i :: 0 <= i < |s| && s[i].Some? ==> s[i].value <= hi
    ensures SumDefined(s) <= CountDefined(s) as real * hi
  {
    if |s| > 0 {
      var init := s[..|s| - 1];
      assert forall i :: 0 <= i < |init| ==> init[i] == s[i];
      SumDefinedAtMost(init, hi);
      var x := s[|s| - 1];
      if x.Some? {
        assert CountDefined(s) == CountDefined(init) + 1;
        assert SumDefined(s) == SumDefined(init) + x.value;
        AddOneAtMost(CountDefined(init) as real, CountDefined(s) as real, SumDefined(init), x.value, hi);
      } else {
        assert CountDefined(s) == CountDefined(init);
        assert SumDefined(s) == SumDefined(init);
        assert CountDefined(s) as real * hi == CountDefined(init) as real * hi;
      }
    }
  }

  lemma AddOneAtMost(c: real, n: real, sum: real, x: real, hi: real)
    requires sum <= c * hi && x <= hi && n == c + 1.0
    ensures sum + x <= n * hi
  {
    assert n * hi == c * hi + hi;
  }

  /** The mean of the defined entries is defined exactly when one entry is, and respects any upper bound of each. */
  lemma NanMeanAtMost(s: seq<Option<real>>, hi: real)
    requires forall i :: 0 <= i < |s| && s[i].Some? ==> s[i].value <= hi
    ensures NanMean(s).Some? <==> exists i :: 0 <= i < |s| && s[i].Some?
    ensures NanMean(s).Some? ==> NanMean(s).value <= hi
  {
    CountDefinedZero(s);
    var n := CountDefined(s);
    if n > 0 {
      SumDefinedAtMost(s, hi);
      var nr := n as real;
      DivMonotone(SumDefined(s), nr * hi, nr);
      DivSelf(hi, nr);
      assert nr * hi == hi * nr;
    }
  }

  lemma DivMonotone(x: real, y: real, den: real)
    requires x <= y && den > 0.0
    ensures x / den <= y / den
  {
    var q := (y - x) / den;
    assert q * den == y - x;
  }

  lemma MulMonotone(d: real, a: real, b: real)
    requires 0.0 <= d && a <= b
    ensures d * a <= d * b
  {
    assert d * b - d * a == d * (b - a);
  }

  lemma DivSelf(d: real, den: real)
    requires den > 0.0
    ensures d * den / den == d
  {
  }

}
