/**
 * The epidemiology time-series table, built one country at a time: every
 * column is a growing array to which each country's block is concatenated,
 * and the panel later reads a country's rows back by selecting on the country
 * code.
 */
module SeriesTable {
  import opened Nan

  /**
   * The modelled columns of the table, each one entry per row: the date, the
   * cumulative and smoothed daily counts, the test columns, the positive rate
   * and the days since t0.
   */
  datatype Columns = Columns(
    dates: seq<int>,
    confirmed: seq<Option<real>>,
    casesSmoothed: seq<Option<real>>,
    deathsSmoothed: seq<Option<real>>,
    newTests: seq<Option<real>>,
    testsSmoothed: seq<Option<real>>,
    positiveRate: seq<Option<real>>,
    daysSinceT0: seq<Option<int>>)

  /** Every column has one entry per date. */
  predicate WellFormed(c: Columns) {
    var n := |c.dates|;
    |c.confirmed| == n && |c.casesSmoothed| == n && |c.deathsSmoothed| == n &&
    |c.newTests| == n && |c.testsSmoothed| == n && |c.positiveRate| == n && |c.daysSinceT0| == n
  }

  /** One country's block: its code and its rows. */
  datatype CountryBlock = CountryBlock(code: string, rows: Columns)

  const NoRows := Columns([], [], [], [], [], [], [], [])

  /** `np.concatenate((column, block))` for every column. */
  function Concat(a: Columns, b: Columns): (r: Columns)
    requires WellFormed(a) && WellFormed(b)
    ensures WellFormed(r) && |r.dates| == |a.dates| + |b.dates|
  {
    Columns(a.dates + b.dates, a.confirmed + b.confirmed, a.casesSmoothed + b.casesSmoothed,
            a.deathsSmoothed + b.deathsSmoothed, a.newTests + b.newTests, a.testsSmoothed + b.testsSmoothed,
            a.positiveRate + b.positiveRate, a.daysSinceT0 + b.daysSinceT0)
  }

  /** The number of rows of one country. */
  function Occurrences(codes: seq<string>, code: string): nat {
    if |codes| == 0 then 0 else (if codes[0] == code then 1 else 0) + Occurrences(codes[1..], code)
  }

  /** `column[codes == code]`: the entries of the rows of one country, in order. */
  function Select<T>(codes: seq<string>, column: seq<T>, code: string): (r: seq<T>)
    requires |codes| == |column|
    ensures |r| == Occurrences(codes, code)
  {
    if |codes| == 0 then []
    else (if codes[0] == code then [column[0]] else []) + Select(codes[1..], column[1..], code)
  }

  /** Selecting from two tables one after the other selects from each in turn. */
  lemma {:induction false} SelectAppend<T>(codes: seq<string>, column: seq<T>, codes2: seq<string>, column2: seq<T>, code: string)
    requires |codes| == |column| && |codes2| == |column2|
    ensures Select(codes + codes2, column + column2, code) == Select(codes, column, code) + Select(codes2, column2, code)
  {
    if |codes| == 0 {
      assert codes + codes2 == codes2;
      assert column + column2 == column2;
    } else {
      var c, v := codes + codes2, column + column2;
      SelectAppend(codes[1..], column[1..], codes2, column2, code);
      assert c[0] == codes[0] && v[0] == column[0];
      assert c[1..] == codes[1..] + codes2;
      assert v[1..] == column[1..] + column2;
      assert Select(c, v, code) == (if codes[0] == code then [column[0]] else []) + Select(c[1..], v[1..], code);
    }
  }

  /** A block selects to all of itself under its own code and to nothing under another. */
  lemma {:induction false} SelectBlock<T>(code: string, column: seq<T>, other: string)
    ensures Select(Repeat(code, |column|), column, other) == if other == code then column else []
  {
    if |column| > 0 {
      SelectBlock(code, column[1..], other);
      assert Repeat(code, |column|)[1..] == Repeat(code, |column| - 1);
    }
  }

  /** A code absent from the table selects nothing. */
  lemma {:induction false} SelectAbsent<T>(codes: seq<string>, column: seq<T>, code: string)
    requires |codes| == |column| && code !in codes
    ensures Select(codes, column, code) == []
  {
    if |codes| > 0 {
      SelectAbsent(codes[1..], column[1..], code);
    }
  }

  /** After a block is appended, selecting a code gives what it gave before, followed by the block if it is that code's. */
  lemma SelectAfterAppend<T>(codes: seq<string>, column: seq<T>, code: string, block: seq<T>, other: string)
    requires |codes| == |column|
    ensures Select(codes + Repeat(code, |block|), column + block, other) ==
      Select(codes, column, other) + (if other == code then block else [])
  {
    SelectAppend(codes, column, Repeat(code, |block|), block, other);
    SelectBlock(code, block, other);
  }

  /** `table[table['countrycode'] == code]`: one country's rows of every column. */
  function SelectRows(codes: seq<string>, c: Columns, code: string): (r: Columns)
    requires WellFormed(c) && |codes| == |c.dates|
    ensures WellFormed(r)
  {
    Columns(Select(codes, c.dates, code), Select(codes, c.confirmed, code), Select(codes, c.casesSmoothed, code),
            Select(codes, c.deathsSmoothed, code), Select(codes, c.newTests, code), Select(codes, c.testsSmoothed, code),
            Select(codes, c.positiveRate, code), Select(codes, c.daysSinceT0, code))
  }

  /**
   * After a block is appended, a code selects the rows it selected before,
   * followed by the block when it is the block's code.
   */
  lemma SelectRowsAfterAppend(codes: seq<string>, c: Columns, b: CountryBlock, other: string)
    requires WellFormed(c) && |codes| == |c.dates| && WellFormed(b.rows)
    ensures var after := SelectRows(codes + Repeat(b.code, |b.rows.dates|), Concat(c, b.rows), other);
      after == if other == b.code then Concat(SelectRows(codes, c, other), b.rows) else SelectRows(codes, c, other)
  {
    var n := |b.rows.dates|;
    SelectAfterAppend(codes, c.dates, b.code, b.rows.dates, other);
    SelectAfterAppend(codes, c.confirmed, b.code, b.rows.confirmed, other);
    SelectAfterAppend(codes, c.casesSmoothed, b.code, b.rows.casesSmoothed, other);
    SelectAfterAppend(codes, c.deathsSmoothed, b.code, b.rows.deathsSmoothed, other);
    SelectAfterAppend(codes, c.newTests, b.code, b.rows.newTests, other);
    SelectAfterAppend(codes, c.testsSmoothed, b.code, b.rows.testsSmoothed, other);
    SelectAfterAppend(codes, c.positiveRate, b.code, b.rows.positiveRate, other);
    SelectAfterAppend(codes, c.daysSinceT0, b.code, b.rows.daysSinceT0, other);
  }

  /** A code absent from the table has no rows. */
  lemma SelectRowsAbsent(codes: seq<string>, c: Columns, code: string)
    requires WellFormed(c) && |codes| == |c.dates| && code !in codes
    ensures SelectRows(codes, c, code) == NoRows
  {
    SelectAbsent(codes, c.dates, code);
    SelectAbsent(codes, c.confirmed, code);
    SelectAbsent(codes, c.casesSmoothed, code);
    SelectAbsent(codes, c.deathsSmoothed, code);
    SelectAbsent(codes, c.newTests, code);
    SelectAbsent(codes, c.testsSmoothed, code);
    SelectAbsent(codes, c.positiveRate, code);
    SelectAbsent(codes, c.daysSinceT0, code);
  }

  /** The growing epidemiology time series: a country-code column beside the data columns. */
  class EpidemiologySeries {
    var codes: seq<string>
    var columns: Columns

    /** Every column has one entry per row. */
    predicate Valid()
      reads this
    {
      WellFormed(columns) && |codes| == |columns.dates|
    }

    /** The empty table. */
    constructor()
      ensures Valid() && codes == [] && columns == NoRows
    {
      codes, columns := [], NoRows;
    }

    /** One country's rows, read back by selecting on its code. */
    function Rows(code: string): Columns
      requires Valid()
      reads this
    {
      SelectRows(codes, columns, code)
    }

    /** The per-country `np.concatenate` of the block onto every column. */
    method Append(b: CountryBlock)
      requires Valid() && WellFormed(b.rows)
      modifies this
      ensures Valid()
      ensures codes == old(codes) + Repeat(b.code, |b.rows.dates|)
      ensures columns == Concat(old(columns), b.rows)
    {
      codes := codes + Repeat(b.code, |b.rows.dates|);
      columns := Concat(columns, b.rows);
    }
  }

  /**
   * The per-country loop: the blocks of distinct countries are appended in
   * turn, and every country's rows read back from the finished table are
   * exactly its block.
   */
  method BuildSeries(blocks: seq<CountryBlock>) returns (t: EpidemiologySeries)
    requires forall k :: 0 <= k < |blocks| ==> WellFormed(blocks[k].rows)
    requires forall i, j :: 0 <= i < j < |blocks| ==> blocks[i].code != blocks[j].code
    ensures t.Valid()
    ensures forall k :: 0 <= k < |blocks| ==> t.Rows(blocks[k].code) == blocks[k].rows
  {
    t := new EpidemiologySeries();
    for k := 0 to |blocks|
      invariant t.Valid()
      invariant forall i :: 0 <= i < k ==> t.Rows(blocks[i].code) == blocks[i].rows
      invariant forall i :: k <= i < |blocks| ==> blocks[i].code !in t.codes
    {
      AppendStep(t.codes, t.columns, blocks, k);
      t.Append(blocks[k]);
    }
  }

  /** One turn of the loop: appending the next block keeps every earlier country's rows and adds its own. */
  lemma AppendStep(codes: seq<string>, c: Columns, blocks: seq<CountryBlock>, k: nat)
    requires WellFormed(c) && |codes| == |c.dates| && k < |blocks|
    requires forall i :: 0 <= i < |blocks| ==> WellFormed(blocks[i].rows)
    requires forall i, j :: 0 <= i < j < |blocks| ==> blocks[i].code != blocks[j].code
    requires forall i :: 0 <= i < k ==> SelectRows(codes, c, blocks[i].code) == blocks[i].rows
    requires forall i :: k <= i < |blocks| ==> blocks[i].code !in codes
    ensures var b := blocks[k];
      var codes', c' := codes + Repeat(b.code, |b.rows.dates|), Concat(c, b.rows);
      (forall i :: 0 <= i <= k ==> SelectRows(codes', c', blocks[i].code) == blocks[i].rows) &&
      (forall i :: k < i < |blocks| ==> blocks[i].code !in codes')
  {
    var b := blocks[k];
    var codes', c' := codes + Repeat(b.code, |b.rows.dates|), Concat(c, b.rows);
    SelectRowsAbsent(codes, c, b.code);
    forall i | 0 <= i <= k
      ensures SelectRows(codes', c', blocks[i].code) == blocks[i].rows
    {
      SelectRowsAfterAppend(codes, c, b, blocks[i].code);
    }
    forall i | k < i < |blocks|
      ensures blocks[i].code !in codes'
    {
      assert blocks[i].code != b.code;
    }
  }
}
