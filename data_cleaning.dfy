/**
 * The column-profiling reports of scripts/data_cleaning_transformation.py:
 * `summary` (one record per column with null, non-null and distinct counts
 * and the most frequent values) and `missing_values_table` (the columns that
 * have missing values, most missing first).
 *
 * A DataFrame is a row count and an ordered sequence of named columns; a cell
 * is `None` where pandas sees a null (`None` or NaN). Counts are integers;
 * the float percentages and dtypes are not modelled.
 */
module DataCleaning {
  import opened Wrappers
  import opened Tallies

  /** How many value counts `summary` keeps for a column with many distinct values. */
  const TOP_VALUES: nat := 10

  datatype Column<V> = Column(name: string, values: seq<Option<V>>)

  datatype Frame<V> = Frame(rowCount: nat, columns: seq<Column<V>>)

  /** Every column of a DataFrame has one cell per row. */
  predicate Rectangular<V>(df: Frame<V>) {
    forall i :: 0 <= i < |df.columns| ==> |df.columns[i].values| == df.rowCount
  }

  /** `df[col_name]` selects one column only when no two columns share the name. */
  predicate DistinctNames<V>(columns: seq<Column<V>>) {
    forall i, j :: 0 <= i < j < |columns| ==> columns[i].name != columns[j].name
  }

  /** `isnull().sum()`. */
  function NullCount<V>(s: seq<Option<V>>): (n: nat)
    ensures n <= |s|
    ensures n == 0 <==> None !in s
  {
    if s == [] then 0
    else
      assert s == s[..|s| - 1] + [s[|s| - 1]];
      NullCount(s[..|s| - 1]) + (if s[|s| - 1].None? then 1 else 0)
  }

  /** The null count is the number of times `None` occurs in the column. */
  lemma {:induction false} NullCountIsMultiplicity<V>(s: seq<Option<V>>)
    ensures NullCount(s) == multiset(s)[None]
  {
    if s != [] {
      NullCountIsMultiplicity(s[..|s| - 1]);
      assert s == s[..|s| - 1] + [s[|s| - 1]];
    }
  }

  /** `notnull().sum()`. */
  function NonNullCount<V>(s: seq<Option<V>>): (n: nat)
    ensures n + NullCount(s) == |s|
  {
    if s == [] then 0 else NonNullCount(s[..|s| - 1]) + (if s[|s| - 1].Some? then 1 else 0)
  }

  /** How often the non-null value `v` occurs. */
  function Occurrences<V(==,!new)>(s: seq<Option<V>>, v: V): (n: nat)
    ensures n > 0 <==> Some(v) in s
  {
    if s == [] then 0
    else
      assert s == s[..|s| - 1] + [s[|s| - 1]];
      Occurrences(s[..|s| - 1], v) + (if s[|s| - 1] == Some(v) then 1 else 0)
  }

  /** A value's count is the number of times it occurs in the column. */
  lemma {:induction false} OccurrencesIsMultiplicity<V(!new)>(s: seq<Option<V>>, v: V)
    ensures Occurrences(s, v) == multiset(s)[Some(v)]
  {
    if s != [] {
      OccurrencesIsMultiplicity(s[..|s| - 1], v);
      assert s == s[..|s| - 1] + [s[|s| - 1]];
    }
  }

  /** The distinct non-null values, in order of first appearance. */
  function DistinctValues<V(==,!new)>(s: seq<Option<V>>): (d: seq<V>)
    ensures forall i, j :: 0 <= i < j < |d| ==> d[i] != d[j]
    ensures forall v :: v in d <==> Some(v) in s
  {
    if s == [] then []
    else
      var d := DistinctValues(s[..|s| - 1]);
      var x := s[|s| - 1];
      assert s == s[..|s| - 1] + [x];
      if x.None? || x.value in d then d else d + [x.value]
  }

  /** Each key paired with its number of occurrences. */
  function CountPairs<V(==,!new)>(keys: seq<V>, s: seq<Option<V>>): (t: seq<(V, nat)>)
    ensures |t| == |keys|
    ensures forall i :: 0 <= i < |keys| ==> t[i] == (keys[i], Occurrences(s, keys[i]))
  {
    if keys == [] then [] else [(keys[0], Occurrences(s, keys[0]))] + CountPairs(keys[1..], s)
  }

  /** `value_counts()`: every distinct non-null value with its count, largest count first. */
  function ValueCounts<V(==,!new)>(s: seq<Option<V>>): (r: seq<(V, nat)>)
    ensures SortedDesc(r) && DistinctKeys(r)
    ensures |r| == |DistinctValues(s)|
  {
    var pairs := CountPairs(DistinctValues(s), s);
    SortDescDistinctKeys(pairs);
    SortDesc(pairs)
  }

  /** The keys of a tally, in order. */
  function Keys<K>(t: seq<(K, nat)>): (ks: seq<K>)
    ensures |ks| == |t| && forall k :: 0 <= k < |t| ==> ks[k] == t[k].0
  {
    seq(|t|, k requires 0 <= k < |t| => t[k].0)
  }

  /** Every entry of `value_counts()` is a value of the column with its true count. */
  lemma ValueCountsEntries<V(!new)>(s: seq<Option<V>>)
    ensures forall e :: e in ValueCounts(s) ==> e.1 == Occurrences(s, e.0) && Some(e.0) in s
  {
    var pairs := CountPairs(DistinctValues(s), s);
    forall e | e in ValueCounts(s)
      ensures e.1 == Occurrences(s, e.0) && Some(e.0) in s
    {
      assert e in multiset(ValueCounts(s));
      assert e in pairs;
    }
  }

  /** Every distinct non-null value appears in `value_counts()` with its count. */
  lemma ValueCountsComplete<V(!new)>(s: seq<Option<V>>, v: V)
    requires Some(v) in s
    ensures (v, Occurrences(s, v)) in ValueCounts(s)
  {
    var d := DistinctValues(s);
    var pairs := CountPairs(d, s);
    var i :| 0 <= i < |d| && d[i] == v;
    assert pairs[i] == (v, Occurrences(s, v));
    assert (v, Occurrences(s, v)) in multiset(pairs);
  }

  /** One more cell adds one to the total exactly when it is one of the keys. */
  lemma {:induction false} TotalCountPairsSnoc<V(!new)>(keys: seq<V>, s: seq<Option<V>>, x: Option<V>)
    requires forall i, j :: 0 <= i < j < |keys| ==> keys[i] != keys[j]
    ensures Total(CountPairs(keys, s + [x]))
         == Total(CountPairs(keys, s)) + (if x.Some? && x.value in keys then 1 else 0)
  {
    var s' := s + [x];
    assert s'[..|s'| - 1] == s;
    if keys != [] {
      TotalCountPairsSnoc(keys[1..], s, x);
      assert keys == [keys[0]] + keys[1..];
      assert x.Some? && x.value == keys[0] ==> x.value !in keys[1..];
    }
  }

  /** Adding a key at the end adds its count to the total. */
  lemma {:induction false} TotalCountPairsAppend<V(!new)>(keys: seq<V>, v: V, s: seq<Option<V>>)
    ensures Total(CountPairs(keys + [v], s)) == Total(CountPairs(keys, s)) + Occurrences(s, v)
  {
    if keys != [] {
      TotalCountPairsAppend(keys[1..], v, s);
      assert (keys + [v])[1..] == keys[1..] + [v];
    }
  }

  /** The counts of all distinct values add up to the number of non-null cells. */
  lemma {:induction false} TotalOfDistinctCounts<V(!new)>(s: seq<Option<V>>)
    ensures Total(CountPairs(DistinctValues(s), s)) == NonNullCount(s)
  {
    if s != [] {
      var s', x := s[..|s| - 1], s[|s| - 1];
      assert s == s' + [x];
      var d' := DistinctValues(s');
      TotalOfDistinctCounts(s');
      TotalCountPairsSnoc(d', s', x);
      if x.Some? && x.value !in d' {
        TotalCountPairsAppend(d', x.value, s);
        assert Occurrences(s', x.value) == 0;
      }
    }
  }

  /** One record of `summary`; the `col_dtype` field is not modelled. */
  datatype ColumnSummary<V> = ColumnSummary(
    name: string,
    nulls: nat,
    nonNulls: nat,
    distinct: nat,
    valueCounts: seq<(V, nat)>)

  /** The record `summary` builds for one column. */
  function Summarize<V(==,!new)>(c: Column<V>): (r: ColumnSummary<V>)
    ensures r.name == c.name
    ensures r.nulls == NullCount(c.values) && r.nonNulls == NonNullCount(c.values)
    ensures r.nulls + r.nonNulls == |c.values|
    ensures r.distinct == |DistinctValues(c.values)|
    ensures SortedDesc(r.valueCounts) && DistinctKeys(r.valueCounts)
    ensures |r.valueCounts| == if r.distinct <= TOP_VALUES then r.distinct else TOP_VALUES
    ensures forall e :: e in r.valueCounts ==> e.1 == Occurrences(c.values, e.0) > 0
  {
    var counts := ValueCounts(c.values);
    var distinct := |DistinctValues(c.values)|;
    ValueCountsEntries(c.values);
    TopDistinctKeys(counts, TOP_VALUES);
    var kept := if distinct <= TOP_VALUES then counts else SortDesc(counts[..TOP_VALUES]);
    assert forall e :: e in kept ==> e in counts by {
      forall e | e in kept ensures e in counts {
        if distinct > TOP_VALUES {
          assert e in multiset(counts[..TOP_VALUES]);
        }
      }
    }
    ColumnSummary(c.name, NullCount(c.values), NonNullCount(c.values), distinct, kept)
  }

  /** Sorting the first `n` entries of a tally without repeated keys repeats none. */
  lemma TopDistinctKeys<V(!new)>(counts: seq<(V, nat)>, n: nat)
    requires DistinctKeys(counts)
    ensures n <= |counts| ==> DistinctKeys(SortDesc(counts[..n]))
  {
    if n <= |counts| {
      SortDescDistinctKeys(counts[..n]);
    }
  }

  /**
   * A column with at most 10 distinct values gets a count for every one of
   * them, and these counts add up to its non-null cells.
   */
  lemma SummaryListsEveryValue<V(!new)>(c: Column<V>)
    requires Summarize(c).distinct <= TOP_VALUES
    ensures forall v :: Some(v) in c.values ==> v in Keys(Summarize(c).valueCounts)
    ensures Total(Summarize(c).valueCounts) == Summarize(c).nonNulls
  {
    var counts := Summarize(c).valueCounts;
    assert counts == ValueCounts(c.values);
    forall v | Some(v) in c.values ensures v in Keys(counts) {
      ValueCountsComplete(c.values, v);
      var k :| 0 <= k < |counts| && counts[k] == (v, Occurrences(c.values, v));
      assert Keys(counts)[k] == v;
    }
    TotalOfDistinctCounts(c.values);
  }

  /**
   * A column with more than 10 distinct values keeps the 10 most frequent:
   * no value left out occurs more often than any value kept.
   */
  lemma SummaryKeepsMostFrequent<V(!new)>(c: Column<V>)
    requires Summarize(c).distinct > TOP_VALUES
    ensures |Summarize(c).valueCounts| == TOP_VALUES && DistinctKeys(Summarize(c).valueCounts)
    ensures forall v, k :: Some(v) in c.values && v !in Keys(Summarize(c).valueCounts) && 0 <= k < TOP_VALUES
              ==> Occurrences(c.values, v) <= Summarize(c).valueCounts[k].1
  {
    var all := ValueCounts(c.values);
    var top := Summarize(c).valueCounts;
    assert top == SortDesc(all[..TOP_VALUES]);
    forall v, k | Some(v) in c.values && v !in Keys(top) && 0 <= k < TOP_VALUES
      ensures Occurrences(c.values, v) <= top[k].1
    {
      var e := (v, Occurrences(c.values, v));
      ValueCountsComplete(c.values, v);
      assert top[k] in top;
      LeftOutCountsNoMore(all, TOP_VALUES, top, e, top[k]);
    }
  }

  /** `summary(df)`: one record per column, in column order. */
  method Summary<V(==,!new)>(df: Frame<V>) returns (records: seq<ColumnSummary<V>>)
    requires Rectangular(df) && DistinctNames(df.columns)
    ensures |records| == |df.columns|
    ensures forall i :: 0 <= i < |records| ==> records[i] == Summarize(df.columns[i])
    ensures forall i :: 0 <= i < |records| ==>
              records[i].name == df.columns[i].name && records[i].nulls + records[i].nonNulls == df.rowCount
  {
    records := [];
    for i := 0 to |df.columns|
      invariant |records| == i
      invariant forall k :: 0 <= k < i ==> records[k] == Summarize(df.columns[k])
    {
      var record := Summarize(df.columns[i]);
      SummariesSnoc(df.columns, records, record);
      records := records + [record];
    }
    SummarizedColumns(df, records);
  }

  lemma SummariesSnoc<V(!new)>(columns: seq<Column<V>>, records: seq<ColumnSummary<V>>, record: ColumnSummary<V>)
    requires |records| < |columns|
    requires forall k :: 0 <= k < |records| ==> records[k] == Summarize(columns[k])
    requires record == Summarize(columns[|records|])
    ensures forall k :: 0 <= k <= |records| ==> (records + [record])[k] == Summarize(columns[k])
  {
  }

  lemma SummarizedColumns<V(!new)>(df: Frame<V>, records: seq<ColumnSummary<V>>)
    requires Rectangular(df) && |records| == |df.columns|
    requires forall i :: 0 <= i < |records| ==> records[i] == Summarize(df.columns[i])
    ensures forall i :: 0 <= i < |records| ==>
              records[i].name == df.columns[i].name && records[i].nulls + records[i].nonNulls == df.rowCount
  {
    forall i | 0 <= i < |records|
      ensures records[i].name == df.columns[i].name && records[i].nulls + records[i].nonNulls == df.rowCount
    {
      assert records[i] == Summarize(df.columns[i]);
    }
  }

  /** `df.isnull().sum()`: each column's name with its null count, in column order. */
  function NullCounts<V>(columns: seq<Column<V>>): (t: seq<(string, nat)>)
    ensures |t| == |columns|
    ensures forall i :: 0 <= i < |columns| ==> t[i] == (columns[i].name, NullCount(columns[i].values))
  {
    if columns == [] then [] else [(columns[0].name, NullCount(columns[0].values))] + NullCounts(columns[1..])
  }

  /** The entries with a nonzero count, in order. */
  function WithMissing(t: seq<(string, nat)>): (r: seq<(string, nat)>)
    ensures forall e :: e in r <==> e in t && e.1 != 0
    ensures forall e :: multiset(r)[e] == if e.1 != 0 then multiset(t)[e] else 0
  {
    if t == [] then []
    else
      assert t == [t[0]] + t[1..];
      (if t[0].1 != 0 then [t[0]] else []) + WithMissing(t[1..])
  }

  /** The number of columns that have at least one null. */
  function ColumnsWithMissing<V>(columns: seq<Column<V>>): (n: nat)
    ensures n <= |columns|
  {
    if columns == [] then 0
    else (if NullCount(columns[0].values) != 0 then 1 else 0) + ColumnsWithMissing(columns[1..])
  }

  lemma {:induction false} WithMissingCountsColumns<V>(columns: seq<Column<V>>)
    ensures |WithMissing(NullCounts(columns))| == ColumnsWithMissing(columns)
  {
    if columns != [] {
      WithMissingCountsColumns(columns[1..]);
      assert NullCounts(columns)[1..] == NullCounts(columns[1..]);
    }
  }

  /**
   * `missing_values_table(df)`, keeping the column name and the
   * `Missing Values` count: the columns with a nonzero null count, largest
   * count first.
   */
  function MissingValuesTable<V>(df: Frame<V>): (t: seq<(string, nat)>)
    ensures SortedDesc(t)
    ensures |t| == ColumnsWithMissing(df.columns)
    ensures forall e :: e in t <==> e in NullCounts(df.columns) && e.1 != 0
    ensures forall e :: multiset(t)[e] == if e.1 != 0 then multiset(NullCounts(df.columns))[e] else 0
  {
    WithMissingCountsColumns(df.columns);
    SortedMissingMembers(NullCounts(df.columns));
    SortDesc(WithMissing(NullCounts(df.columns)))
  }

  lemma SortedMissingMembers(t: seq<(string, nat)>)
    ensures forall e :: e in SortDesc(WithMissing(t)) <==> e in t && e.1 != 0
  {
    SortDescMembers(WithMissing(t));
  }

  /** The `% of Total Values` of a column, as an exact ratio; only defined for a frame with rows. */
  ghost function Share(missing: nat, rowCount: nat): real
    requires rowCount > 0
  {
    100.0 * missing as real / rowCount as real
  }

  /** For a frame with rows, largest count first is largest share first. */
  lemma MissingValuesTableByShare<V>(df: Frame<V>)
    requires df.rowCount > 0
    ensures forall i, j :: 0 <= i < j < |MissingValuesTable(df)| ==>
              Share(MissingValuesTable(df)[i].1, df.rowCount) >= Share(MissingValuesTable(df)[j].1, df.rowCount)
  {
    SharesDescending(MissingValuesTable(df), df.rowCount);
  }

  /** Counts sorted largest first are shares sorted largest first. */
  lemma SharesDescending(t: seq<(string, nat)>, rowCount: nat)
    requires rowCount > 0 && SortedDesc(t)
    ensures forall i, j :: 0 <= i < j < |t| ==> Share(t[i].1, rowCount) >= Share(t[j].1, rowCount)
  {
    forall i, j | 0 <= i < j < |t|
      ensures Share(t[i].1, rowCount) >= Share(t[j].1, rowCount)
    {
      QuotientMonotone(100.0 * t[i].1 as real, 100.0 * t[j].1 as real, rowCount as real);
    }
  }

  lemma QuotientMonotone(a: real, b: real, n: real)
    requires n > 0.0 && a >= b
    ensures a / n >= b / n
  {
    assert a / n - b / n == (a - b) / n;
  }

  /**
   * The two numbers `missing_values_table` prints: the frame's column count
   * and the number of rows of the returned table.
   */
  function MissingValuesReport<V>(df: Frame<V>): (report: (nat, nat))
    ensures report.0 == |df.columns|
    ensures report.1 == ColumnsWithMissing(df.columns) <= report.0
  {
    (|df.columns|, |MissingValuesTable(df)|)
  }

  // The filter as written compares the float share with 0. For a frame with
  // no rows the share is 0 / 0, which pandas evaluates to NaN, and NaN != 0
  // holds, so every column passes the filter.

  /** `mis_val_table['% of Total Values'] != 0` on the share `100 * missing / rowCount`. */
  predicate ShareIsNotZero(missing: nat, rowCount: nat) {
    rowCount == 0 || missing != 0
  }

  function WithNonZeroShare(t: seq<(string, nat)>, rowCount: nat): (r: seq<(string, nat)>)
    ensures |r| <= |t|
    ensures forall e :: e in r ==> e in t
    ensures forall e :: multiset(r)[e] == if ShareIsNotZero(e.1, rowCount) then multiset(t)[e] else 0
  {
    if t == [] then []
    else
      assert t == [t[0]] + t[1..];
      (if ShareIsNotZero(t[0].1, rowCount) then [t[0]] else []) + WithNonZeroShare(t[1..], rowCount)
  }

  /**
   * `missing_values_table` as written. With no rows every share is NaN, and
   * `sort_values` places NaN keys last in their original order.
   */
  function MissingValuesTableAsWritten<V>(df: Frame<V>): (t: seq<(string, nat)>)
    ensures |t| <= |df.columns|
    ensures forall e :: e in t ==> e in NullCounts(df.columns)
    ensures forall e :: multiset(t)[e] ==
              if ShareIsNotZero(e.1, df.rowCount) then multiset(NullCounts(df.columns))[e] else 0
  {
    var kept := WithNonZeroShare(NullCounts(df.columns), df.rowCount);
    KeptInAnyOrder(kept, df.rowCount == 0, NullCounts(df.columns), df.rowCount);
    if df.rowCount == 0 then kept else SortDesc(kept)
  }

  /** Sorting or not, the kept entries are the same, each as often. */
  lemma KeptInAnyOrder(kept: seq<(string, nat)>, unsorted: bool, counts: seq<(string, nat)>, rowCount: nat)
    requires forall e :: e in kept ==> e in counts
    requires forall e :: multiset(kept)[e] == if ShareIsNotZero(e.1, rowCount) then multiset(counts)[e] else 0
    ensures var t := if unsorted then kept else SortDesc(kept);
      (forall e :: e in t ==> e in counts) &&
      (forall e :: multiset(t)[e] == if ShareIsNotZero(e.1, rowCount) then multiset(counts)[e] else 0)
  {
    var t := if unsorted then kept else SortDesc(kept);
    assert multiset(t) == multiset(kept);
    forall e | e in t ensures e in counts {
      assert e in multiset(t);
    }
  }

  /** The two numbers `missing_values_table` prints, as written. */
  function MissingValuesReportAsWritten<V>(df: Frame<V>): (report: (nat, nat))
    ensures report.0 == |df.columns| && report.1 <= report.0
  {
    (|df.columns|, |MissingValuesTableAsWritten(df)|)
  }

  lemma {:induction false} NonZeroShareIsMissing(t: seq<(string, nat)>, rowCount: nat)
    requires rowCount > 0
    ensures WithNonZeroShare(t, rowCount) == WithMissing(t)
  {
    if t != [] {
      NonZeroShareIsMissing(t[1..], rowCount);
    }
  }

  lemma {:induction false} NonZeroShareOfNoRows(t: seq<(string, nat)>)
    ensures WithNonZeroShare(t, 0) == t
  {
    if t != [] {
      NonZeroShareOfNoRows(t[1..]);
      assert t == [t[0]] + t[1..];
    }
  }

  /** On a frame with at least one row, the table as written is the intended one. */
  lemma AsWrittenAgreesWithRows<V>(df: Frame<V>)
    requires df.rowCount > 0
    ensures MissingValuesTableAsWritten(df) == MissingValuesTable(df)
  {
    NonZeroShareIsMissing(NullCounts(df.columns), df.rowCount);
  }

  /**
   * On a frame with columns but no rows, the table as written lists every
   * column with 0 missing values, where no column has any.
   */
  lemma AsWrittenListsColumnsOfEmptyFrame<V>(df: Frame<V>)
    requires Rectangular(df) && df.rowCount == 0
    ensures MissingValuesTableAsWritten(df) == NullCounts(df.columns)
    ensures |MissingValuesTableAsWritten(df)| == |df.columns|
    ensures MissingValuesTable(df) == []
  {
    NonZeroShareOfNoRows(NullCounts(df.columns));
    forall i | 0 <= i < |df.columns| ensures NullCount(df.columns[i].values) == 0 {
      assert df.columns[i].values == [];
    }
    NoColumnsWithMissing(df.columns);
  }

  lemma {:induction false} NoColumnsWithMissing<V>(columns: seq<Column<V>>)
    requires forall i :: 0 <= i < |columns| ==> NullCount(columns[i].values) == 0
    ensures ColumnsWithMissing(columns) == 0
  {
    if columns != [] {
      NoColumnsWithMissing(columns[1..]);
    }
  }

  /** A frame with a `Message` column and no rows, as loaded from an export with only a header. */
  const EMPTY_EXPORT: Frame<int> := Frame(0, [Column("Message", [])])

  /**
   * That frame is reported as having one column with missing values, where
   * it has none.
   */
  lemma EmptyFrameCounterexample()
    ensures MissingValuesTableAsWritten(EMPTY_EXPORT) == [("Message", 0)]
    ensures MissingValuesReportAsWritten(EMPTY_EXPORT) == (1, 1)
    ensures MissingValuesTable(EMPTY_EXPORT) == []
    ensures MissingValuesReport(EMPTY_EXPORT) == (1, 0)
  {
    var df := EMPTY_EXPORT;
    assert NullCounts(df.columns) == [("Message", 0)];
    assert Rectangular(df);
    AsWrittenListsColumnsOfEmptyFrame(df);
  }
}
