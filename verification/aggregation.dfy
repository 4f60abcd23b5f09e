/** Evaluation of an aggregate call over one column: `avg`, `min` or `max` of
    the column's numbers.  Unlike filtering, aggregation is strict: a cell that
    is not a number aborts it. */
module Aggregation {
  import opened Wrappers
  import opened Tables
  import Numbers

  function Sum(vs: seq<real>): real {
    if |vs| == 0 then 0.0 else vs[0] + Sum(vs[1..])
  }

  function Mean(vs: seq<real>): real
    requires |vs| > 0
  {
    Sum(vs) / |vs| as real
  }

  /** The least value; the first of them when it repeats. */
  function Min(vs: seq<real>): (m: real)
    requires |vs| > 0
    ensures m in vs
    ensures forall i :: 0 <= i < |vs| ==> m <= vs[i]
  {
    if |vs| == 1 then vs[0]
    else
      var rest := Min(vs[1..]);
      if vs[0] <= rest then vs[0] else rest
  }

  /** The greatest value; the first of them when it repeats. */
  function Max(vs: seq<real>): (m: real)
    requires |vs| > 0
    ensures m in vs
    ensures forall i :: 0 <= i < |vs| ==> vs[i] <= m
  {
    if |vs| == 1 then vs[0]
    else
      var rest := Max(vs[1..]);
      if vs[0] >= rest then vs[0] else rest
  }

  lemma {:induction false} SumBounds(vs: seq<real>, lo: real, hi: real)
    requires forall i :: 0 <= i < |vs| ==> lo <= vs[i] <= hi
    ensures |vs| as real * lo <= Sum(vs) <= |vs| as real * hi
    decreases |vs|
  {
    if |vs| > 0 {
      SumBounds(vs[1..], lo, hi);
    }
  }

  /** The mean lies between the least and the greatest value. */
  lemma MeanBetweenMinMax(vs: seq<real>)
    requires |vs| > 0
    ensures Min(vs) <= Mean(vs) <= Max(vs)
  {
    MeanWithinBounds(vs, Min(vs), Max(vs));
  }

  lemma MeanWithinBounds(vs: seq<real>, lo: real, hi: real)
    requires |vs| > 0
    requires forall i :: 0 <= i < |vs| ==> lo <= vs[i] <= hi
    ensures lo <= Mean(vs) <= hi
  {
    SumBounds(vs, lo, hi);
    QuotientBounds(Sum(vs), |vs| as real, lo, hi);
  }

  lemma QuotientBounds(a: real, n: real, lo: real, hi: real)
    requires n > 0.0 && n * lo <= a <= n * hi
    ensures lo <= a / n <= hi
  {
  }

  /** Every row has the column and its cell reads as a number. */
  ghost predicate AllNumeric(data: Table, column: string) {
    forall i :: 0 <= i < |data| ==> column in data[i] && Numbers.ParseNum(data[i][column]).Some?
  }

  /** Row `i` holds the first cell of the column that is not a number. */
  ghost predicate FirstNonNumeric(data: Table, column: string, i: int)
    requires forall j :: 0 <= j < |data| ==> column in data[j]
  {
    && 0 <= i < |data|
    && Numbers.ParseNum(data[i][column]).None?
    && forall j :: 0 <= j < i ==> Numbers.ParseNum(data[j][column]).Some?
  }

  /** A first non-numeric cell after a numeric first row is the first of the whole table. */
  lemma FirstNonNumericShift(data: Table, column: string, e: Error)
    requires |data| > 0 && forall j :: 0 <= j < |data| ==> column in data[j]
    requires Numbers.ParseNum(data[0][column]).Some?
    requires exists i :: FirstNonNumeric(data[1..], column, i) && e == NonNumericValue(column, data[1..][i][column])
    ensures exists i :: FirstNonNumeric(data, column, i) && e == NonNumericValue(column, data[i][column])
  {
    var i :| FirstNonNumeric(data[1..], column, i) && e == NonNumericValue(column, data[1..][i][column]);
    assert FirstNonNumeric(data, column, i + 1);
  }

  /** The numbers of the column, row by row. */
  ghost function ColumnValues(data: Table, column: string): (vs: seq<real>)
    requires AllNumeric(data, column)
  {
    seq(|data|, i requires 0 <= i < |data| && AllNumeric(data, column) => Numbers.ParseNum(data[i][column]).value)
  }

  /** The column of a non-empty table is its first cell followed by the column of the rest. */
  lemma ColumnStep(data: Table, column: string)
    requires |data| > 0 && forall i :: 0 <= i < |data| ==> column in data[i]
    ensures AllNumeric(data, column) <==> Numbers.ParseNum(data[0][column]).Some? && AllNumeric(data[1..], column)
    ensures AllNumeric(data, column) ==>
              ColumnValues(data, column) == [Numbers.ParseNum(data[0][column]).value] + ColumnValues(data[1..], column)
  {
    if Numbers.ParseNum(data[0][column]).Some? && AllNumeric(data[1..], column) {
      forall i | 1 <= i < |data| ensures Numbers.ParseNum(data[i][column]).Some? {
        assert data[i] == data[1..][i - 1];
      }
    }
  }

  /** Reads every cell of the column as a number, in row order, stopping at the
      first that is not one. */
  function CollectNumbers(data: Table, column: string): (r: Result<seq<real>, Error>)
    requires forall i :: 0 <= i < |data| ==> column in data[i]
    ensures r.Success? <==> AllNumeric(data, column)
    ensures r.Success? ==> r.value == ColumnValues(data, column)
    ensures r.Failure? ==>
              exists i :: FirstNonNumeric(data, column, i) && r.error == NonNumericValue(column, data[i][column])
    decreases |data|
  {
    if |data| == 0 then Success([])
    else
      ColumnStep(data, column);
      match Numbers.ParseNum(data[0][column])
      case None =>
        assert FirstNonNumeric(data, column, 0);
        Failure(NonNumericValue(column, data[0][column]))
      case Some(v) =>
        match CollectNumbers(data[1..], column)
        case Success(vs) => Success([v] + vs)
        case Failure(e) =>
          FirstNonNumericShift(data, column, e);
          Failure(e)
  }

  predicate IsKnownFunction(name: string) {
    name == "avg" || name == "min" || name == "max"
  }

  /** `None` for an empty table; otherwise the column must exist, every one of its
      cells must be a number, and only then is the function name looked at.
      `avg` is rounded to two decimals, `min` and `max` are not rounded. */
  function ApplyAgg(data: Table, column: string, name: string): (r: Result<Option<real>, Error>)
    requires Uniform(data)
    ensures |data| == 0 ==> r == Success(None)
    ensures |data| > 0 && column !in data[0] ==> r == Failure(ColumnNotFound(column))
    ensures |data| > 0 && column in data[0] && !AllNumeric(data, column) ==>
              exists i :: FirstNonNumeric(data, column, i) && r == Failure(NonNumericValue(column, data[i][column]))
    ensures |data| > 0 && column in data[0] && AllNumeric(data, column) ==>
              (r.Success? <==> IsKnownFunction(name))
    ensures |data| > 0 && column in data[0] && AllNumeric(data, column) && !IsKnownFunction(name) ==>
              r == Failure(UnknownFunction(name))
    ensures r.Success? && |data| > 0 ==> r.value.Some?
  {
    if |data| == 0 then Success(None)
    else if column !in data[0] then Failure(ColumnNotFound(column))
    else
      var values :- CollectNumbers(data, column);
      if name == "avg" then Success(Some(Numbers.Round2(Mean(values))))
      else if name == "min" then Success(Some(Min(values)))
      else if name == "max" then Success(Some(Max(values)))
      else Failure(UnknownFunction(name))
  }

  /** A non-numeric cell is reported whatever the function name, unknown or not. */
  lemma NonNumericBeforeFunction(data: Table, column: string, name: string, other: string)
    requires Uniform(data) && |data| > 0 && column in data[0]
    requires !AllNumeric(data, column)
    ensures ApplyAgg(data, column, name) == ApplyAgg(data, column, other)
    ensures ApplyAgg(data, column, name).Failure? && ApplyAgg(data, column, name).error.NonNumericValue?
  {
  }

  /** `min` is one of the column's numbers and no greater than any of them. */
  lemma AggMinIsLeast(data: Table, column: string)
    requires Uniform(data) && |data| > 0 && column in data[0]
    requires AllNumeric(data, column)
    ensures ApplyAgg(data, column, "min").Success? && ApplyAgg(data, column, "min").value.Some?
    ensures var m := ApplyAgg(data, column, "min").value.value;
            && (exists i :: 0 <= i < |data| && Numbers.ParseNum(data[i][column]) == Some(m))
            && (forall i :: 0 <= i < |data| ==> m <= Numbers.ParseNum(data[i][column]).value)
  {
    var vs := ColumnValues(data, column);
    var m := Min(vs);
    assert CollectNumbers(data, column) == Success(vs);
    assert ApplyAgg(data, column, "min") == Success(Some(m));
    forall i | 0 <= i < |data| ensures m <= Numbers.ParseNum(data[i][column]).value {
      assert vs[i] == Numbers.ParseNum(data[i][column]).value;
    }
    var i :| 0 <= i < |vs| && vs[i] == m;
    assert Numbers.ParseNum(data[i][column]) == Some(m);
  }

  /** `max` is one of the column's numbers and no less than any of them. */
  lemma AggMaxIsGreatest(data: Table, column: string)
    requires Uniform(data) && |data| > 0 && column in data[0]
    requires AllNumeric(data, column)
    ensures ApplyAgg(data, column, "max").Success? && ApplyAgg(data, column, "max").value.Some?
    ensures var m := ApplyAgg(data, column, "max").value.value;
            && (exists i :: 0 <= i < |data| && Numbers.ParseNum(data[i][column]) == Some(m))
            && (forall i :: 0 <= i < |data| ==> Numbers.ParseNum(data[i][column]).value <= m)
  {
    var vs := ColumnValues(data, column);
    var m := Max(vs);
    assert CollectNumbers(data, column) == Success(vs);
    assert ApplyAgg(data, column, "max") == Success(Some(m));
    forall i | 0 <= i < |data| ensures Numbers.ParseNum(data[i][column]).value <= m {
      assert vs[i] == Numbers.ParseNum(data[i][column]).value;
    }
    var i :| 0 <= i < |vs| && vs[i] == m;
    assert Numbers.ParseNum(data[i][column]) == Some(m);
  }

  /** `avg` is the column's sum over its row count, rounded to a hundredth: within
      half a hundredth of the exact mean, which lies between `min` and `max`. */
  lemma AggAvgIsRoundedMean(data: Table, column: string)
    requires Uniform(data) && |data| > 0 && column in data[0]
    requires AllNumeric(data, column)
    ensures var vs := ColumnValues(data, column);
            && ApplyAgg(data, column, "avg") == Success(Some(Numbers.Round2(Sum(vs) / |data| as real)))
            && Min(vs) <= Sum(vs) / |data| as real <= Max(vs)
            && Sum(vs) / |data| as real - 0.005 <= ApplyAgg(data, column, "avg").value.value
            && ApplyAgg(data, column, "avg").value.value <= Sum(vs) / |data| as real + 0.005
  {
    MeanBetweenMinMax(ColumnValues(data, column));
  }
}
