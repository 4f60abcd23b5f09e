/** Evaluation of a filter condition over a table.  The comparison mode is chosen
    once per call: numeric when the operand reads as a number, text otherwise.
    In numeric mode a cell that does not read as a number simply fails the
    comparison. */
module Filtering {
  import opened Wrappers
  import opened Tables
  import opened Expressions
  import Numbers
  import Lex
  import Seqs

  /** How cells are compared with the operand. */
  datatype Mode = Numeric(bound: real) | Text(operand: string)

  function ResolveMode(operand: string): (m: Mode)
    ensures m.Numeric? <==> Numbers.ParseNum(operand).Some?
    ensures m.Numeric? ==> Numbers.ParseNum(operand) == Some(m.bound)
    ensures m.Text? ==> m.operand == operand
  {
    match Numbers.ParseNum(operand)
    case Some(x) => Numeric(x)
    case None => Text(operand)
  }

  predicate CompareNumbers(op: Op, cell: real, bound: real) {
    match op
    case Eq => cell == bound
    case Gt => cell > bound
    case Lt => cell < bound
  }

  /** Python string comparison: equality, or code-point lexicographic order. */
  predicate CompareText(op: Op, cell: string, operand: string) {
    match op
    case Eq => cell == operand
    case Gt => Lex.Less(operand, cell)
    case Lt => Lex.Less(cell, operand)
  }

  predicate CellMatches(mode: Mode, op: Op, cell: string) {
    match mode
    case Numeric(bound) =>
      (match Numbers.ParseNum(cell)
       case None => false
       case Some(v) => CompareNumbers(op, v, bound))
    case Text(operand) => CompareText(op, cell, operand)
  }

  /** The per-row test once the mode is fixed. */
  function Matcher(column: string, op: Op, mode: Mode): Row -> bool {
    row => column in row && CellMatches(mode, op, row[column])
  }

  /** Whether a row meets `column op operand`, stated row by row from the operand
      text alone. */
  predicate Satisfies(column: string, op: Op, operand: string, row: Row) {
    && column in row
    && var cell := row[column];
       match Numbers.ParseNum(operand)
       case Some(bound) =>
         Numbers.ParseNum(cell).Some? && CompareNumbers(op, Numbers.ParseNum(cell).value, bound)
       case None => CompareText(op, cell, operand)
  }

  function Criterion(column: string, op: Op, operand: string): Row -> bool {
    row => Satisfies(column, op, operand, row)
  }

  lemma MatcherMeetsCondition(column: string, op: Op, operand: string, row: Row)
    ensures Matcher(column, op, ResolveMode(operand))(row) == Criterion(column, op, operand)(row)
  {
  }

  /** The rows meeting the condition, in their original order.  An empty table is
      returned as it is, without looking for the column; otherwise the column must
      be a key of the first row. */
  function ApplyFilter(data: Table, column: string, op: Op, operand: string): (r: Result<Table, Error>)
    requires Uniform(data)
    ensures |data| == 0 ==> r == Success(data)
    ensures |data| > 0 && column !in data[0] ==> r == Failure(ColumnNotFound(column))
    ensures |data| > 0 && column in data[0] ==>
              r.Success? && Seqs.SelectsExactly(r.value, data, Criterion(column, op, operand))
  {
    if |data| == 0 then Success(data)
    else if column !in data[0] then Failure(ColumnNotFound(column))
    else
      var keep := Matcher(column, op, ResolveMode(operand));
      forall row | row in data ensures keep(row) == Criterion(column, op, operand)(row) {
        MatcherMeetsCondition(column, op, operand, row);
      }
      Seqs.FilterCongruent(data, keep, Criterion(column, op, operand));
      Seqs.FilterSelectsExactly(data, Criterion(column, op, operand));
      Success(Seqs.Filter(data, keep))
  }

  /** A row of the table is kept exactly when it meets the condition. */
  lemma ApplyFilterMembership(data: Table, column: string, op: Op, operand: string, row: Row)
    requires Uniform(data) && |data| > 0 && column in data[0]
    requires row in data
    ensures ApplyFilter(data, column, op, operand).Success?
    ensures row in ApplyFilter(data, column, op, operand).value <==> Satisfies(column, op, operand, row)
  {
    var out := ApplyFilter(data, column, op, operand).value;
    Seqs.SelectionIsFilter(out, data, Criterion(column, op, operand));
    Seqs.FilterMembership(data, Criterion(column, op, operand), row);
  }

  /** With a numeric operand, a row whose cell is not a number is dropped, not
      reported as an error. */
  lemma NumericModeDropsNonNumbers(data: Table, column: string, op: Op, operand: string, row: Row)
    requires Uniform(data) && |data| > 0 && column in data[0]
    requires Numbers.ParseNum(operand).Some?
    requires row in data && Numbers.ParseNum(row[column]).None?
    ensures ApplyFilter(data, column, op, operand).Success?
    ensures row !in ApplyFilter(data, column, op, operand).value
  {
    ApplyFilterMembership(data, column, op, operand, row);
  }

  /** With an operand that reads as the number `bound`, a row is kept exactly when
      its cell reads as a number that compares with `bound` under the operator. */
  lemma NumericModeComparesNumbers(data: Table, column: string, op: Op, operand: string, bound: real, row: Row)
    requires Uniform(data) && |data| > 0 && column in data[0]
    requires Numbers.ParseNum(operand) == Some(bound)
    requires row in data
    ensures ApplyFilter(data, column, op, operand).Success?
    ensures row in ApplyFilter(data, column, op, operand).value
            <==> Numbers.ParseNum(row[column]).Some? && CompareNumbers(op, Numbers.ParseNum(row[column]).value, bound)
  {
    ApplyFilterMembership(data, column, op, operand, row);
  }

  /** With an operand that is not a number, a row is kept exactly when its cell
      text compares with the operand text, even when the cell holds a number. */
  lemma TextModeComparesText(data: Table, column: string, op: Op, operand: string, row: Row)
    requires Uniform(data) && |data| > 0 && column in data[0]
    requires Numbers.ParseNum(operand).None?
    requires row in data
    ensures ApplyFilter(data, column, op, operand).Success?
    ensures row in ApplyFilter(data, column, op, operand).value <==> CompareText(op, row[column], operand)
  {
    ApplyFilterMembership(data, column, op, operand, row);
  }

  /** The filtered table keeps the column set of its rows. */
  lemma ApplyFilterUniform(data: Table, column: string, op: Op, operand: string)
    requires Uniform(data)
    ensures ApplyFilter(data, column, op, operand).Success? ==> Uniform(ApplyFilter(data, column, op, operand).value)
    ensures ApplyFilter(data, column, op, operand).Success? && |ApplyFilter(data, column, op, operand).value| > 0 ==>
              ApplyFilter(data, column, op, operand).value[0].Keys == data[0].Keys
  {
    var r := ApplyFilter(data, column, op, operand);
    if r.Success? && |r.value| > 0 {
      assert r.value[0] in data;
      forall i | 0 <= i < |r.value| ensures r.value[i].Keys == data[0].Keys {
        assert r.value[i] in data;
      }
    }
  }

  /** Filtering the result again with the same condition returns it unchanged. */
  lemma ApplyFilterIdempotent(data: Table, column: string, op: Op, operand: string)
    requires Uniform(data)
    requires ApplyFilter(data, column, op, operand).Success?
    ensures Uniform(ApplyFilter(data, column, op, operand).value)
    ensures ApplyFilter(ApplyFilter(data, column, op, operand).value, column, op, operand)
            == ApplyFilter(data, column, op, operand)
  {
    var out := ApplyFilter(data, column, op, operand).value;
    ApplyFilterUniform(data, column, op, operand);
    if |data| > 0 && |out| > 0 {
      Seqs.FilterIdempotent(data, Matcher(column, op, ResolveMode(operand)));
    }
  }
}
