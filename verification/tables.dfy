/** The loaded data: a table is the sequence of CSV records in file order, each
    record a mapping from column name to cell text. */
module Tables {

  type Row = map<string, string>

  type Table = seq<Row>

  /** Every row has the column set of the first row.  This is an assumption
      about the input: every row is taken to have text in every column that
      the header names, and nothing more. */
  ghost predicate Uniform(t: Table) {
    forall i :: 0 <= i < |t| ==> t[i].Keys == t[0].Keys
  }

  /** The failures the filter and aggregate stages report. */
  datatype Error =
    | InvalidExpression(expr: string)
    | ColumnNotFound(column: string)
    | NonNumericValue(column: string, cell: string)
    | UnknownFunction(name: string)
}
