/** The text-table rendering as the list of lines it prints: a header line, a
    rule of dashes as long as the header line, then one line per row.  Every
    column is as wide as its widest entry (header included); entries are padded
    on the right to that width and separated by `" | "`. */
module Layout {
  import opened Tables
  import opened Strings

  /** The line printed for a table with no rows. */
  const NoDataLine: string := "Нет данных для отображения"

  const Separator: string := " | "

  /** `headers` lists the keys of `row` once each, in the row's column order. */
  ghost predicate ListsKeys(headers: seq<string>, row: Row) {
    && (forall h :: h in headers <==> h in row)
    && (forall i, j :: 0 <= i < j < |headers| ==> headers[i] != headers[j])
  }

  /** A row's text for a column, empty when the row lacks the column. */
  function CellText(row: Row, h: string): string {
    if h in row then row[h] else ""
  }

  /** The width of column `h`: the longest of its header and its cells. */
  function ColumnWidth(data: Table, h: string): (w: nat)
    ensures |h| <= w
    ensures forall i :: 0 <= i < |data| ==> |CellText(data[i], h)| <= w
    ensures w == |h| || exists i :: 0 <= i < |data| && w == |CellText(data[i], h)|
    decreases |data|
  {
    if |data| == 0 then |h|
    else
      var w := ColumnWidth(data[..|data| - 1], h);
      var cell := CellText(data[|data| - 1], h);
      if |cell| > w then |cell|
      else
        assert forall i :: 0 <= i < |data| - 1 ==> data[..|data| - 1][i] == data[i];
        w
  }

  /** `s.ljust(width)`: `s` followed by spaces up to `width` characters. */
  function PadRight(s: string, width: nat): (r: string)
    ensures |r| == if |s| < width then width else |s|
    ensures r[..|s|] == s
    ensures forall i :: |s| <= i < |r| ==> r[i] == ' '
  {
    if |s| < width then s + Repeat(' ', width - |s|) else s
  }

  function Widths(data: Table, headers: seq<string>): (ws: seq<nat>)
    ensures |ws| == |headers|
  {
    seq(|headers|, j requires 0 <= j < |headers| => ColumnWidth(data, headers[j]))
  }

  /** The cells padded to their widths. */
  function Fields(cells: seq<string>, widths: seq<nat>): (fs: seq<string>)
    requires |cells| == |widths|
    ensures |fs| == |cells|
  {
    seq(|cells|, j requires 0 <= j < |cells| => PadRight(cells[j], widths[j]))
  }

  function Line(cells: seq<string>, widths: seq<nat>): string
    requires |cells| == |widths|
  {
    Join(Separator, Fields(cells, widths))
  }

  function RowCells(row: Row, headers: seq<string>): (cs: seq<string>)
    ensures |cs| == |headers|
  {
    seq(|headers|, j requires 0 <= j < |headers| => CellText(row, headers[j]))
  }

  /** The cells a line shows: the headers for line 0, the `i`-th row for line `i + 2`. */
  function LineCells(data: Table, headers: seq<string>, k: nat): (cs: seq<string>)
    requires k == 0 || 2 <= k < |data| + 2
    ensures |cs| == |headers|
  {
    if k == 0 then headers else RowCells(data[k - 2], headers)
  }

  /** The printed lines of the table; `headers` is the first row's column order. */
  function RenderTable(data: Table, headers: seq<string>): (lines: seq<string>)
    requires |data| > 0 ==> ListsKeys(headers, data[0])
    ensures |data| == 0 ==> lines == [NoDataLine]
    ensures |data| > 0 ==> |lines| == |data| + 2
    ensures |data| > 0 ==> lines[1] == Repeat('-', |lines[0]|)
  {
    if |data| == 0 then [NoDataLine]
    else
      var widths := Widths(data, headers);
      var header := Line(headers, widths);
      [header, Repeat('-', |header|)]
        + seq(|data|, i requires 0 <= i < |data| => Line(RowCells(data[i], headers), widths))
  }

  lemma RenderedLine(data: Table, headers: seq<string>, k: nat)
    requires |data| > 0 && ListsKeys(headers, data[0])
    requires k == 0 || 2 <= k < |data| + 2
    ensures RenderTable(data, headers)[k] == Line(LineCells(data, headers, k), Widths(data, headers))
  {
  }

  /** Every header and every cell fits its column, so each field is exactly as
      wide as its column. */
  lemma FieldsFit(data: Table, headers: seq<string>, k: nat)
    requires k == 0 || 2 <= k < |data| + 2
    ensures Lengths(Fields(LineCells(data, headers, k), Widths(data, headers))) == Widths(data, headers)
  {
    var cells := LineCells(data, headers, k);
    var widths := Widths(data, headers);
    forall j | 0 <= j < |headers| ensures |cells[j]| <= widths[j] {
      if k >= 2 {
        assert cells[j] == CellText(data[k - 2], headers[j]);
      }
    }
  }

  /** Every column is at least as wide as its header and as each of its cells, and
      exactly as wide as the widest of them. */
  lemma ColumnWidthIsMax(data: Table, h: string)
    ensures |h| <= ColumnWidth(data, h)
    ensures forall i :: 0 <= i < |data| && h in data[i] ==> |data[i][h]| <= ColumnWidth(data, h)
    ensures ColumnWidth(data, h) == |h|
            || exists i :: 0 <= i < |data| && h in data[i] && ColumnWidth(data, h) == |data[i][h]|
  {
    var w := ColumnWidth(data, h);
    if w != |h| {
      var i :| 0 <= i < |data| && w == |CellText(data[i], h)|;
      assert h in data[i];
    }
  }

  /** The header line, the dash rule and every row line have the same length. */
  lemma LinesEqualLength(data: Table, headers: seq<string>)
    requires |data| > 0 && ListsKeys(headers, data[0])
    ensures var lines := RenderTable(data, headers);
            forall k :: 0 <= k < |lines| ==> |lines[k]| == |lines[0]|
  {
    var lines := RenderTable(data, headers);
    var widths := Widths(data, headers);
    forall k | 2 <= k < |lines| ensures |lines[k]| == |lines[0]| {
      RenderedLine(data, headers, 0);
      RenderedLine(data, headers, k);
      FieldsFit(data, headers, 0);
      FieldsFit(data, headers, k);
      JoinSameShape(Separator, Fields(LineCells(data, headers, 0), widths), Fields(LineCells(data, headers, k), widths));
    }
  }

  /** Columns line up: in the header line and in every row line, column `j`
      occupies the same character positions, where its text stands padded with
      spaces. */
  lemma ColumnsAligned(data: Table, headers: seq<string>, k: nat, j: nat)
    requires |data| > 0 && ListsKeys(headers, data[0])
    requires k == 0 || 2 <= k < |data| + 2
    requires j < |headers|
    ensures var widths := Widths(data, headers);
            var start := FieldOffset(|Separator|, widths, j);
            var line := RenderTable(data, headers)[k];
            && start + widths[j] <= |line|
            && line[start..start + widths[j]] == PadRight(LineCells(data, headers, k)[j], widths[j])
  {
    var widths := Widths(data, headers);
    var fields := Fields(LineCells(data, headers, k), widths);
    RenderedLine(data, headers, k);
    FieldsFit(data, headers, k);
    JoinFieldAt(Separator, fields, j);
  }

  /** In a printed line, each header or cell stands at the start of its column. */
  lemma TextShownAt(data: Table, headers: seq<string>, k: nat, j: nat)
    requires k == 0 || 2 <= k < |data| + 2
    requires j < |headers|
    ensures OccursAt(Line(LineCells(data, headers, k), Widths(data, headers)), LineCells(data, headers, k)[j],
                     FieldOffset(|Separator|, Widths(data, headers), j))
  {
    var widths := Widths(data, headers);
    var fields := Fields(LineCells(data, headers, k), widths);
    FieldsFit(data, headers, k);
    JoinFieldAt(Separator, fields, j);
    PrefixOccurs(Line(LineCells(data, headers, k), widths), FieldOffset(|Separator|, widths, j),
                 fields[j], LineCells(data, headers, k)[j]);
  }

  /** Each header appears in the header line of the printed table, and each cell
      a row holds appears in that row's line. */
  lemma TextShown(data: Table, headers: seq<string>, k: nat, j: nat)
    requires |data| > 0 && ListsKeys(headers, data[0])
    requires k == 0 || 2 <= k < |data| + 2
    requires j < |headers|
    ensures Contains(RenderTable(data, headers)[k], LineCells(data, headers, k)[j])
  {
    RenderedLine(data, headers, k);
    TextShownAt(data, headers, k, j);
  }
}
