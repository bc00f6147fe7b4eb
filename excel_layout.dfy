/**
 * The layout rules of the Excel export of a report: which cell a value lands
 * in given the visibility of the columns, the style each column type gets,
 * the header and date rows, the column widths and the download file name.
 */
module ExcelLayout {
  import opened Wrappers

  /** The column types a report configuration distinguishes; `OtherType` stands for every remaining one. */
  datatype ColumnType = Hour | Turnover | Rate | Date | OtherType

  datatype ReportColumn = ReportColumn(columnHeaderResourceKey: string, columnType: ColumnType, visible: bool)

  /** The cell styles: the static ones and the currency style. */
  datatype Style = Header | Bold | Digit | Currency | DateStyle | Normal

  /** A value of a report element; how it is rendered depends on its Java type and is not modelled. */
  type Value = string

  datatype CellValue =
    | Literal(text: string)
    | Resource(key: string)
    | DateValue(date: int)
    | ReportValue(value: Value)

  datatype Cell = Cell(value: CellValue, styles: seq<Style>)

  /** A merged region: first row, last row, first column, last column. */
  datatype CellRange = CellRange(firstRow: int, lastRow: int, firstCol: int, lastCol: int)

  datatype ReportRange = ReportRange(dateStart: Option<int>, dateEnd: Option<int>)

  /** A report: its (possibly null) range and one row of (possibly null) values per element. */
  datatype Report = Report(reportRange: Option<ReportRange>, reportElements: seq<seq<Option<Value>>>)

  // ---------------------------------------------------------------------------
  // Styles and widths

  /** The style of a data cell, chosen by the type of its column. */
  function StyleFor(t: ColumnType): (s: Style)
    ensures s == Digit <==> t == Hour
    ensures s == Currency <==> t == Turnover || t == Rate
    ensures s == DateStyle <==> t == Date
    ensures s == Normal <==> t == OtherType
  {
    match t
    case Hour => Digit
    case Turnover => Currency
    case Rate => Currency
    case Date => DateStyle
    case OtherType => Normal
  }

  const WIDE_COLUMN: int := 5000
  const NARROW_COLUMN: int := 3000

  /** The widths set on columns 0 .. n-1: the first four are wide, the next three narrow. */
  function ColumnWidths(n: int): (widths: map<int, int>)
    requires 0 <= n <= 7
    ensures forall c :: c in widths <==> 0 <= c < n
    ensures forall c :: 0 <= c < n && c < 4 ==> widths[c] == WIDE_COLUMN
    ensures forall c :: 4 <= c < n ==> widths[c] == NARROW_COLUMN
  {
    map c | 0 <= c < n :: WidthOf(c)
  }

  function WidthOf(c: int): int
  {
    if c < 4 then WIDE_COLUMN else NARROW_COLUMN
  }

  // ---------------------------------------------------------------------------
  // Visible columns and cell indices

  /** The number of visible columns in `cols`. */
  function VisibleCount(cols: seq<ReportColumn>): (n: nat)
    ensures n <= |cols|
  {
    if cols == [] then 0
    else VisibleCount(cols[..|cols| - 1]) + (if cols[|cols| - 1].visible then 1 else 0)
  }

  /** The position of the column that fills cell `c`: the c-th visible column, counting from 0. */
  function NthVisible(cols: seq<ReportColumn>, c: nat): (i: nat)
    requires c < VisibleCount(cols)
    ensures i < |cols| && cols[i].visible
    ensures VisibleCount(cols[..i]) == c
  {
    var init := cols[..|cols| - 1];
    if c < VisibleCount(init) then
      var i := NthVisible(init, c);
      assert init[..i] == cols[..i];
      i
    else
      |cols| - 1
  }

  /** The cell index of a visible column is below the visible count, and it leads back to that column. */
  lemma {:induction false} CellIndexRoundTrip(cols: seq<ReportColumn>, i: nat)
    requires i < |cols| && cols[i].visible
    ensures VisibleCount(cols[..i]) < VisibleCount(cols)
    ensures NthVisible(cols, VisibleCount(cols[..i])) == i
  {
    var init := cols[..|cols| - 1];
    if i < |cols| - 1 {
      CellIndexRoundTrip(init, i);
      assert init[..i] == cols[..i];
    } else {
      assert cols[..i] == init;
    }
  }

  /** The visible count of a prefix grows by one exactly at a visible column. */
  lemma VisibleCountStep(cols: seq<ReportColumn>, i: nat)
    requires i < |cols|
    ensures VisibleCount(cols[..i + 1]) == VisibleCount(cols[..i]) + (if cols[i].visible then 1 else 0)
  {
    assert cols[..i + 1][..i] == cols[..i];
  }

  // ---------------------------------------------------------------------------
  // Rows

  function HeaderCell(col: ReportColumn): Cell
  {
    Cell(Resource(col.columnHeaderResourceKey), [Header])
  }

  function DataCell(col: ReportColumn, v: Value): Cell
  {
    Cell(ReportValue(v), [StyleFor(col.columnType)])
  }

  /** The column-header row: cell c holds the header of the c-th visible column. */
  function HeaderCells(cols: seq<ReportColumn>): map<int, Cell>
  {
    map c | 0 <= c < VisibleCount(cols) :: HeaderCell(cols[NthVisible(cols, c)])
  }

  /**
   * The data row of `vals` under columns `cs` (one column per value): cell c
   * holds the value of the c-th visible column, unless that value is null.
   */
  function Cells(cs: seq<ReportColumn>, vs: seq<Option<Value>>): map<int, Cell>
    requires |cs| == |vs|
  {
    map c | 0 <= c < VisibleCount(cs) && vs[NthVisible(cs, c)].Some? ::
      DataCell(cs[NthVisible(cs, c)], vs[NthVisible(cs, c)].value)
  }

  /**
   * A report element's row under the report's columns; the element may have
   * fewer values than there are columns. An element with more values than
   * columns has no row: the export fails on it, and its methods exclude it.
   */
  function RowCells(cols: seq<ReportColumn>, vals: seq<Option<Value>>): map<int, Cell>
  {
    if |vals| <= |cols| then Cells(cols[..|vals|], vals) else map[]
  }

  /** The data rows, one per element, starting at row `first`. */
  function FilledRows(cols: seq<ReportColumn>, elements: seq<seq<Option<Value>>>, first: int): (rows: map<int, map<int, Cell>>)
    ensures forall r :: r in rows <==> first <= r < first + |elements|
    ensures forall k :: 0 <= k < |elements| ==> rows[first + k] == RowCells(cols, elements[k])
  {
    map r | first <= r < first + |elements| :: ElementRow(cols, elements, first, r)
  }

  function ElementRow(cols: seq<ReportColumn>, elements: seq<seq<Option<Value>>>, first: int, r: int): map<int, Cell>
    requires first <= r < first + |elements|
  {
    RowCells(cols, elements[r - first])
  }

  /**
   * The whole sheet: the title in row 0, the report range in row 1, row 2
   * left empty, the column headers in row 3 and the elements from row 4 on.
   */
  function ReportRows(title: string, report: Report, cols: seq<ReportColumn>): (rows: map<int, map<int, Cell>>)
    ensures forall r :: r in rows <==> r == 0 || r == 1 || r == 3 || 4 <= r < 4 + |report.reportElements|
    ensures rows[0] == TitleRow(title) && rows[1] == DateRow(report.reportRange) && rows[3] == HeaderCells(cols)
    ensures forall k :: 0 <= k < |report.reportElements| ==> rows[4 + k] == RowCells(cols, report.reportElements[k])
  {
    map[0 := TitleRow(title), 1 := DateRow(report.reportRange), 3 := HeaderCells(cols)]
      + FilledRows(cols, report.reportElements, 4)
  }

  /** One more element fills one more row, right after the earlier ones. */
  lemma FilledRowsSnoc(cols: seq<ReportColumn>, elements: seq<seq<Option<Value>>>, first: int, j: nat)
    requires j < |elements|
    ensures FilledRows(cols, elements[..j + 1], first) ==
      FilledRows(cols, elements[..j], first)[first + j := RowCells(cols, elements[j])]
  {
    var lhs := FilledRows(cols, elements[..j + 1], first);
    var rhs := FilledRows(cols, elements[..j], first)[first + j := RowCells(cols, elements[j])];
    assert lhs.Keys == rhs.Keys;
    forall r | r in lhs ensures lhs[r] == rhs[r] {
      assert lhs[first + (r - first)] == RowCells(cols, elements[..j + 1][r - first]);
    }
  }

  /** Appending one column keeps the earlier columns' cell indices, and a visible one takes the next index. */
  lemma NthVisibleSnoc(cs: seq<ReportColumn>, col: ReportColumn)
    ensures VisibleCount(cs + [col]) == VisibleCount(cs) + (if col.visible then 1 else 0)
    ensures forall c :: 0 <= c < VisibleCount(cs) ==> NthVisible(cs + [col], c) == NthVisible(cs, c)
    ensures col.visible ==> NthVisible(cs + [col], VisibleCount(cs)) == |cs|
  {
    assert (cs + [col])[..|cs|] == cs;
  }

  lemma HeaderCellsSnoc(cs: seq<ReportColumn>, col: ReportColumn)
    ensures HeaderCells(cs + [col]) ==
      if col.visible then HeaderCells(cs)[VisibleCount(cs) := HeaderCell(col)] else HeaderCells(cs)
  {
    var lhs := HeaderCells(cs + [col]);
    var rhs := if col.visible then HeaderCells(cs)[VisibleCount(cs) := HeaderCell(col)] else HeaderCells(cs);
    forall c ensures (c in lhs <==> c in rhs) && (c in lhs ==> lhs[c] == rhs[c]) {
      HeaderCellsSnocAt(cs, col, c);
    }
  }

  lemma HeaderCellsSnocAt(cs: seq<ReportColumn>, col: ReportColumn, c: int)
    ensures var lhs := HeaderCells(cs + [col]);
      var rhs := if col.visible then HeaderCells(cs)[VisibleCount(cs) := HeaderCell(col)] else HeaderCells(cs);
      (c in lhs <==> c in rhs) && (c in lhs ==> lhs[c] == rhs[c])
  {
    var ext := cs + [col];
    NthVisibleSnoc(cs, col);
    if 0 <= c < VisibleCount(cs) {
      assert ext[NthVisible(ext, c)] == cs[NthVisible(cs, c)];
    }
  }

  lemma CellsSnoc(cs: seq<ReportColumn>, vs: seq<Option<Value>>, col: ReportColumn, v: Option<Value>)
    requires |cs| == |vs|
    ensures Cells(cs + [col], vs + [v]) ==
      if col.visible && v.Some? then Cells(cs, vs)[VisibleCount(cs) := DataCell(col, v.value)] else Cells(cs, vs)
  {
    var lhs := Cells(cs + [col], vs + [v]);
    var rhs := if col.visible && v.Some? then Cells(cs, vs)[VisibleCount(cs) := DataCell(col, v.value)] else Cells(cs, vs);
    forall c ensures (c in lhs <==> c in rhs) && (c in lhs ==> lhs[c] == rhs[c]) {
      CellsSnocAt(cs, vs, col, v, c);
    }
  }

  lemma CellsSnocAt(cs: seq<ReportColumn>, vs: seq<Option<Value>>, col: ReportColumn, v: Option<Value>, c: int)
    requires |cs| == |vs|
    ensures var lhs := Cells(cs + [col], vs + [v]);
      var rhs := if col.visible && v.Some? then Cells(cs, vs)[VisibleCount(cs) := DataCell(col, v.value)] else Cells(cs, vs);
      (c in lhs <==> c in rhs) && (c in lhs ==> lhs[c] == rhs[c])
  {
    var ecs, evs := cs + [col], vs + [v];
    NthVisibleSnoc(cs, col);
    if 0 <= c < VisibleCount(cs) {
      assert evs[NthVisible(ecs, c)] == vs[NthVisible(cs, c)] && ecs[NthVisible(ecs, c)] == cs[NthVisible(cs, c)];
    }
  }

  /**
   * Where addColumns puts the i-th value: at the number of visible columns
   * before it if its column is visible and it is not null; a null value in a
   * visible column takes its index but gets no cell; a hidden column takes no index.
   */
  lemma {:induction false} ValuePlacement(cols: seq<ReportColumn>, vals: seq<Option<Value>>, i: nat)
    requires |vals| <= |cols| && i < |vals|
    ensures VisibleCount(cols[..i + 1]) == VisibleCount(cols[..i]) + (if cols[i].visible then 1 else 0)
    ensures cols[i].visible && vals[i].Some? ==>
      VisibleCount(cols[..i]) in RowCells(cols, vals) &&
      RowCells(cols, vals)[VisibleCount(cols[..i])] == DataCell(cols[i], vals[i].value)
    ensures cols[i].visible && vals[i].None? ==> VisibleCount(cols[..i]) !in RowCells(cols, vals)
  {
    var cs := cols[..|vals|];
    VisibleCountStep(cols, i);
    assert cs[..i] == cols[..i];
    if cols[i].visible {
      CellIndexRoundTrip(cs, i);
    }
  }

  /** The header row holds one cell per visible column, at 0 .. k-1, in column order. */
  lemma {:induction false} HeaderPlacement(cols: seq<ReportColumn>, i: nat)
    requires i < |cols| && cols[i].visible
    ensures VisibleCount(cols[..i]) in HeaderCells(cols)
    ensures HeaderCells(cols)[VisibleCount(cols[..i])] == HeaderCell(cols[i])
  {
    CellIndexRoundTrip(cols, i);
  }

  // ---------------------------------------------------------------------------
  // The title and date rows

  const NO_DATE: string := "--"

  function TitleRow(title: string): map<int, Cell>
  {
    map[0 := Cell(Literal(title), [Bold])]
  }

  /** The date row: labels in cells 0 and 3, the start date in 1 and the end date in 4, "--" for a null. */
  function DateRow(range: Option<ReportRange>): (row: map<int, Cell>)
    ensures row.Keys == {0, 1, 3, 4}
    ensures row[0] == Cell(Resource("report.dateStart"), [Bold]) && row[3] == Cell(Resource("report.dateEnd"), [Bold])
    ensures row[1] == Cell(Literal(NO_DATE), [Bold]) <==> range.None? || range.value.dateStart.None?
    ensures row[4] == Cell(Literal(NO_DATE), [Bold]) <==> range.None? || range.value.dateEnd.None?
    ensures range.Some? && range.value.dateStart.Some? ==> row[1] == Cell(DateValue(range.value.dateStart.value), [Bold, DateStyle])
    ensures range.Some? && range.value.dateEnd.Some? ==> row[4] == Cell(DateValue(range.value.dateEnd.value), [Bold, DateStyle])
  {
    var start :=
      if range.None? || range.value.dateStart.None? then Cell(Literal(NO_DATE), [Bold])
      else Cell(DateValue(range.value.dateStart.value), [Bold, DateStyle]);
    var end :=
      if range.None? || range.value.dateEnd.None? then Cell(Literal(NO_DATE), [Bold])
      else Cell(DateValue(range.value.dateEnd.value), [Bold, DateStyle]);
    map[0 := Cell(Resource("report.dateStart"), [Bold]), 1 := start,
        3 := Cell(Resource("report.dateEnd"), [Bold]), 4 := end]
  }

  // ---------------------------------------------------------------------------
  // The download file name

  /** String.toLowerCase, for ASCII letters. */
  function LowerCase(s: string): (r: string)
    ensures |r| == |s|
    ensures forall i :: 0 <= i < |s| ==> r[i] == if 'A' <= s[i] <= 'Z' then (s[i] as int + 32) as char else s[i]
  {
    if s == [] then []
    else [if 'A' <= s[0] <= 'Z' then (s[0] as int + 32) as char else s[0]] + LowerCase(s[1..])
  }

  /** String.replace(char, char): every `from` becomes `to`. */
  function Replace(s: string, from: char, to: char): (r: string)
    ensures |r| == |s|
    ensures forall i :: 0 <= i < |s| ==> r[i] == if s[i] == from then to else s[i]
  {
    if s == [] then [] else [if s[0] == from then to else s[0]] + Replace(s[1..], from, to)
  }

  /** getFilename: the report name lower-cased, spaces as underscores, then ".xls". */
  function Filename(reportName: string): (r: string)
    ensures |r| == |reportName| + 4 && r[|reportName|..] == ".xls"
    ensures forall i :: 0 <= i < |reportName| ==> r[i] != ' ' && !('A' <= r[i] <= 'Z')
    ensures forall i :: 0 <= i < |reportName| && reportName[i] != ' ' && !('A' <= reportName[i] <= 'Z') ==>
      r[i] == reportName[i]
    ensures forall i :: 0 <= i < |reportName| && reportName[i] == ' ' ==> r[i] == '_'
    ensures forall i :: 0 <= i < |reportName| && 'A' <= reportName[i] <= 'Z' ==> r[i] == (reportName[i] as int + 32) as char
  {
    Replace(LowerCase(reportName), ' ', '_') + ".xls"
  }
}
