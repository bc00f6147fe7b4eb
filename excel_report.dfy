/**
 * The Excel export of a report: a worksheet that is filled row by row and
 * cell by cell, and the report class that lays the report out on it.
 */
module ExcelReport {
  import opened Wrappers
  import opened ExcelLayout

  // The effect of one loop step on the rows of the sheet, stated in the shape
  // in which the sheet operations describe their updates.

  lemma HeaderRowStep(rows: map<int, map<int, Cell>>, r: int, cols: seq<ReportColumn>, i: nat)
    requires i < |cols|
    ensures VisibleCount(cols[..i + 1]) == VisibleCount(cols[..i]) + (if cols[i].visible then 1 else 0)
    ensures var prev := rows[r := HeaderCells(cols[..i])];
      rows[r := HeaderCells(cols[..i + 1])] ==
        if cols[i].visible then prev[r := prev[r][VisibleCount(cols[..i]) := HeaderCell(cols[i])]] else prev
  {
    VisibleCountStep(cols, i);
    HeaderCellsSnoc(cols[..i], cols[i]);
    assert cols[..i + 1] == cols[..i] + [cols[i]];
  }

  lemma DataRowStep(rows: map<int, map<int, Cell>>, r: int, cols: seq<ReportColumn>, vals: seq<Option<Value>>, i: nat)
    requires r in rows
    requires |vals| <= |cols| && i < |vals|
    ensures VisibleCount(cols[..i + 1]) == VisibleCount(cols[..i]) + (if cols[i].visible then 1 else 0)
    ensures var prev := rows[r := rows[r] + Cells(cols[..i], vals[..i])];
      rows[r := rows[r] + Cells(cols[..i + 1], vals[..i + 1])] ==
        if cols[i].visible && vals[i].Some? then prev[r := prev[r][VisibleCount(cols[..i]) := DataCell(cols[i], vals[i].value)]]
        else prev
  {
    VisibleCountStep(cols, i);
    CellsSnoc(cols[..i], vals[..i], cols[i], vals[i]);
    assert cols[..i + 1] == cols[..i] + [cols[i]];
    assert vals[..i + 1] == vals[..i] + [vals[i]];
    if cols[i].visible && vals[i].Some? {
      var before := Cells(cols[..i], vals[..i]);
      var cell := DataCell(cols[i], vals[i].value);
      UpdateUnion(rows[r], before, VisibleCount(cols[..i]), cell);
      UpdateTwice(rows, r, rows[r] + before, (rows[r] + before)[VisibleCount(cols[..i]) := cell]);
    }
  }

  lemma DataRowStart(rows: map<int, map<int, Cell>>, r: int, cols: seq<ReportColumn>, vals: seq<Option<Value>>)
    requires r in rows
    ensures rows[r := rows[r] + Cells(cols[..0], vals[..0])] == rows
  {
    assert Cells(cols[..0], vals[..0]) == map[];
    assert rows[r] + map[] == rows[r];
  }

  lemma DataRowEnd(rows: map<int, map<int, Cell>>, r: int, cols: seq<ReportColumn>, vals: seq<Option<Value>>)
    requires r in rows && |vals| <= |cols|
    ensures rows[r := rows[r] + Cells(cols[..|vals|], vals[..|vals|])] == rows[r := rows[r] + RowCells(cols, vals)]
  {
    assert vals[..|vals|] == vals;
  }

  lemma FillStep(rows: map<int, map<int, Cell>>, cols: seq<ReportColumn>, elements: seq<seq<Option<Value>>>, first: int, j: nat)
    requires j < |elements|
    ensures var created := (rows + FilledRows(cols, elements[..j], first))[first + j := map[]];
      created[first + j := created[first + j] + RowCells(cols, elements[j])] ==
        rows + FilledRows(cols, elements[..j + 1], first)
  {
    FilledRowsSnoc(cols, elements, first, j);
    ReplaceRow(rows, FilledRows(cols, elements[..j], first), first + j, RowCells(cols, elements[j]));
  }

  /** Creating a row anew and filling it is the same as setting it, whatever the row held before. */
  lemma ReplaceRow(a: map<int, map<int, Cell>>, b: map<int, map<int, Cell>>, k: int, row: map<int, Cell>)
    ensures var created := (a + b)[k := map[]];
      created[k := created[k] + row] == a + b[k := row]
  {
    var created := (a + b)[k := map[]];
    assert created[k] + row == row;
    UpdateTwice(a + b, k, map[], row);
    UpdateUnion(a, b, k, row);
  }

  lemma UpdateTwice<K, V>(m: map<K, V>, k: K, v: V, w: V)
    ensures m[k := v][k := w] == m[k := w]
  {
  }

  lemma UpdateUnion<K, V>(a: map<K, V>, b: map<K, V>, k: K, v: V)
    ensures (a + b)[k := v] == a + b[k := v]
  {
  }

  lemma HeaderRowsShape(rows: map<int, map<int, Cell>>, r: int, title: string, range: Option<ReportRange>, startCell: Cell, endCell: Cell)
    requires startCell == DateRow(range)[1] && endCell == DateRow(range)[4]
    ensures var titled := rows[r := map[]][r := map[][0 := Cell(Literal(title), [Bold])]];
      var dated := titled[r + 1 := map[]][r + 1 := map[][0 := Cell(Resource("report.dateStart"), [Bold])]];
      var started := dated[r + 1 := dated[r + 1][1 := startCell]];
      var labelled := started[r + 1 := started[r + 1][3 := Cell(Resource("report.dateEnd"), [Bold])]];
      labelled[r + 1 := labelled[r + 1][4 := endCell]] == rows[r := TitleRow(title)][r + 1 := DateRow(range)]
  {
    var row := map[][0 := Cell(Resource("report.dateStart"), [Bold])][1 := startCell][3 := Cell(Resource("report.dateEnd"), [Bold])][4 := endCell];
    assert row == DateRow(range);
  }

  lemma FillStart(rows: map<int, map<int, Cell>>, cols: seq<ReportColumn>, elements: seq<seq<Option<Value>>>, first: int)
    ensures rows + FilledRows(cols, elements[..0], first) == rows
  {
    assert FilledRows(cols, elements[..0], first) == map[];
  }

  /** A worksheet: its name, the widths set on its columns, its rows of cells and its merged regions. */
  class Sheet {
    var name: string
    var columnWidths: map<int, int>
    var rows: map<int, map<int, Cell>>
    var mergedRegions: seq<CellRange>

    constructor (name: string)
      ensures this.name == name
      ensures columnWidths == map[] && rows == map[] && mergedRegions == []
    {
      this.name := name;
      columnWidths := map[];
      rows := map[];
      mergedRegions := [];
    }

    method SetColumnWidth(column: int, width: int)
      modifies this
      ensures columnWidths == old(columnWidths)[column := width]
      ensures name == old(name) && rows == old(rows) && mergedRegions == old(mergedRegions)
    {
      columnWidths := columnWidths[column := width];
    }

    /** Creates row `r` empty, replacing a row already at that index. */
    method CreateRow(r: int)
      modifies this
      ensures rows == old(rows)[r := map[]]
      ensures name == old(name) && columnWidths == old(columnWidths) && mergedRegions == old(mergedRegions)
    {
      rows := rows[r := map[]];
    }

    method CreateCell(r: int, c: int, cell: Cell)
      requires r in rows
      modifies this
      ensures rows == old(rows)[r := old(rows)[r][c := cell]]
      ensures name == old(name) && columnWidths == old(columnWidths) && mergedRegions == old(mergedRegions)
    {
      rows := rows[r := rows[r][c := cell]];
    }

    method AddMergedRegion(region: CellRange)
      modifies this
      ensures mergedRegions == old(mergedRegions) + [region]
      ensures name == old(name) && columnWidths == old(columnWidths) && rows == old(rows)
    {
      mergedRegions := mergedRegions + [region];
    }
  }

  /** A report exported to Excel: its configured columns, the sheet name and the title shown in the sheet. */
  class AbstractExcelReport {
    const reportColumns: seq<ReportColumn>
    const excelReportName: string
    const headerReportName: string

    constructor (reportColumns: seq<ReportColumn>, excelReportName: string, headerReportName: string)
      ensures this.reportColumns == reportColumns
      ensures this.excelReportName == excelReportName && this.headerReportName == headerReportName
    {
      this.reportColumns := reportColumns;
      this.excelReportName := excelReportName;
      this.headerReportName := headerReportName;
    }

    /** Every element of the report has at most one value per configured column. */
    predicate Fits(report: Report)
    {
      forall k :: 0 <= k < |report.reportElements| ==> |report.reportElements[k]| <= |reportColumns|
    }

    /** Builds the sheet: column widths, the title and date rows, the column headers, then one row per element. */
    method CreateWorkbook(report: Report) returns (sheet: Sheet)
      requires Fits(report)
      ensures fresh(sheet)
      ensures sheet.name == excelReportName
      ensures sheet.columnWidths == ColumnWidths(7)
      ensures sheet.rows == ReportRows(headerReportName, report, reportColumns)
      ensures sheet.mergedRegions == [CellRange(0, 0, 0, 1)]
    {
      sheet := new Sheet(excelReportName);
      var rowNumber := 0;
      var column := 0;
      while column < 4
        invariant 0 <= column <= 4
        invariant sheet.columnWidths == ColumnWidths(column)
        invariant sheet.name == excelReportName && sheet.rows == map[] && sheet.mergedRegions == []
      {
        sheet.SetColumnWidth(column, WIDE_COLUMN);
        column := column + 1;
      }
      while column < 7
        invariant 4 <= column <= 7
        invariant sheet.columnWidths == ColumnWidths(column)
        invariant sheet.name == excelReportName && sheet.rows == map[] && sheet.mergedRegions == []
      {
        sheet.SetColumnWidth(column, NARROW_COLUMN);
        column := column + 1;
      }
      rowNumber := CreateHeaders(rowNumber, sheet, report);
      rowNumber := AddColumnHeaders(rowNumber, sheet);
      FillReportSheet(report, sheet, rowNumber);
    }

    /** Writes the title row and the date row at `rowNumber` and returns the row after a blank one. */
    method CreateHeaders(rowNumber: int, sheet: Sheet, report: Report) returns (next: int)
      modifies sheet
      ensures next == rowNumber + 3
      ensures sheet.rows == old(sheet.rows)[rowNumber := TitleRow(headerReportName)][rowNumber + 1 := DateRow(report.reportRange)]
      ensures sheet.mergedRegions == old(sheet.mergedRegions) + [CellRange(0, 0, 0, 1)]
      ensures sheet.name == old(sheet.name) && sheet.columnWidths == old(sheet.columnWidths)
    {
      next := rowNumber;
      sheet.CreateRow(next);
      sheet.CreateCell(next, 0, Cell(Literal(headerReportName), [Bold]));
      sheet.AddMergedRegion(CellRange(0, 0, 0, 1));
      ghost var titled := sheet.rows;
      next := next + 1;

      sheet.CreateRow(next);
      sheet.CreateCell(next, 0, Cell(Resource("report.dateStart"), [Bold]));
      var startCell;
      if report.reportRange.None? || report.reportRange.value.dateStart.None? {
        startCell := Cell(Literal(NO_DATE), [Bold]);
      } else {
        startCell := Cell(DateValue(report.reportRange.value.dateStart.value), [Bold, DateStyle]);
      }
      sheet.CreateCell(next, 1, startCell);
      sheet.CreateCell(next, 3, Cell(Resource("report.dateEnd"), [Bold]));
      var endCell;
      if report.reportRange.None? || report.reportRange.value.dateEnd.None? {
        endCell := Cell(Literal(NO_DATE), [Bold]);
      } else {
        endCell := Cell(DateValue(report.reportRange.value.dateEnd.value), [Bold, DateStyle]);
      }
      sheet.CreateCell(next, 4, endCell);
      HeaderRowsShape(old(sheet.rows), rowNumber, headerReportName, report.reportRange, startCell, endCell);
      next := next + 1;

      next := next + 1;
    }

    /** Writes the headers of the visible columns at `rowNumber`, side by side from cell 0, and returns the next row. */
    method AddColumnHeaders(rowNumber: int, sheet: Sheet) returns (next: int)
      modifies sheet
      ensures next == rowNumber + 1
      ensures sheet.rows == old(sheet.rows)[rowNumber := HeaderCells(reportColumns)]
      ensures sheet.name == old(sheet.name) && sheet.columnWidths == old(sheet.columnWidths)
      ensures sheet.mergedRegions == old(sheet.mergedRegions)
    {
      var cellNumber := 0;
      sheet.CreateRow(rowNumber);
      assert HeaderCells(reportColumns[..0]) == map[];
      next := rowNumber + 1;
      var i := 0;
      while i < |reportColumns|
        invariant 0 <= i <= |reportColumns|
        invariant cellNumber == VisibleCount(reportColumns[..i])
        invariant sheet.rows == old(sheet.rows)[rowNumber := HeaderCells(reportColumns[..i])]
        invariant sheet.name == old(sheet.name) && sheet.columnWidths == old(sheet.columnWidths)
        invariant sheet.mergedRegions == old(sheet.mergedRegions)
      {
        var reportColumn := reportColumns[i];
        HeaderRowStep(old(sheet.rows), rowNumber, reportColumns, i);
        if reportColumn.visible {
          sheet.CreateCell(rowNumber, cellNumber, Cell(Resource(reportColumn.columnHeaderResourceKey), [Header]));
          cellNumber := cellNumber + 1;
        }
        i := i + 1;
      }
      assert reportColumns[..i] == reportColumns;
    }

    /** Writes one row per report element, from `rowNumber` on. */
    method FillReportSheet(report: Report, sheet: Sheet, rowNumber: int)
      requires Fits(report)
      modifies sheet
      ensures sheet.rows == old(sheet.rows) + FilledRows(reportColumns, report.reportElements, rowNumber)
      ensures sheet.name == old(sheet.name) && sheet.columnWidths == old(sheet.columnWidths)
      ensures sheet.mergedRegions == old(sheet.mergedRegions)
    {
      var matrix := report.reportElements;
      var row := rowNumber;
      var j := 0;
      FillStart(sheet.rows, reportColumns, matrix, rowNumber);
      while j < |matrix|
        invariant 0 <= j <= |matrix|
        invariant row == rowNumber + j
        invariant sheet.rows == old(sheet.rows) + FilledRows(reportColumns, matrix[..j], rowNumber)
        invariant sheet.name == old(sheet.name) && sheet.columnWidths == old(sheet.columnWidths)
        invariant sheet.mergedRegions == old(sheet.mergedRegions)
      {
        FillStep(old(sheet.rows), reportColumns, matrix, rowNumber, j);
        sheet.CreateRow(row);
        AddColumns(reportColumns, sheet, row, matrix[j]);
        row := row + 1;
        j := j + 1;
      }
      assert matrix[..j] == matrix;
    }

    /**
     * Writes the values of one element into row `row`: a visible column's
     * value goes to the next cell, with the style of the column's type; a null
     * value leaves that cell out; a hidden column's value is skipped.
     */
    method AddColumns(columnHeaders: seq<ReportColumn>, sheet: Sheet, row: int, element: seq<Option<Value>>)
      requires |element| <= |columnHeaders|
      requires row in sheet.rows
      modifies sheet
      ensures sheet.rows == old(sheet.rows)[row := old(sheet.rows)[row] + RowCells(columnHeaders, element)]
      ensures sheet.name == old(sheet.name) && sheet.columnWidths == old(sheet.columnWidths)
      ensures sheet.mergedRegions == old(sheet.mergedRegions)
    {
      var i := 0;
      var cellNumber := 0;
      DataRowStart(sheet.rows, row, columnHeaders, element);
      while i < |element|
        invariant 0 <= i <= |element|
        invariant cellNumber == VisibleCount(columnHeaders[..i])
        invariant sheet.rows == old(sheet.rows)[row := old(sheet.rows)[row] + Cells(columnHeaders[..i], element[..i])]
        invariant sheet.name == old(sheet.name) && sheet.columnWidths == old(sheet.columnWidths)
        invariant sheet.mergedRegions == old(sheet.mergedRegions)
      {
        var cellValue := element[i];
        DataRowStep(old(sheet.rows), row, columnHeaders, element, i);
        if columnHeaders[i].visible {
          if cellValue.Some? {
            var style := StyleFor(columnHeaders[i].columnType);
            sheet.CreateCell(row, cellNumber, Cell(ReportValue(cellValue.value), [style]));
            cellNumber := cellNumber + 1;
          } else {
            cellNumber := cellNumber + 1;
          }
        }
        i := i + 1;
      }
      DataRowEnd(old(sheet.rows), row, columnHeaders, element);
    }

    /** The name under which the sheet is downloaded. */
    function GetFilename(): (r: string)
      ensures r == Filename(excelReportName)
      ensures |r| == |excelReportName| + 4 && r[|excelReportName|..] == ".xls"
      ensures forall i :: 0 <= i < |excelReportName| ==> r[i] != ' ' && !('A' <= r[i] <= 'Z')
      ensures forall i :: 0 <= i < |excelReportName| && excelReportName[i] == ' ' ==> r[i] == '_'
      ensures forall i :: 0 <= i < |excelReportName| && 'A' <= excelReportName[i] <= 'Z' ==>
        r[i] == (excelReportName[i] as int + 32) as char
      ensures forall i :: 0 <= i < |excelReportName| && excelReportName[i] != ' ' && !('A' <= excelReportName[i] <= 'Z') ==>
        r[i] == excelReportName[i]
    {
      Filename(excelReportName)
    }
  }
}
