/** Splitting a workbook into one CSV text per sheet. Each row of cells becomes one
    comma-separated line, with two quirks kept: the first cell of the first row is
    dropped, and an empty cell in the first column is written as `None`. */
module SheetSep {
  import opened Wrappers
  import opened PyStr

  /** A cell as the workbook gives it, already rendered by `str()`; None for an
      empty cell. */
  type Cell = Option<string>

  /** A sheet: its name and its rows of cells. */
  datatype Sheet = Sheet(name: string, rows: seq<seq<Cell>>)

  /** A file written: its path and its lines, each ending with a newline. */
  datatype CsvFile = CsvFile(path: string, lines: seq<string>)

  /** `str(cell)`: the text of a cell, `None` for an empty one. */
  function Str(cell: Cell): string {
    match cell
    case None => "None"
    case Some(s) => s
  }

  /** What cell j of row i adds to the line being built. */
  function Piece(i: nat, j: nat, cell: Cell): string {
    if i == 0 && j == 0 then ""
    else if j == 0 then Str(cell)
    else if cell.None? then ","
    else "," + cell.value
  }

  /** The line built from the first m cells of row i. */
  function RowPrefix(i: nat, row: seq<Cell>, m: nat): string
    requires m <= |row|
  {
    if m == 0 then "" else RowPrefix(i, row, m - 1) + Piece(i, m - 1, row[m - 1])
  }

  /** The line written for row i, without its newline. */
  function RowLine(i: nat, row: seq<Cell>): string {
    RowPrefix(i, row, |row|)
  }

  /** The file written for a sheet. */
  function SheetFile(sheet: Sheet): CsvFile {
    CsvFile(sheet.name + ".csv", seq(|sheet.rows|, i requires 0 <= i < |sheet.rows| => RowLine(i, sheet.rows[i]) + "\n"))
  }

  /** The field a cell becomes in the comma-separated line: its text, nothing for an
      empty cell, `None` for an empty cell of the first column, and nothing for the
      dropped first cell of the sheet. */
  function CellText(i: nat, j: nat, cell: Cell): string {
    if i == 0 && j == 0 then ""
    else match cell
      case None => if j == 0 then "None" else ""
      case Some(s) => s
  }

  function CellTexts(i: nat, row: seq<Cell>): (texts: seq<string>)
    ensures |texts| == |row|
  {
    seq(|row|, j requires 0 <= j < |row| => CellText(i, j, row[j]))
  }

  /** No cell holds a comma, so that every field stays one field. */
  predicate CommaFree(row: seq<Cell>) {
    forall j :: 0 <= j < |row| && row[j].Some? ==> ',' !in row[j].value
  }

  /** Joining one more piece adds a separator and that piece. */
  lemma JoinStep(texts: seq<string>, m: nat, c: char)
    requires 2 <= m <= |texts|
    ensures Join(texts[..m], c) == Join(texts[..m - 1], c) + [c] + texts[m - 1]
  {
    JoinSnoc(texts[..m - 1], texts[m - 1], c);
    assert texts[..m - 1] + [texts[m - 1]] == texts[..m];
  }

  /** A cell after the first adds a comma and then its field; the first cell adds
      its field alone. */
  lemma PieceText(i: nat, j: nat, cell: Cell)
    ensures j == 0 ==> Piece(i, j, cell) == CellText(i, j, cell)
    ensures j >= 1 ==> Piece(i, j, cell) == [','] + CellText(i, j, cell)
  {
    if j >= 1 && cell.None? {
      assert [','] + "" == ",";
    }
  }

  /** The line of the first m cells of a row is their fields joined by commas. */
  lemma {:induction false} RowPrefixJoin(i: nat, row: seq<Cell>, m: nat)
    requires 1 <= m <= |row|
    ensures RowPrefix(i, row, m) == Join(CellTexts(i, row)[..m], ',')
  {
    var texts := CellTexts(i, row);
    PieceText(i, m - 1, row[m - 1]);
    if m == 1 {
      assert RowPrefix(i, row, 1) == "" + Piece(i, 0, row[0]);
      assert texts[..1] == [texts[0]];
    } else {
      var prev, t := RowPrefix(i, row, m - 1), texts[m - 1];
      assert t == CellText(i, m - 1, row[m - 1]);
      assert RowPrefix(i, row, m) == prev + ([','] + t);
      assert prev + ([','] + t) == prev + [','] + t;
      RowPrefixJoin(i, row, m - 1);
      JoinStep(texts, m, ',');
    }
  }

  lemma RowLineJoin(i: nat, row: seq<Cell>)
    requires |row| >= 1
    ensures RowLine(i, row) == Join(CellTexts(i, row), ',')
  {
    RowPrefixJoin(i, row, |row|);
    assert CellTexts(i, row)[..|row|] == CellTexts(i, row);
  }

  /** Reading a line back with `split(',')` gives one field per cell. */
  lemma RowLineSplit(i: nat, row: seq<Cell>)
    requires |row| >= 1 && CommaFree(row)
    ensures Split(RowLine(i, row), ',') == CellTexts(i, row)
  {
    RowLineJoin(i, row);
    var texts := CellTexts(i, row);
    forall j | 0 <= j < |texts| ensures ',' !in texts[j] {
      if !(i == 0 && j == 0) && row[j].None? && j == 0 {
        assert texts[j] == "None";
      }
    }
    SplitJoin(texts, ',');
  }

  /** A row of n cells, none holding a comma, gives a line with n - 1 commas. */
  lemma RowLineCommas(i: nat, row: seq<Cell>)
    requires |row| >= 1 && CommaFree(row)
    ensures Count(RowLine(i, row), ',') == |row| - 1
  {
    RowLineSplit(i, row);
  }

  /** The first row loses its first cell, so its line starts with the separator of
      its second cell. */
  lemma {:induction false} FirstRowStartsWithComma(row: seq<Cell>, m: nat)
    requires 2 <= m <= |row|
    ensures |RowPrefix(0, row, m)| > 0 && RowPrefix(0, row, m)[0] == ','
  {
    if m == 2 {
      assert RowPrefix(0, row, 1) == "";
    } else {
      FirstRowStartsWithComma(row, m - 1);
    }
  }

  /** Every later row starts with the text of its first cell, `None` for an empty
      one. */
  lemma {:induction false} LaterRowStartsWithFirstCell(i: nat, row: seq<Cell>, m: nat)
    requires i >= 1 && 1 <= m <= |row|
    ensures Str(row[0]) <= RowPrefix(i, row, m)
  {
    if m == 1 {
      assert RowPrefix(i, row, 0) == "";
    } else {
      LaterRowStartsWithFirstCell(i, row, m - 1);
    }
  }

  /** `dataset_making`: the rows of a sheet, unchanged and in order. */
  method DatasetMaking(values: seq<seq<Cell>>) returns (datas: seq<seq<Cell>>)
    ensures |datas| == |values|
    ensures forall k :: 0 <= k < |values| ==> datas[k] == values[k]
  {
    datas := [];
    for n := 0 to |values|
      invariant datas == values[..n]
    {
      datas := datas + [values[n]];
    }
  }

  /** The inner loop of `data_treatment_making`: the line of row i, cell by cell. */
  method BuildLine(i: nat, row: seq<Cell>) returns (lineToWrite: string)
    ensures lineToWrite == RowLine(i, row)
  {
    lineToWrite := "";
    for j := 0 to |row|
      invariant lineToWrite == RowPrefix(i, row, j)
    {
      if i == 0 && j == 0 {
        continue;
      } else if j == 0 {
        lineToWrite := lineToWrite + Str(row[j]);
      } else if row[j].None? {
        lineToWrite := lineToWrite + ",";
      } else {
        lineToWrite := lineToWrite + "," + row[j].value;
      }
    }
  }

  /** `data_treatment_making`: one file per sheet, in order, named after the sheet,
      with one line per row. */
  method DataTreatmentMaking(datasets: seq<Sheet>) returns (files: seq<CsvFile>)
    ensures |files| == |datasets|
    ensures forall s :: 0 <= s < |datasets| ==> files[s] == SheetFile(datasets[s])
  {
    files := [];
    for s := 0 to |datasets|
      invariant |files| == s
      invariant forall t :: 0 <= t < s ==> files[t] == SheetFile(datasets[t])
    {
      var data := datasets[s];
      var written: seq<string> := [];
      for i := 0 to |data.rows|
        invariant |written| == i
        invariant forall k :: 0 <= k < i ==> written[k] == RowLine(k, data.rows[k]) + "\n"
      {
        var lineToWrite := BuildLine(i, data.rows[i]);
        written := written + [lineToWrite + "\n"];
      }
      files := files + [CsvFile(data.name + ".csv", written)];
    }
  }

  /** Reading a sheet's file back: one line per row, each ending with a newline,
      whose text splits on commas into the row's fields when no cell holds a comma. */
  lemma SheetFileReadBack(sheet: Sheet)
    requires forall i :: 0 <= i < |sheet.rows| ==> |sheet.rows[i]| >= 1 && CommaFree(sheet.rows[i])
    ensures |SheetFile(sheet).lines| == |sheet.rows|
    ensures forall i :: 0 <= i < |sheet.rows| ==>
      var l := SheetFile(sheet).lines[i];
      |l| >= 1 && l[|l| - 1] == '\n' && Split(l[..|l| - 1], ',') == CellTexts(i, sheet.rows[i])
  {
    forall i | 0 <= i < |sheet.rows|
      ensures var l := SheetFile(sheet).lines[i];
        |l| >= 1 && l[|l| - 1] == '\n' && Split(l[..|l| - 1], ',') == CellTexts(i, sheet.rows[i])
    {
      var l := SheetFile(sheet).lines[i];
      assert l[..|l| - 1] == RowLine(i, sheet.rows[i]);
      RowLineSplit(i, sheet.rows[i]);
    }
  }
}
