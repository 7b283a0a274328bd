/** `conversor_final.py`: the append-mode script that reads X from the
    second column (B) and Y from the fourth (D) by position, and leaves
    row 0 blank without reading it. */
module ConversorFinal {
  import opened Wrappers
  import opened ConversorUtm
  import opened Tables
  import opened AppendMode

  /** Column B (X) and column D (Y), by position. */
  const PositionX: nat := 1
  const PositionY: nat := 3

  /** `row.iloc[k]`: the cell at position `k`, or None where it raises. */
  function CellAt(row: seq<string>, k: nat): (r: Option<string>)
    ensures r.Some? <==> k < |row|
    ensures r.Some? ==> r.value == row[k]
  {
    if k < |row| then Some(row[k]) else None
  }

  /** The row handler: row 0 is blank; any other row reads positions 1
      and 3. */
  function FinalEntry(project: Projector, parse: Parser): EntryFn
  {
    (columns, i, row) =>
      if i == 0 then Blank
      else EntryOf(DefaultConverter, project, parse, CellAt(row, PositionX), CellAt(row, PositionY))
  }

  /** Row 0 is blank and never read; a row narrower than four cells is
      blank (the position lookup raises); any other row is the entry of its
      cells B and D. */
  lemma FinalEntryRows(project: Projector, parse: Parser, columns: seq<string>, i: nat, row: seq<string>)
    ensures i == 0 ==> FinalEntry(project, parse)(columns, i, row) == Blank
    ensures |row| < 4 ==> FinalEntry(project, parse)(columns, i, row) == Blank
    ensures i > 0 && |row| >= 4 ==>
      FinalEntry(project, parse)(columns, i, row) == EntryOf(DefaultConverter, project, parse, Some(row[1]), Some(row[3]))
  {
    EntryOfMissing(DefaultConverter, project, parse, CellAt(row, PositionX), CellAt(row, PositionY));
  }

  /** In a written file, row 0 holds '' in each of the four new columns. */
  lemma HeaderRowIsBlank(project: Projector, parse: Parser, t: Frame<string>, j: nat)
    requires |t.rows| > 0 && j < |ResultNames|
    ensures ResultNames[j] in Appended(t, FinalEntry(project, parse)).columns
    ensures Column(Appended(t, FinalEntry(project, parse)), ResultNames[j])[0] == Str("")
  {
    var entry := FinalEntry(project, parse);
    AppendedColumn(t, entry, j, 0);
    assert entry(t.columns, 0, t.rows[0]) == Blank;
    BlankCells(entry(t.columns, 0, t.rows[0]), j);
  }

  /** `converter_arquivos_csv()` over the CSV files listed in the folder `csv`, with each
      file's read and write as oracles. */
  method ConverterArquivosCsv(project: Projector, parse: Parser, files: seq<CsvFile>, write: Writer<Cell>)
    returns (r: ScriptOutcome)
    ensures r == AppendBatch(files, FinalEntry(project, parse), write)
  {
    r := RunScript(files, FinalEntry(project, parse), write);
  }
}
