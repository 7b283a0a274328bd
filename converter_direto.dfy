/** `converter_direto.py`: the append-mode script that reads X and Y from
    the columns named `E/Long` and `N/Lat`, every row included. */
module ConverterDireto {
  import opened Wrappers
  import opened ConversorUtm
  import opened Tables
  import opened AppendMode

  const NameX: string := "E/Long"
  const NameY: string := "N/Lat"

  /** `row[name]`: the cell under the column called `name`, or None where
      the lookup raises KeyError. */
  function CellNamed(columns: seq<string>, row: seq<string>, name: string): (r: Option<string>)
    ensures r.Some? ==> name in columns && ListIndex(columns, name) < |row| && r.value == row[ListIndex(columns, name)]
    ensures name !in columns ==> r.None?
  {
    if name in columns && ListIndex(columns, name) < |row| then Some(row[ListIndex(columns, name)]) else None
  }

  /** The row handler: every row reads its `E/Long` and `N/Lat` cells. */
  function DirectEntry(project: Projector, parse: Parser): EntryFn
  {
    (columns, i, row) =>
      EntryOf(DefaultConverter, project, parse, CellNamed(columns, row, NameX), CellNamed(columns, row, NameY))
  }

  /** Row 0 is treated like every other row; a file without one of the two
      columns gets a blank entry on every row. */
  lemma DirectEntryRows(project: Projector, parse: Parser, t: Frame<string>, i: nat)
    requires i < |t.rows|
    ensures NameX in t.columns && NameY in t.columns ==>
      DirectEntry(project, parse)(t.columns, i, t.rows[i])
        == EntryOf(DefaultConverter, project, parse,
                   Some(t.rows[i][ListIndex(t.columns, NameX)]), Some(t.rows[i][ListIndex(t.columns, NameY)]))
    ensures NameX !in t.columns || NameY !in t.columns ==>
      DirectEntry(project, parse)(t.columns, i, t.rows[i]) == Blank
  {
    if NameX in t.columns {
      assert ListIndex(t.columns, NameX) < |t.rows[i]|;
    }
    if NameY in t.columns {
      assert ListIndex(t.columns, NameY) < |t.rows[i]|;
    }
  }

  /** `converter_arquivos_csv()` over the CSV files listed in the folder `csv`, with each
      file's read and write as oracles. */
  method ConverterArquivosCsv(project: Projector, parse: Parser, files: seq<CsvFile>, write: Writer<Cell>)
    returns (r: ScriptOutcome)
    ensures r == AppendBatch(files, DirectEntry(project, parse), write)
  {
    r := RunScript(files, DirectEntry(project, parse), write);
  }
}
