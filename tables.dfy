/** Tables as the three pipelines see them after `pandas.read_csv`: a
    header and rows of cells, with the reader, the writer and the number
    parser passed in as functions, plus the file naming and the success and
    error tally the batch loops share. */
module Tables {
  import opened Wrappers
  import opened Text

  /** A data frame: column names and data rows (the CSV header line is
      the names, not row 0). */
  datatype Table<C> = Table(columns: seq<string>, rows: seq<seq<C>>)

  predicate WellFormed<C>(t: Table<C>)
  {
    forall i :: 0 <= i < |t.rows| ==> |t.rows[i]| == |t.columns|
  }

  /** Every data frame is rectangular. */
  type Frame<C> = t: Table<C> | WellFormed(t) witness Table([], [])

  /** The character encodings the loaders name. */
  datatype Encoding = Latin1 | Cp1252 | Utf8 | Utf8Sig | Iso88591

  /** `pd.read_csv(path, encoding=..., sep=...)` for one file: the frame
      read, each cell as the text `str(cell)` gives, or None where it raises. */
  type Reader = (Encoding, char) -> Option<Frame<string>>

  /** `float(text)`: the number, or None where it raises ValueError. */
  type Parser = string -> Option<real>

  /** A file the folder listing returned: its name and how it reads. */
  datatype CsvFile = CsvFile(name: string, read: Reader)

  /** Where `to_csv` writes: the destination folder and the file name. */
  datatype Destination = Destination(folder: string, fileName: string)

  /** `to_csv(destination, ...)` succeeds or raises. */
  type Writer<!C> = (Destination, Frame<C>) -> bool

  /** The position of the last `c` in `s`, or -1 (`str.rfind`). */
  function LastIndexOf(s: string, c: char): (r: int)
    ensures -1 <= r < |s|
    ensures r >= 0 ==> s[r] == c
    ensures forall k :: r < k < |s| ==> s[k] != c
  {
    if s == [] then -1
    else if s[|s| - 1] == c then |s| - 1
    else LastIndexOf(s[..|s| - 1], c)
  }

  /** pathlib's `PurePath.stem` of a file name: the name without its last
      suffix, where a suffix is a final '.' that is neither the first nor the
      last character, followed by what comes after it. */
  function Stem(name: string): (r: string)
    // the last '.' sits strictly inside the name: cut there
    ensures forall i ::
              0 < i < |name| - 1 && name[i] == '.' && (forall k :: i < k < |name| ==> name[k] != '.') ==>
              r == name[..i]
    // no '.' after the first character: the whole name
    ensures (forall k :: 0 < k < |name| ==> name[k] != '.') ==> r == name
    // a final '.': the whole name
    ensures |name| > 0 && name[|name| - 1] == '.' ==> r == name
  {
    var i := LastIndexOf(name, '.');
    if 0 < i < |name| - 1 then name[..i] else name
  }

  /** The output file name: the stem followed by `_convertido.csv`. */
  function OutputName(fileName: string): string
  {
    Stem(fileName) + "_convertido.csv"
  }

  /** A listed `<s>.csv` with a non-empty `s` is written as
      `<s>_convertido.csv`; the bare name `.csv` keeps its dot. */
  lemma OutputNameOfCsv(s: string)
    ensures s != [] ==> OutputName(s + ".csv") == s + "_convertido.csv"
    ensures OutputName(".csv") == ".csv_convertido.csv"
  {
    if s != [] {
      var name := s + ".csv";
      assert name[|s|] == '.' && name[|s| + 1..] == "csv";
      assert LastIndexOf(name, '.') == |s|;
      assert name[..|s|] == s;
    }
    var dot := ".csv";
    assert dot[0] == '.' && dot[1] != '.' && dot[2] != '.' && dot[3] != '.';
    assert LastIndexOf(dot, '.') == 0;
  }

  /** Whatever happened to one file of a batch. */
  datatype FileOutcome<C> = FileFailed | FileWritten(name: string, dest: Destination, table: Frame<C>)

  function Written<C>(outs: seq<FileOutcome<C>>): (r: seq<FileOutcome<C>>)
    ensures |r| <= |outs|
    ensures forall k :: 0 <= k < |r| ==> r[k].FileWritten? && r[k] in outs
  {
    if outs == [] then []
    else (if outs[0].FileWritten? then [outs[0]] else []) + Written(outs[1..])
  }

  /** The counters a batch loop ends with: successes are the written files,
      errors all the others. */
  datatype Tally = Tally(sucessos: nat, erros: nat)

  function TallyOf<C>(outs: seq<FileOutcome<C>>): (r: Tally)
    ensures r.sucessos + r.erros == |outs|
    ensures r.sucessos == |Written(outs)|
  {
    Tally(|Written(outs)|, |outs| - |Written(outs)|)
  }

  /** Written files in order, one step at a time. */
  lemma {:induction false} WrittenSnoc<C>(outs: seq<FileOutcome<C>>, o: FileOutcome<C>)
    ensures Written(outs + [o]) == Written(outs) + (if o.FileWritten? then [o] else [])
  {
    var t := outs + [o];
    if outs == [] {
      assert t[1..] == [];
    } else {
      assert t[0] == outs[0] && t[1..] == outs[1..] + [o];
      WrittenSnoc(outs[1..], o);
    }
  }

  /** One more file adds one to the successes when it was written, and
      one to the errors otherwise. */
  lemma TallySnoc<C>(outs: seq<FileOutcome<C>>, o: FileOutcome<C>)
    ensures TallyOf(outs + [o]) ==
      if o.FileWritten? then Tally(TallyOf(outs).sucessos + 1, TallyOf(outs).erros)
      else Tally(TallyOf(outs).sucessos, TallyOf(outs).erros + 1)
  {
    WrittenSnoc(outs, o);
  }

  /** A prefix grows by the next element. */
  lemma PrefixSnoc<T>(s: seq<T>, i: nat, x: T)
    requires i < |s| && s[i] == x
    ensures s[..i + 1] == s[..i] + [x]
  {}

  /** The names of the written files, in order (`arquivos_processados`). */
  function WrittenNames<C>(outs: seq<FileOutcome<C>>): (r: seq<string>)
    ensures |r| == |Written(outs)|
  {
    if outs == [] then []
    else (if outs[0].FileWritten? then [outs[0].name] else []) + WrittenNames(outs[1..])
  }

  lemma {:induction false} WrittenNamesSnoc<C>(outs: seq<FileOutcome<C>>, o: FileOutcome<C>)
    ensures WrittenNames(outs + [o]) == WrittenNames(outs) + (if o.FileWritten? then [o.name] else [])
  {
    var t := outs + [o];
    if outs == [] {
      assert t[1..] == [];
    } else {
      assert t[0] == outs[0] && t[1..] == outs[1..] + [o];
      WrittenNamesSnoc(outs[1..], o);
    }
  }

  /** The names of the files, in order, whose outcome is a written file. */
  function NamesWhereWritten<C>(files: seq<CsvFile>, outs: seq<FileOutcome<C>>): (r: seq<string>)
    requires |files| == |outs|
    ensures |r| <= |files|
  {
    if files == [] then []
    else (if outs[0].FileWritten? then [files[0].name] else []) + NamesWhereWritten(files[1..], outs[1..])
  }

  /** When every written outcome carries its own file's name, the names
      the loop collects are those of the files that were written. */
  lemma {:induction false} WrittenNamesAreFileNames<C>(files: seq<CsvFile>, outs: seq<FileOutcome<C>>)
    requires |files| == |outs|
    requires forall i :: 0 <= i < |outs| && outs[i].FileWritten? ==> outs[i].name == files[i].name
    ensures WrittenNames(outs) == NamesWhereWritten(files, outs)
  {
    if files != [] {
      WrittenNamesAreFileNames(files[1..], outs[1..]);
    }
  }
}
