/** The append-mode pipeline that `conversor_final.py` and
    `converter_direto.py` share: every row yields four values (the two DMS
    texts and the two decimal degrees, or four empty strings when anything
    on the row raises), the four lists become columns `Longitude_DMS`,
    `Latitude_DMS`, `Longitude_Decimal` and `Latitude_Decimal` of the frame,
    and the frame is written to the folder `convertido`. The two scripts
    differ only in how a row's X and Y cells are found. */
module AppendMode {
  import opened Wrappers
  import opened Text
  import opened NumFmt
  import opened ConversorUtm
  import opened Tables

  /** A cell of the written frame: text, or a decimal degree value. */
  datatype Cell = Str(text: string) | Num(value: real)

  /** What one row contributes: four empty strings, or a conversion. */
  datatype Entry = Blank | Filled(result: ConverterResult)

  /** The row's `try` block once its two cells are looked up (None where
      the lookup raises): normalise both, reject an empty one, parse both,
      project. Any exception leaves the row blank. */
  function EntryOf(c: Converter, project: Projector, parse: Parser,
                   vx: Option<string>, vy: Option<string>): Entry
  {
    match (vx, vy)
    case (Some(x), Some(y)) =>
      var nx, ny := Normalize(x), Normalize(y);
      if nx == [] || ny == [] then Blank
      else
        (match (parse(nx), parse(ny))
         case (Some(ux), Some(uy)) =>
           (match ConvertUtmToDms(c, project, ux, uy, None, None)
            case Some(r) => Filled(r)
            case None => Blank)
         case _ => Blank)
    case _ => Blank
  }

  /** A row is filled exactly when both cells are found, both normalise to
      non-empty numbers and the projection succeeds; it then holds the
      converter's result for those numbers, with the converter's own zone
      and hemisphere. */
  lemma EntryMeaning(c: Converter, project: Projector, parse: Parser,
                     vx: Option<string>, vy: Option<string>)
    ensures EntryOf(c, project, parse, vx, vy).Filled? <==>
      && vx.Some? && vy.Some?
      && Normalize(vx.value) != [] && Normalize(vy.value) != []
      && parse(Normalize(vx.value)).Some? && parse(Normalize(vy.value)).Some?
      && UtmToGeographic(c, project, parse(Normalize(vx.value)).value,
                         parse(Normalize(vy.value)).value, None, None).Some?
    ensures EntryOf(c, project, parse, vx, vy).Filled? ==>
      var xy := UtmToGeographic(c, project, parse(Normalize(vx.value)).value,
                                parse(Normalize(vy.value)).value, None, None).value;
      var r := EntryOf(c, project, parse, vx, vy).result;
      && r.longitudeDec == xy.0 && r.latitudeDec == xy.1
      && r.longitudeDms == FormatDms(ToDms(xy.0).graus, ToDms(xy.0).minutos, ToDms(xy.0).segundos)
      && r.latitudeDms == FormatDms(ToDms(xy.1).graus, ToDms(xy.1).minutos, ToDms(xy.1).segundos)
  {}

  /** A cell whose lookup raises leaves the row blank. */
  lemma EntryOfMissing(c: Converter, project: Projector, parse: Parser,
                       vx: Option<string>, vy: Option<string>)
    ensures vx.None? || vy.None? ==> EntryOf(c, project, parse, vx, vy) == Blank
  {}

  /** In a filled row the DMS text and the decimal value agree: the text
      reads back as degrees and minutes of the value and seconds within half
      a hundredth of a second of its magnitude. */
  lemma FilledCellsAgree(e: Entry, c: Converter, project: Projector, parse: Parser,
                         vx: Option<string>, vy: Option<string>)
    requires e == EntryOf(c, project, parse, vx, vy) && e.Filled?
    ensures var back := DecodeDms(e.result.longitudeDms, 2);
      && back.Some? && back.value.graus == ToDms(e.result.longitudeDec).graus
      && Near(DmsMagnitude(back.value), RealAbs(e.result.longitudeDec), SecondsTolerance(2))
    ensures var back := DecodeDms(e.result.latitudeDms, 2);
      && back.Some? && back.value.graus == ToDms(e.result.latitudeDec).graus
      && Near(DmsMagnitude(back.value), RealAbs(e.result.latitudeDec), SecondsTolerance(2))
  {
    EntryMeaning(c, project, parse, vx, vy);
    DmsTextApproximatesAngle(e.result.longitudeDec);
    DmsTextApproximatesAngle(e.result.latitudeDec);
  }

  // ---------------------------------------------------------------------
  // The four lists and the four columns

  const ResultNames: seq<string> := ["Longitude_DMS", "Latitude_DMS", "Longitude_Decimal", "Latitude_Decimal"]

  /** The four values a row appends, in the order of `ResultNames`. */
  function EntryCells(e: Entry): (r: seq<Cell>)
    ensures |r| == |ResultNames|
    ensures e.Blank? ==> r == [Str(""), Str(""), Str(""), Str("")]
  {
    match e
    case Blank => [Str(""), Str(""), Str(""), Str("")]
    case Filled(res) =>
      [Str(res.longitudeDms), Str(res.latitudeDms), Num(res.longitudeDec), Num(res.latitudeDec)]
  }

  /** A blank entry appends '' in each of the four columns. */
  lemma BlankCells(e: Entry, j: nat)
    requires e.Blank? && j < |ResultNames|
    ensures EntryCells(e)[j] == Str("")
  {}

  /** The j-th list (`longitudes_dms`, `latitudes_dms`, `longitudes_dec`,
      `latitudes_dec`) built from the rows' entries. */
  function ResultColumn(entries: seq<Entry>, j: nat): (r: seq<Cell>)
    requires j < |ResultNames|
    ensures |r| == |entries|
    ensures forall i :: 0 <= i < |entries| ==> r[i] == EntryCells(entries[i])[j]
  {
    seq(|entries|, i requires 0 <= i < |entries| => EntryCells(entries[i])[j])
  }

  /** The frame as read, every cell a text. */
  function AsCells(t: Frame<string>): (r: Frame<Cell>)
    ensures r.columns == t.columns && |r.rows| == |t.rows|
    ensures forall i, j :: 0 <= i < |t.rows| && 0 <= j < |t.columns| ==> r.rows[i][j] == Str(t.rows[i][j])
  {
    Table(t.columns, seq(|t.rows|, i requires 0 <= i < |t.rows| =>
      seq(|t.rows[i]|, j requires 0 <= j < |t.rows[i]| => Str(t.rows[i][j]))))
  }

  /** The values of the column called `name` (its first occurrence). */
  function Column<C>(t: Frame<C>, name: string): (r: seq<C>)
    requires name in t.columns
    ensures |r| == |t.rows|
  {
    var k := ListIndex(t.columns, name);
    seq(|t.rows|, i requires 0 <= i < |t.rows| => t.rows[i][k])
  }

  /** `df[name] = values`: an existing column is overwritten where it
      stands, a new one is added at the right. */
  function AssignColumn<C>(t: Frame<C>, name: string, values: seq<C>): (r: Frame<C>)
    requires |values| == |t.rows|
    ensures |r.rows| == |t.rows|
    ensures name in t.columns ==> r.columns == t.columns
    ensures name !in t.columns ==> r.columns == t.columns + [name]
  {
    if name in t.columns then
      var k := ListIndex(t.columns, name);
      Table(t.columns, seq(|t.rows|, i requires 0 <= i < |t.rows| => t.rows[i][k := values[i]]))
    else
      Table(t.columns + [name], seq(|t.rows|, i requires 0 <= i < |t.rows| => t.rows[i] + [values[i]]))
  }

  lemma ListIndexSnoc(xs: seq<string>, v: string, w: string)
    requires w in xs + [v]
    ensures w in xs ==> ListIndex(xs + [v], w) == ListIndex(xs, w)
    ensures w !in xs ==> ListIndex(xs + [v], w) == |xs|
  {
    var p := ListIndex(xs + [v], w);
    if w in xs {
      var q := ListIndex(xs, w);
      assert (xs + [v])[q] == w;
    } else {
      assert (xs + [v])[|xs|] == w;
    }
  }

  /** Reading a column after assigning it gives the assigned values, and
      every other column reads as before. */
  lemma AssignThenRead<C>(t: Frame<C>, name: string, values: seq<C>, other: string)
    requires |values| == |t.rows|
    ensures Column(AssignColumn(t, name, values), name) == values
    ensures other != name && other in t.columns ==>
      other in AssignColumn(t, name, values).columns &&
      Column(AssignColumn(t, name, values), other) == Column(t, other)
  {
    var r := AssignColumn(t, name, values);
    if name !in t.columns {
      ListIndexSnoc(t.columns, name, name);
      if other != name && other in t.columns {
        ListIndexSnoc(t.columns, name, other);
      }
    }
  }

  /** The four column assignments, in the order the scripts make them. */
  function WithColumns(t: Frame<string>, lonDms: seq<Cell>, latDms: seq<Cell>,
                       lonDec: seq<Cell>, latDec: seq<Cell>): (r: Frame<Cell>)
    requires |lonDms| == |t.rows| && |latDms| == |t.rows| && |lonDec| == |t.rows| && |latDec| == |t.rows|
    ensures |r.rows| == |t.rows|
  {
    AssignFour(AsCells(t), ResultNames[0], ResultNames[1], ResultNames[2], ResultNames[3],
               lonDms, latDms, lonDec, latDec)
  }

  /** The frame after four assignments. */
  function AssignFour<C>(u: Frame<C>, n0: string, n1: string, n2: string, n3: string,
                         v0: seq<C>, v1: seq<C>, v2: seq<C>, v3: seq<C>): (r: Frame<C>)
    requires |v0| == |u.rows| && |v1| == |u.rows| && |v2| == |u.rows| && |v3| == |u.rows|
    ensures |r.rows| == |u.rows|
  {
    AssignColumn(AssignColumn(AssignColumn(AssignColumn(u, n0, v0), n1, v1), n2, v2), n3, v3)
  }

  /** A column assigned earlier survives a later assignment under another name. */
  lemma AssignKeeps<C>(u: Frame<C>, name: string, values: seq<C>, other: string, col: seq<C>)
    requires |values| == |u.rows| && other != name && other in u.columns && Column(u, other) == col
    ensures other in AssignColumn(u, name, values).columns
    ensures Column(AssignColumn(u, name, values), other) == col
  {
    AssignThenRead(u, name, values, other);
  }

  /** Four assignments under four different names: each name reads as its values. */
  lemma AssignFourReads<C>(u: Frame<C>, n0: string, n1: string, n2: string, n3: string,
                           v0: seq<C>, v1: seq<C>, v2: seq<C>, v3: seq<C>)
    requires n0 != n1 && n0 != n2 && n0 != n3 && n1 != n2 && n1 != n3 && n2 != n3
    requires |v0| == |u.rows| && |v1| == |u.rows| && |v2| == |u.rows| && |v3| == |u.rows|
    ensures var r := AssignFour(u, n0, n1, n2, n3, v0, v1, v2, v3);
      && n0 in r.columns && n1 in r.columns && n2 in r.columns && n3 in r.columns
      && Column(r, n0) == v0 && Column(r, n1) == v1 && Column(r, n2) == v2 && Column(r, n3) == v3
  {
    var u1 := AssignColumn(u, n0, v0);
    var u2 := AssignColumn(u1, n1, v1);
    var u3 := AssignColumn(u2, n2, v2);
    AssignThenRead(u, n0, v0, n0);
    AssignThenRead(u1, n1, v1, n1);
    AssignThenRead(u2, n2, v2, n2);
    AssignThenRead(u3, n3, v3, n3);
    AssignKeeps(u1, n1, v1, n0, v0);
    AssignKeeps(u2, n2, v2, n0, v0);
    AssignKeeps(u3, n3, v3, n0, v0);
    AssignKeeps(u2, n2, v2, n1, v1);
    AssignKeeps(u3, n3, v3, n1, v1);
    AssignKeeps(u3, n3, v3, n2, v2);
  }

  /** Any other original column reads as before the four assignments. */
  lemma AssignFourKeeps<C>(u: Frame<C>, n0: string, n1: string, n2: string, n3: string,
                           v0: seq<C>, v1: seq<C>, v2: seq<C>, v3: seq<C>, other: string)
    requires |v0| == |u.rows| && |v1| == |u.rows| && |v2| == |u.rows| && |v3| == |u.rows|
    requires other in u.columns && other != n0 && other != n1 && other != n2 && other != n3
    ensures other in AssignFour(u, n0, n1, n2, n3, v0, v1, v2, v3).columns
    ensures Column(AssignFour(u, n0, n1, n2, n3, v0, v1, v2, v3), other) == Column(u, other)
  {
    var u1 := AssignColumn(u, n0, v0);
    var u2 := AssignColumn(u1, n1, v1);
    var u3 := AssignColumn(u2, n2, v2);
    AssignKeeps(u, n0, v0, other, Column(u, other));
    AssignKeeps(u1, n1, v1, other, Column(u, other));
    AssignKeeps(u2, n2, v2, other, Column(u, other));
    AssignKeeps(u3, n3, v3, other, Column(u, other));
  }

  /** Four new names are added, in order, at the right of the header. */
  lemma AssignFourHeader<C>(u: Frame<C>, n0: string, n1: string, n2: string, n3: string,
                            v0: seq<C>, v1: seq<C>, v2: seq<C>, v3: seq<C>)
    requires n0 != n1 && n0 != n2 && n0 != n3 && n1 != n2 && n1 != n3 && n2 != n3
    requires |v0| == |u.rows| && |v1| == |u.rows| && |v2| == |u.rows| && |v3| == |u.rows|
    requires n0 !in u.columns && n1 !in u.columns && n2 !in u.columns && n3 !in u.columns
    ensures AssignFour(u, n0, n1, n2, n3, v0, v1, v2, v3).columns == u.columns + [n0, n1, n2, n3]
  {
    var u1 := AssignColumn(u, n0, v0);
    var u2 := AssignColumn(u1, n1, v1);
    var u3 := AssignColumn(u2, n2, v2);
    assert n1 !in u1.columns;
    assert n2 !in u2.columns;
    assert n3 !in u3.columns;
  }

  /** With four new names, every row gains the four values at its right. */
  lemma AssignFourRows<C>(u: Frame<C>, n0: string, n1: string, n2: string, n3: string,
                          v0: seq<C>, v1: seq<C>, v2: seq<C>, v3: seq<C>, i: nat)
    requires n0 != n1 && n0 != n2 && n0 != n3 && n1 != n2 && n1 != n3 && n2 != n3
    requires |v0| == |u.rows| && |v1| == |u.rows| && |v2| == |u.rows| && |v3| == |u.rows|
    requires n0 !in u.columns && n1 !in u.columns && n2 !in u.columns && n3 !in u.columns
    requires i < |u.rows|
    ensures AssignFour(u, n0, n1, n2, n3, v0, v1, v2, v3).rows[i] == u.rows[i] + [v0[i], v1[i], v2[i], v3[i]]
  {
    var u1 := AssignColumn(u, n0, v0);
    var u2 := AssignColumn(u1, n1, v1);
    var u3 := AssignColumn(u2, n2, v2);
    assert n1 !in u1.columns;
    assert n2 !in u2.columns;
    assert n3 !in u3.columns;
    assert u1.rows[i] == u.rows[i] + [v0[i]];
    assert u2.rows[i] == u.rows[i] + [v0[i], v1[i]];
    assert u3.rows[i] == u.rows[i] + [v0[i], v1[i], v2[i]];
  }

  lemma ResultNamesDistinct()
    ensures ResultNames[0] != ResultNames[1] && ResultNames[0] != ResultNames[2] && ResultNames[0] != ResultNames[3]
    ensures ResultNames[1] != ResultNames[2] && ResultNames[1] != ResultNames[3] && ResultNames[2] != ResultNames[3]
  {}

  /** In the written frame each of the four names reads as its list. */
  lemma WithColumnsReads(t: Frame<string>, lonDms: seq<Cell>, latDms: seq<Cell>,
                         lonDec: seq<Cell>, latDec: seq<Cell>)
    requires |lonDms| == |t.rows| && |latDms| == |t.rows| && |lonDec| == |t.rows| && |latDec| == |t.rows|
    ensures var r := WithColumns(t, lonDms, latDms, lonDec, latDec);
      && (forall j :: 0 <= j < |ResultNames| ==> ResultNames[j] in r.columns)
      && Column(r, ResultNames[0]) == lonDms && Column(r, ResultNames[1]) == latDms
      && Column(r, ResultNames[2]) == lonDec && Column(r, ResultNames[3]) == latDec
  {
    ResultNamesDistinct();
    AssignFourReads(AsCells(t), ResultNames[0], ResultNames[1], ResultNames[2], ResultNames[3],
                    lonDms, latDms, lonDec, latDec);
  }

  /** Every original column not named like one of the four still reads as its text. */
  lemma WithColumnsKeeps(t: Frame<string>, lonDms: seq<Cell>, latDms: seq<Cell>,
                         lonDec: seq<Cell>, latDec: seq<Cell>, other: string)
    requires |lonDms| == |t.rows| && |latDms| == |t.rows| && |lonDec| == |t.rows| && |latDec| == |t.rows|
    requires other in t.columns && other !in ResultNames
    ensures other in WithColumns(t, lonDms, latDms, lonDec, latDec).columns
    ensures Column(WithColumns(t, lonDms, latDms, lonDec, latDec), other) == Column(AsCells(t), other)
  {
    AssignFourKeeps(AsCells(t), ResultNames[0], ResultNames[1], ResultNames[2], ResultNames[3],
                    lonDms, latDms, lonDec, latDec, other);
  }

  /** When none of the four names was in the header, they are added, in
      order, at its right. */
  lemma WithColumnsHeader(t: Frame<string>, lonDms: seq<Cell>, latDms: seq<Cell>,
                          lonDec: seq<Cell>, latDec: seq<Cell>)
    requires |lonDms| == |t.rows| && |latDms| == |t.rows| && |lonDec| == |t.rows| && |latDec| == |t.rows|
    requires forall j :: 0 <= j < |ResultNames| ==> ResultNames[j] !in t.columns
    ensures WithColumns(t, lonDms, latDms, lonDec, latDec).columns == t.columns + ResultNames
  {
    ResultNamesDistinct();
    AssignFourHeader(AsCells(t), ResultNames[0], ResultNames[1], ResultNames[2], ResultNames[3],
                     lonDms, latDms, lonDec, latDec);
    assert ResultNames == [ResultNames[0], ResultNames[1], ResultNames[2], ResultNames[3]];
  }

  // ---------------------------------------------------------------------
  // The row loop

  /** How a script turns row `i` of a frame with the given header into an
      entry. */
  type EntryFn = (seq<string>, nat, seq<string>) -> Entry

  function Entries(t: Frame<string>, entry: EntryFn): (r: seq<Entry>)
    ensures |r| == |t.rows|
    ensures forall i :: 0 <= i < |t.rows| ==> r[i] == entry(t.columns, i, t.rows[i])
  {
    seq(|t.rows|, i requires 0 <= i < |t.rows| => entry(t.columns, i, t.rows[i]))
  }

  /** The frame a script writes for `t`. */
  function Appended(t: Frame<string>, entry: EntryFn): Frame<Cell>
  {
    var es := Entries(t, entry);
    WithColumns(t, ResultColumn(es, 0), ResultColumn(es, 1), ResultColumn(es, 2), ResultColumn(es, 3))
  }

  /** With none of the four names in the header, the written frame keeps
      every original column and row, as text, and adds at the right of row
      `i` exactly the four values of its entry. */
  lemma AppendedRows(t: Frame<string>, entry: EntryFn, i: nat)
    requires forall j :: 0 <= j < |ResultNames| ==> ResultNames[j] !in t.columns
    requires i < |t.rows|
    ensures Appended(t, entry).columns == t.columns + ResultNames
    ensures Appended(t, entry).rows[i] == AsCells(t).rows[i] + EntryCells(entry(t.columns, i, t.rows[i]))
  {
    var es := Entries(t, entry);
    ResultNamesDistinct();
    WithColumnsHeader(t, ResultColumn(es, 0), ResultColumn(es, 1), ResultColumn(es, 2), ResultColumn(es, 3));
    AssignFourRows(AsCells(t), ResultNames[0], ResultNames[1], ResultNames[2], ResultNames[3],
                   ResultColumn(es, 0), ResultColumn(es, 1), ResultColumn(es, 2), ResultColumn(es, 3), i);
    var cells := EntryCells(es[i]);
    assert cells == [cells[0], cells[1], cells[2], cells[3]];
  }

  /** The j-th new column of the written frame holds, row by row, the
      j-th value of that row's entry. */
  lemma AppendedColumn(t: Frame<string>, entry: EntryFn, j: nat, i: nat)
    requires j < |ResultNames| && i < |t.rows|
    ensures ResultNames[j] in Appended(t, entry).columns
    ensures Column(Appended(t, entry), ResultNames[j])[i] == EntryCells(entry(t.columns, i, t.rows[i]))[j]
  {
    var es := Entries(t, entry);
    WithColumnsReads(t, ResultColumn(es, 0), ResultColumn(es, 1), ResultColumn(es, 2), ResultColumn(es, 3));
    assert Column(Appended(t, entry), ResultNames[j]) == ResultColumn(es, j) by {
      if j == 0 {
      } else if j == 1 {
      } else if j == 2 {
      } else {
      }
    }
  }

  /** The `for i, row in df.iterrows()` loop: one value appended to each of
      the four lists per row. */
  method CollectColumns(t: Frame<string>, entry: EntryFn)
    returns (lonDms: seq<Cell>, latDms: seq<Cell>, lonDec: seq<Cell>, latDec: seq<Cell>)
    ensures lonDms == ResultColumn(Entries(t, entry), 0)
    ensures latDms == ResultColumn(Entries(t, entry), 1)
    ensures lonDec == ResultColumn(Entries(t, entry), 2)
    ensures latDec == ResultColumn(Entries(t, entry), 3)
  {
    ghost var es := Entries(t, entry);
    lonDms, latDms, lonDec, latDec := [], [], [], [];
    for i := 0 to |t.rows|
      invariant lonDms == ResultColumn(es, 0)[..i]
      invariant latDms == ResultColumn(es, 1)[..i]
      invariant lonDec == ResultColumn(es, 2)[..i]
      invariant latDec == ResultColumn(es, 3)[..i]
    {
      var cells := EntryCells(entry(t.columns, i, t.rows[i]));
      assert cells == EntryCells(es[i]);
      PrefixSnoc(ResultColumn(es, 0), i, cells[0]);
      PrefixSnoc(ResultColumn(es, 1), i, cells[1]);
      PrefixSnoc(ResultColumn(es, 2), i, cells[2]);
      PrefixSnoc(ResultColumn(es, 3), i, cells[3]);
      lonDms := lonDms + [cells[0]];
      latDms := latDms + [cells[1]];
      lonDec := lonDec + [cells[2]];
      latDec := latDec + [cells[3]];
    }
  }

  // ---------------------------------------------------------------------
  // Files and the batch

  const OutputFolder: string := "convertido"

  /** One file: `read_csv(latin-1, ';')`, the row loop, the four columns,
      and `to_csv` to `convertido/<stem>_convertido.csv`. A read or a write
      that raises makes the file an error. */
  function AppendFileOutcome(file: CsvFile, entry: EntryFn, write: Writer<Cell>): FileOutcome<Cell>
  {
    match file.read(Latin1, ';')
    case None => FileFailed
    case Some(df) =>
      var u := Appended(df, entry);
      var d := Destination(OutputFolder, OutputName(file.name));
      if write(d, u) then FileWritten(file.name, d, u) else FileFailed
  }

  /** A file is written exactly when it reads and the write succeeds; it is
      then written under its own name, to `convertido/<stem>_convertido.csv`,
      as the frame read with the four columns of its rows' entries added
      (`Appended`: see `AppendedRows` and `AppendedColumn`). */
  lemma AppendFileMeaning(file: CsvFile, entry: EntryFn, write: Writer<Cell>)
    ensures AppendFileOutcome(file, entry, write).FileWritten? <==>
      file.read(Latin1, ';').Some? &&
      write(Destination(OutputFolder, OutputName(file.name)), Appended(file.read(Latin1, ';').value, entry))
    ensures AppendFileOutcome(file, entry, write).FileWritten? ==>
      var o := AppendFileOutcome(file, entry, write);
      var df := file.read(Latin1, ';').value;
      && o.name == file.name
      && o.dest == Destination(OutputFolder, OutputName(file.name))
      && o.table == Appended(df, entry)
      && |o.table.rows| == |df.rows|
      && forall j :: 0 <= j < |ResultNames| ==> ResultNames[j] in o.table.columns
  {
    if file.read(Latin1, ';').Some? {
      var df := file.read(Latin1, ';').value;
      var d := Destination(OutputFolder, OutputName(file.name));
      var es := Entries(df, entry);
      assert AppendFileOutcome(file, entry, write)
        == if write(d, Appended(df, entry)) then FileWritten(file.name, d, Appended(df, entry)) else FileFailed;
      WithColumnsReads(df, ResultColumn(es, 0), ResultColumn(es, 1), ResultColumn(es, 2), ResultColumn(es, 3));
    }
  }

  /** The body of the outer `try` for one file. */
  method AppendFile(file: CsvFile, entry: EntryFn, write: Writer<Cell>) returns (o: FileOutcome<Cell>)
    ensures o == AppendFileOutcome(file, entry, write)
  {
    var read := file.read(Latin1, ';');
    if read.None? {
      return FileFailed;
    }
    var df := read.value;
    var lonDms, latDms, lonDec, latDec := CollectColumns(df, entry);
    var u := WithColumns(df, lonDms, latDms, lonDec, latDec);
    var d := Destination(OutputFolder, OutputName(file.name));
    if write(d, u) {
      o := FileWritten(file.name, d, u);
    } else {
      o := FileFailed;
    }
  }

  /** How a script run ends: no CSV file in `csv/`, or the tally and what
      happened to each file. */
  datatype ScriptOutcome = NoCsvFiles | Finished(tally: Tally, outcomes: seq<FileOutcome<Cell>>)

  function AppendOutcomes(files: seq<CsvFile>, entry: EntryFn, write: Writer<Cell>): (r: seq<FileOutcome<Cell>>)
    ensures |r| == |files|
  {
    if files == [] then []
    else
      var n := |files| - 1;
      AppendOutcomes(files[..n], entry, write) + [AppendFileOutcome(files[n], entry, write)]
  }

  /** The outcome listed for the i-th file is that file's own outcome. */
  lemma {:induction false} AppendOutcomesAt(files: seq<CsvFile>, entry: EntryFn, write: Writer<Cell>, i: nat)
    requires i < |files|
    ensures AppendOutcomes(files, entry, write)[i] == AppendFileOutcome(files[i], entry, write)
  {
    var n := |files| - 1;
    var init := AppendOutcomes(files[..n], entry, write);
    var last := AppendFileOutcome(files[n], entry, write);
    assert AppendOutcomes(files, entry, write) == init + [last];
    if i < n {
      AppendOutcomesAt(files[..n], entry, write, i);
      assert files[..n][i] == files[i];
      assert (init + [last])[i] == init[i];
    } else {
      assert (init + [last])[i] == last;
    }
  }

  /** The reference definition of a script run over the listed files. */
  function AppendBatch(files: seq<CsvFile>, entry: EntryFn, write: Writer<Cell>): ScriptOutcome
  {
    if files == [] then NoCsvFiles
    else
      var outs := AppendOutcomes(files, entry, write);
      Finished(TallyOf(outs), outs)
  }

  /** The final counts: successes and errors add up to the number of files,
      and the successes are exactly the files that were written. */
  lemma AppendBatchTally(files: seq<CsvFile>, entry: EntryFn, write: Writer<Cell>)
    requires files != []
    ensures AppendBatch(files, entry, write).Finished?
    ensures var b := AppendBatch(files, entry, write);
      && b.tally.sucessos + b.tally.erros == |files|
      && b.tally.sucessos == |Written(b.outcomes)|
      && |b.outcomes| == |files|
  {}

  /** A script run: the check for an empty listing, then the file loop. */
  method RunScript(files: seq<CsvFile>, entry: EntryFn, write: Writer<Cell>) returns (r: ScriptOutcome)
    ensures r == AppendBatch(files, entry, write)
  {
    if files == [] {
      return NoCsvFiles;
    }
    var tally, outs := AppendEachFile(files, entry, write);
    r := Finished(tally, outs);
  }

  /** The `for arquivo_csv in arquivos_csv` loop with its two counters. */
  method AppendEachFile(files: seq<CsvFile>, entry: EntryFn, write: Writer<Cell>)
    returns (tally: Tally, outs: seq<FileOutcome<Cell>>)
    ensures outs == AppendOutcomes(files, entry, write) && tally == TallyOf(outs)
  {
    var sucessos, erros := 0, 0;
    outs := [];
    for i := 0 to |files|
      invariant outs == AppendOutcomes(files[..i], entry, write)
      invariant Tally(sucessos, erros) == TallyOf(outs)
    {
      var o := AppendFile(files[i], entry, write);
      if o.FileWritten? {
        sucessos := sucessos + 1;
      } else {
        erros := erros + 1;
      }
      TallySnoc(outs, o);
      assert files[..i + 1][..i] == files[..i];
      outs := outs + [o];
    }
    assert files[..|files|] == files;
    tally := Tally(sucessos, erros);
  }
}
