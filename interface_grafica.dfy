/** The non-GUI logic of interface_grafica.py: column letters, the
    Brazilian `48 04 35,347 W` rendering, the in-place rewrite of a table
    (`converter_coordenadas_df`), the encoding and separator probe
    (`carregar_arquivo_para_conversao`) and the batch loop with its
    counters (`converter_todos_arquivos`). */
module InterfaceGrafica {
  import opened Wrappers
  import opened Text
  import opened NumFmt
  import opened ConversorUtm
  import opened Tables

  // ---- column letters ----

  /** The letter's code point after upper-casing, minus that of 'A': a
      position for a one-character designator, None where `ord` raises
      because the upper-cased text is not a single character. */
  function ColumnIndex(designator: string): (r: Option<int>)
    ensures r.Some? <==> |designator| == 1
    ensures r.Some? ==> r.value == UpperChar(designator[0]) as int - 'A' as int
  {
    var u := Upper(designator);
    if |u| == 1 then Some(u[0] as int - 'A' as int) else None
  }

  /** The letter of column `k` (A is 0). */
  function ColumnLetter(k: nat): (c: char)
    requires k < 26
    ensures 'A' <= c <= 'Z'
  {
    ('A' as int + k) as char
  }

  /** Letters and positions are inverse to each other, in either case:
      the letter of `k`, upper or lower case, designates `k`, and every
      letter designates the column whose letter it is. */
  lemma ColumnLettersInvert(k: nat, c: char)
    requires k < 26
    ensures ColumnIndex([ColumnLetter(k)]) == Some(k)
    ensures ColumnIndex([LowerChar(ColumnLetter(k))]) == Some(k)
    ensures ('A' <= c <= 'Z' || 'a' <= c <= 'z') ==>
      0 <= ColumnIndex([c]).value < 26 && ColumnLetter(ColumnIndex([c]).value) == UpperChar(c)
  {
  }

  /** The settings' letters: A, B and D are columns 0, 1 and 3, lower case
      alike; an empty or two-letter designator is rejected. */
  lemma ColumnLetterExamples()
    ensures ColumnIndex("A") == Some(0) && ColumnIndex("B") == Some(1) && ColumnIndex("D") == Some(3)
    ensures ColumnIndex("b") == Some(1) && ColumnIndex("d") == Some(3)
    ensures ColumnIndex("AA") == None && ColumnIndex("") == None
  {
  }

  /** `iloc` positions: negative ones count from the end, anything outside
      `-width .. width - 1` raises IndexError. */
  function Resolve(idx: int, width: nat): (r: Option<nat>)
    ensures r.Some? <==> -(width as int) <= idx < width
    ensures r.Some? ==> r.value < width
    ensures r.Some? ==> (r.value == idx || r.value == idx + width)
  {
    if 0 <= idx < width then Some(idx)
    else if -(width as int) <= idx < 0 then Some(idx + width)
    else None
  }

  // ---- the Brazilian rendering ----

  /** The unsigned degrees, the minutes zero-padded to two digits and the
      seconds with three decimals, separated by spaces, with every point
      made a comma, followed by a space and the hemisphere letter: `negative` when the degrees are negative,
      `positive` otherwise. */
  function FormatBrazilian(v: Dms, positive: char, negative: char): string
  {
    ReplaceChar(NatToString(Abs(v.graus)) + " " + Pad2(v.minutos) + " " + FormatFixed(v.segundos, 3), '.', ',')
      + [' ', if v.graus < 0 then negative else positive]
  }

  /** What a Brazilian text reads back as. */
  datatype BrazilianAngle = BrazilianAngle(graus: nat, minutos: nat, segundos: real, direction: char)

  /** Reads `G MM S,SSS H`: unpadded digits up to the first space, two
      digits, a space, the seconds with a decimal comma (no point) and
      exactly three decimals, a space and one letter. */
  function DecodeBrazilian(t: string): Option<BrazilianAngle>
  {
    var k := IndexOf(t, ' ');
    if 0 < k && k + 6 <= |t| && t[k + 3] == ' ' && t[|t| - 2] == ' '
       && Canonical(t[..k]) && AllDigits(t[k + 1..k + 3]) && '.' !in t[k + 4..|t| - 2]
    then
      match DecodeFixed(ReplaceChar(t[k + 4..|t| - 2], ',', '.'), 3)
      case Some(s) => Some(BrazilianAngle(DigitsValue(t[..k]), DigitsValue(t[k + 1..k + 3]), s, t[|t| - 1]))
      case None => None
    else None
  }

  lemma BrazilianSlices(a: string, m2: string, f: string, h: char)
    requires a != [] && AllDigits(a) && |m2| == 2 && f != [] && ' ' !in f
    ensures var t := a + " " + m2 + " " + f + [' ', h];
      IndexOf(t, ' ') == |a| && |a| + 6 <= |t|
      && t[..|a|] == a && t[|a| + 1..|a| + 3] == m2 && t[|a| + 3] == ' '
      && t[|a| + 4..|t| - 2] == f && t[|t| - 2] == ' ' && t[|t| - 1] == h
  {
    var t := a + " " + m2 + " " + f + [' ', h];
    assert t == a + [' '] + (m2 + " " + f + [' ', h]);
    IndexOfConcat(a, ' ', m2 + " " + f + [' ', h]);
  }

  /** The decoder wants a decimal comma: a decimal point in the seconds is rejected. */
  lemma BrazilianPointRejected()
    ensures DecodeBrazilian("12 05 7.500 S") == None
  {
    var u := "12 05 7.500 S";
    assert IndexOf(u, ' ') == 2;
    assert u[6..|u| - 2][1] == '.';
  }

  /** Proof step: the swap leaves the digits of the degrees and minutes
      alone and reaches only the seconds. */
  lemma BrazilianPieces(v: Dms, positive: char, negative: char)
    requires 0 <= v.minutos <= 59
    ensures FormatBrazilian(v, positive, negative) ==
      NatToString(Abs(v.graus)) + " " + Pad2(v.minutos) + " " + ReplaceChar(FormatFixed(v.segundos, 3), '.', ',')
        + [' ', if v.graus < 0 then negative else positive]
  {
    var a := NatToString(Abs(v.graus)) + " " + Pad2(v.minutos) + " ";
    Pad2TwoDigits(v.minutos);
    assert '.' !in a by {
      assert forall k :: 0 <= k < |a| ==> IsDigit(a[k]) || a[k] == ' ';
    }
    ReplaceCharConcat(a, FormatFixed(v.segundos, 3), '.', ',');
    ReplaceCharAbsent(a, '.', ',');
  }

  /** Proof step: what the decoder makes of assembled pieces. */
  lemma DecodeAssembled(a: string, m2: string, fc: string, h: char)
    requires Canonical(a) && |m2| == 2 && AllDigits(m2) && fc != [] && ' ' !in fc && '.' !in fc
    ensures DecodeBrazilian(a + " " + m2 + " " + fc + [' ', h])
      == match DecodeFixed(ReplaceChar(fc, ',', '.'), 3)
         case Some(s) => Some(BrazilianAngle(DigitsValue(a), DigitsValue(m2), s, h))
         case None => None
  {
    BrazilianSlices(a, m2, fc, h);
  }

  /** The Brazilian text of a triple has the shape `DecodeBrazilian`
      accepts (unpadded degrees, two-digit minutes, seconds with a decimal
      comma and exactly three decimals), and it reads back to the degrees'
      magnitude, the minutes, the seconds rounded to three decimals and the
      hemisphere letter chosen by the sign of the degrees. */
  lemma FormatBrazilianRoundTrip(v: Dms, positive: char, negative: char)
    requires 0 <= v.minutos <= 59
    ensures DecodeBrazilian(FormatBrazilian(v, positive, negative))
      == Some(BrazilianAngle(Abs(v.graus), v.minutos, Rounded(v.segundos, 3),
                             if v.graus < 0 then negative else positive))
  {
    var f := FormatFixed(v.segundos, 3);
    var fc := ReplaceChar(f, '.', ',');
    var h := if v.graus < 0 then negative else positive;
    BrazilianPieces(v, positive, negative);
    FormatFixedAlphabet(v.segundos, 3);
    FixedDigitsChars(ScaledMagnitude(v.segundos, 3), 3);
    assert ' ' !in fc && ',' !in f && '.' !in fc;
    Pad2TwoDigits(v.minutos);
    NatToStringRoundTrip(Abs(v.graus));
    DecodeAssembled(NatToString(Abs(v.graus)), Pad2(v.minutos), fc, h);
    ReplaceCharUndo(f, '.', ',');
    FormatFixedRoundTrip(v.segundos, 3);
  }

  /** The Brazilian text of a longitude (E/W) or latitude (N/S) `d`: its
      letter is the negative one exactly when `d <= -1` (so a value in
      (-1, 0) is labelled E or N), and it reads back to a magnitude within
      half of 1/1000 of a second of `|d|`. */
  lemma BrazilianTextOfAngle(d: real, positive: char, negative: char)
    ensures var back := DecodeBrazilian(FormatBrazilian(ToDms(d), positive, negative));
      && back.Some?
      && (back.value.direction == (if d <= -1.0 then negative else positive))
      && Near(DmsMagnitude(Dms(back.value.graus, back.value.minutos, back.value.segundos)), RealAbs(d), SecondsTolerance(3))
  {
    var t := ToDms(d);
    ToDmsSign(d);
    FormatBrazilianRoundTrip(t, positive, negative);
    RoundedSecondsClose(t, Dms(t.graus, t.minutos, Rounded(t.segundos, 3)), 3);
    assert DmsMagnitude(Dms(Abs(t.graus), t.minutos, Rounded(t.segundos, 3)))
      == DmsMagnitude(Dms(t.graus, t.minutos, Rounded(t.segundos, 3)));
  }

  // ---- converter_coordenadas_df ----

  /** What one data row comes to: kept as it is (an empty value or a
      number `float` rejects: ValueError, caught by the row handler), both
      cells rewritten, or the whole table abandoned (the projection's plain
      Exception, which the row handler does not catch). */
  datatype RowStep = Keep | Rewrite(lon: string, lat: string) | Abort

  function RowStepOf(c: Converter, project: Projector, parse: Parser, cellX: string, cellY: string): RowStep
  {
    var vx, vy := Normalize(cellX), Normalize(cellY);
    if vx == [] || vy == [] then Keep
    else match (parse(vx), parse(vy))
      case (Some(x), Some(y)) =>
        (match ConvertUtmToDms(c, project, x, y, None, None)
         case None => Abort
         case Some(res) =>
           Rewrite(FormatBrazilian(ToDms(res.longitudeDec), 'E', 'W'),
                   FormatBrazilian(ToDms(res.latitudeDec), 'N', 'S')))
      case _ => Keep
  }

  /** A row whose normalised X or Y text is empty, or does not parse, is kept. */
  lemma UnreadableRowIsKept(c: Converter, project: Projector, parse: Parser, cellX: string, cellY: string)
    requires Normalize(cellX) == [] || Normalize(cellY) == []
      || parse(Normalize(cellX)).None? || parse(Normalize(cellY)).None?
    ensures RowStepOf(c, project, parse, cellX, cellY) == Keep
  {
  }

  /** A row is abandoned exactly when both values parse and the
      projection fails; it is rewritten exactly when both values parse and
      the projection succeeds, and then with the Brazilian texts of the
      projected longitude and latitude. */
  lemma RowStepMeaning(c: Converter, project: Projector, parse: Parser, cellX: string, cellY: string)
    ensures var vx, vy := Normalize(cellX), Normalize(cellY);
      RowStepOf(c, project, parse, cellX, cellY).Abort? <==>
        (vx != [] && vy != [] && parse(vx).Some? && parse(vy).Some?
         && UtmToGeographic(c, project, parse(vx).value, parse(vy).value, None, None).None?)
    ensures var vx, vy := Normalize(cellX), Normalize(cellY);
      RowStepOf(c, project, parse, cellX, cellY).Rewrite? ==>
        && vx != [] && vy != [] && parse(vx).Some? && parse(vy).Some?
        && var g := UtmToGeographic(c, project, parse(vx).value, parse(vy).value, None, None);
           && g.Some?
           && RowStepOf(c, project, parse, cellX, cellY).lon == FormatBrazilian(ToDms(g.value.0), 'E', 'W')
           && RowStepOf(c, project, parse, cellX, cellY).lat == FormatBrazilian(ToDms(g.value.1), 'N', 'S')
    ensures var vx, vy := Normalize(cellX), Normalize(cellY);
      vx != [] && vy != [] && parse(vx).Some? && parse(vy).Some?
      && UtmToGeographic(c, project, parse(vx).value, parse(vy).value, None, None).Some? ==>
        var g := UtmToGeographic(c, project, parse(vx).value, parse(vy).value, None, None).value;
        RowStepOf(c, project, parse, cellX, cellY)
          == Rewrite(FormatBrazilian(ToDms(g.0), 'E', 'W'), FormatBrazilian(ToDms(g.1), 'N', 'S'))
  {
  }

  /** The row after its step: X cell first, then Y cell, so when both
      letters name one column the latitude is what stays. */
  function ApplyStep(row: seq<string>, step: RowStep, ix: nat, iy: nat): (r: seq<string>)
    requires ix < |row| && iy < |row|
    ensures |r| == |row|
  {
    match step
    case Rewrite(lo, la) => row[ix := lo][iy := la]
    case _ => row
  }

  /** How a row's X and Y cells decide its step. */
  type StepFn = (string, string) -> RowStep

  /** The row handler of `converter_coordenadas_df` with its converter,
      projection and parser fixed. */
  function RowStepper(c: Converter, project: Projector, parse: Parser): StepFn
  {
    (x, y) => RowStepOf(c, project, parse, x, y)
  }

  /** The step of every data row when X and Y sit at `ix` and `iy`. */
  function Steps(t: Frame<string>, ix: nat, iy: nat, step: StepFn): (r: seq<RowStep>)
    requires ix < |t.columns| && iy < |t.columns|
    ensures |r| == |t.rows|
    ensures forall i :: 0 <= i < |t.rows| ==> r[i] == step(t.rows[i][ix], t.rows[i][iy])
  {
    seq(|t.rows|, i requires 0 <= i < |t.rows| => step(t.rows[i][ix], t.rows[i][iy]))
  }

  /** The outcome of `converter_coordenadas_df`: the rewritten copy, or the
      exception that ends it. */
  datatype InPlace = Converted(table: Frame<string>) | Failed

  /** Every row from 1 on replaced by its step; row 0 as it was. */
  function RewriteRows(rows: seq<seq<string>>, width: nat, steps: seq<RowStep>, ix: nat, iy: nat): (r: seq<seq<string>>)
    requires ix < width && iy < width && |steps| == |rows|
    requires forall k :: 0 <= k < |rows| ==> |rows[k]| == width
    ensures |r| == |rows| && forall k :: 0 <= k < |r| ==> |r[k]| == width
  {
    seq(|rows|, i requires 0 <= i < |rows| => if i == 0 then rows[0] else ApplyStep(rows[i], steps[i], ix, iy))
  }

  /** The row walk at fixed positions: Failed if a row from 1 on is
      abandoned, and else every row from 1 on replaced by its step. */
  function RewriteAt(t: Frame<string>, ix: nat, iy: nat, step: StepFn): InPlace
    requires ix < |t.columns| && iy < |t.columns|
  {
    var steps := Steps(t, ix, iy, step);
    if exists i :: 1 <= i < |steps| && steps[i].Abort? then Failed
    else Converted(Table(t.columns, RewriteRows(t.rows, |t.columns|, steps, ix, iy)))
  }

  /** The reference definition, for a row handler `step`: invalid letters
      fail; with at most one row nothing is read; otherwise positions out of
      range fail, and else the table is the row walk's. The handler of
      `converter_coordenadas_df` is `RowStepper` of its converter. */
  function InPlaceConversion(step: StepFn, t: Frame<string>, colX: string, colY: string): InPlace
  {
    match (ColumnIndex(colX), ColumnIndex(colY))
    case (Some(ax), Some(ay)) =>
      if |t.rows| <= 1 then Converted(t)
      else
        (match (Resolve(ax, |t.columns|), Resolve(ay, |t.columns|))
         case (Some(ix), Some(iy)) => RewriteAt(t, ix, iy, step)
         case _ => Failed)
    case _ => Failed
  }

  /** The `for i, row in df.iterrows()` loop over the copy: row 0 skipped,
      each later row kept, overwritten in its X then its Y cell, or the walk
      abandoned. */
  method RewriteInPlace(t: Frame<string>, ix: nat, iy: nat, step: StepFn) returns (r: InPlace)
    requires ix < |t.columns| && iy < |t.columns|
    ensures r == RewriteAt(t, ix, iy, step)
  {
    ghost var steps := Steps(t, ix, iy, step);
    var rows := t.rows;
    var i := 0;
    while i < |t.rows|
      invariant 0 <= i <= |t.rows| && |rows| == |t.rows|
      invariant forall k :: 0 <= k < |t.rows| ==>
        rows[k] == if 1 <= k < i then ApplyStep(t.rows[k], steps[k], ix, iy) else t.rows[k]
      invariant forall k :: 1 <= k < i ==> !steps[k].Abort?
    {
      if i == 0 {
        i := i + 1;
        continue;
      }
      assert steps[i] == step(t.rows[i][ix], t.rows[i][iy]);
      match step(t.rows[i][ix], t.rows[i][iy]) {
        case Abort =>
          return Failed;
        case Keep =>
        case Rewrite(lo, la) =>
          rows := rows[i := rows[i][ix := lo][iy := la]];
      }
      i := i + 1;
    }
    assert rows == RewriteRows(t.rows, |t.columns|, steps, ix, iy);
    r := Converted(Table(t.columns, rows));
  }

  /** Every way `converter_coordenadas_df` ends before the row walk:
      an invalid letter raises, a table with at most one row comes back
      unchanged, and a position outside the row raises on row 1. */
  lemma InPlaceBeforeTheWalk(step: StepFn, t: Frame<string>, colX: string, colY: string)
    ensures (ColumnIndex(colX).None? || ColumnIndex(colY).None?) ==>
      InPlaceConversion(step, t, colX, colY) == Failed
    ensures ColumnIndex(colX).Some? && ColumnIndex(colY).Some? && |t.rows| <= 1 ==>
      InPlaceConversion(step, t, colX, colY) == Converted(t)
    ensures ColumnIndex(colX).Some? && ColumnIndex(colY).Some? && |t.rows| > 1 &&
            (Resolve(ColumnIndex(colX).value, |t.columns|).None? ||
             Resolve(ColumnIndex(colY).value, |t.columns|).None?) ==>
      InPlaceConversion(step, t, colX, colY) == Failed
  {}

  /** With both letters resolved to positions `ix` and `iy` of a table of
      two or more rows: the conversion fails exactly when the handler
      abandons some data row (for `RowStepper`, when its cells parse but
      the projection fails: `RowStepMeaning`), and otherwise every data row is kept or overwritten in its X
      and Y cells only, row 0 and the header untouched. */
  lemma InPlaceAtPositions(step: StepFn, t: Frame<string>, colX: string, colY: string,
                           ix: nat, iy: nat)
    requires |t.rows| > 1
    requires ColumnIndex(colX).Some? && Resolve(ColumnIndex(colX).value, |t.columns|) == Some(ix)
    requires ColumnIndex(colY).Some? && Resolve(ColumnIndex(colY).value, |t.columns|) == Some(iy)
    ensures InPlaceConversion(step, t, colX, colY).Failed? <==>
      exists i :: 1 <= i < |t.rows| && step(t.rows[i][ix], t.rows[i][iy]).Abort?
    ensures InPlaceConversion(step, t, colX, colY).Converted? ==>
      var u := InPlaceConversion(step, t, colX, colY).table;
      && u.columns == t.columns
      && |u.rows| == |t.rows|
      && u.rows[0] == t.rows[0]
      && forall i :: 1 <= i < |t.rows| ==>
           match step(t.rows[i][ix], t.rows[i][iy])
           case Keep => u.rows[i] == t.rows[i]
           case Rewrite(lo, la) => u.rows[i] == t.rows[i][ix := lo][iy := la]
           case Abort => false
  {
    var steps := Steps(t, ix, iy, step);
    if !exists i :: 1 <= i < |steps| && steps[i].Abort? {
      var u := RewriteAt(t, ix, iy, step).table;
      forall i | 1 <= i < |t.rows|
        ensures match step(t.rows[i][ix], t.rows[i][iy])
                case Keep => u.rows[i] == t.rows[i]
                case Rewrite(lo, la) => u.rows[i] == t.rows[i][ix := lo][iy := la]
                case Abort => false
      {
        assert u.rows[i] == ApplyStep(t.rows[i], steps[i], ix, iy);
        assert !steps[i].Abort?;
      }
    }
  }

  /** Only the X and Y cells of the data rows can differ from the input. */
  lemma InPlaceTouchesOnlyCoordinates(step: StepFn, t: Frame<string>, colX: string, colY: string,
                                      ix: nat, iy: nat, i: nat, j: nat)
    requires |t.rows| > 1
    requires ColumnIndex(colX).Some? && Resolve(ColumnIndex(colX).value, |t.columns|) == Some(ix)
    requires ColumnIndex(colY).Some? && Resolve(ColumnIndex(colY).value, |t.columns|) == Some(iy)
    requires InPlaceConversion(step, t, colX, colY).Converted?
    requires i < |t.rows| && j < |t.columns|
    requires i == 0 || (j != ix && j != iy)
    ensures InPlaceConversion(step, t, colX, colY).table.rows[i][j] == t.rows[i][j]
  {
    InPlaceAtPositions(step, t, colX, colY, ix, iy);
    if i > 0 {
      var u := InPlaceConversion(step, t, colX, colY).table;
      match step(t.rows[i][ix], t.rows[i][iy])
      case Keep =>
      case Rewrite(lo, la) =>
        assert u.rows[i] == t.rows[i][ix := lo][iy := la];
      case Abort =>
    }
  }

  /** A rewritten row holds the Brazilian longitude text in its X cell
      (unless X and Y are the same column) and the latitude text in Y. */
  lemma RewrittenCellsHoldTheAngles(step: StepFn, t: Frame<string>, colX: string, colY: string,
                                    ix: nat, iy: nat, i: nat)
    requires |t.rows| > 1
    requires ColumnIndex(colX).Some? && Resolve(ColumnIndex(colX).value, |t.columns|) == Some(ix)
    requires ColumnIndex(colY).Some? && Resolve(ColumnIndex(colY).value, |t.columns|) == Some(iy)
    requires InPlaceConversion(step, t, colX, colY).Converted?
    requires 1 <= i < |t.rows|
    requires step(t.rows[i][ix], t.rows[i][iy]).Rewrite?
    ensures var u := InPlaceConversion(step, t, colX, colY).table;
            var st := step(t.rows[i][ix], t.rows[i][iy]);
            && u.rows[i][iy] == st.lat
            && (ix != iy ==> u.rows[i][ix] == st.lon)
  {
    InPlaceAtPositions(step, t, colX, colY, ix, iy);
  }

  /** `converter_coordenadas_df(df, col_x, col_y)`: resolve the letters,
      then walk a copy of the rows with the row handler. */
  method ConvertCoordinates(c: Converter, project: Projector, parse: Parser,
                            t: Frame<string>, colX: string, colY: string) returns (r: InPlace)
    ensures r == InPlaceConversion(RowStepper(c, project, parse), t, colX, colY)
  {
    var ax := ColumnIndex(colX);
    var ay := ColumnIndex(colY);
    if ax.None? || ay.None? {
      return Failed;
    }
    if |t.rows| <= 1 {
      // row 0 is skipped before anything is read
      return Converted(t);
    }
    // row 1 is the first to read its cells, so an out-of-range position raises there
    var rx := Resolve(ax.value, |t.columns|);
    var ry := Resolve(ay.value, |t.columns|);
    if rx.None? || ry.None? {
      return Failed;
    }
    r := RewriteInPlace(t, rx.value, ry.value, RowStepper(c, project, parse));
  }

  // ---------------------------------------------------------------------
  // Loading a file: five encodings times three separators

  const Encodings: seq<Encoding> := [Latin1, Cp1252, Utf8, Utf8Sig, Iso88591]
  const Separators: seq<char> := [';', ',', '\t']

  /** A read that does not raise and yields more than one column. */
  predicate Loads(read: Reader, e: Encoding, sep: char)
  {
    read(e, sep).Some? && |read(e, sep).value.columns| > 1
  }

  /** The k-th attempt of the nested loops: encoding-major, separators inner. */
  function Attempt(k: nat): (Encoding, char)
    requires k < |Encodings| * |Separators|
  {
    (Encodings[k / |Separators|], Separators[k % |Separators|])
  }

  /** The first attempt from `k` on that loads. */
  function FirstLoading(read: Reader, k: nat): (r: Option<nat>)
    decreases |Encodings| * |Separators| - k
    ensures r.Some? ==> k <= r.value < |Encodings| * |Separators|
  {
    if k >= |Encodings| * |Separators| then None
    else if Loads(read, Attempt(k).0, Attempt(k).1) then Some(k)
    else FirstLoading(read, k + 1)
  }

  /** `carregar_arquivo_para_conversao`: the table of the first attempt
      that loads, or None when none does. */
  function Probe(read: Reader): Option<Frame<string>>
  {
    match FirstLoading(read, 0)
    case None => None
    case Some(k) => read(Attempt(k).0, Attempt(k).1)
  }

  lemma {:induction false} FirstLoadingNone(read: Reader, k: nat)
    ensures FirstLoading(read, k).None? <==>
      forall j :: k <= j < |Encodings| * |Separators| ==> !Loads(read, Attempt(j).0, Attempt(j).1)
    decreases |Encodings| * |Separators| - k
  {
    if k < |Encodings| * |Separators| && !Loads(read, Attempt(k).0, Attempt(k).1) {
      FirstLoadingNone(read, k + 1);
      if FirstLoading(read, k).None? {
        forall j | k <= j < |Encodings| * |Separators| ensures !Loads(read, Attempt(j).0, Attempt(j).1) {
          if j == k {
          }
        }
      }
    }
  }

  lemma {:induction false} FirstLoadingSome(read: Reader, k: nat)
    ensures FirstLoading(read, k).Some? ==>
      var n := FirstLoading(read, k).value;
      && Loads(read, Attempt(n).0, Attempt(n).1)
      && forall j :: k <= j < n ==> !Loads(read, Attempt(j).0, Attempt(j).1)
    decreases |Encodings| * |Separators| - k
  {
    if k < |Encodings| * |Separators| && !Loads(read, Attempt(k).0, Attempt(k).1) {
      FirstLoadingSome(read, k + 1);
      if FirstLoading(read, k).Some? {
        var n := FirstLoading(read, k).value;
        forall j | k <= j < n ensures !Loads(read, Attempt(j).0, Attempt(j).1) {
          if j == k {
          }
        }
      }
    }
  }

  lemma AttemptOf(a: nat, b: nat)
    requires a < |Encodings| && b < |Separators|
    ensures a * |Separators| + b < |Encodings| * |Separators|
    ensures Attempt(a * |Separators| + b) == (Encodings[a], Separators[b])
  {}

  /** Attempts that do not load can be skipped. */
  lemma {:induction false} FirstLoadingSkips(read: Reader, k: nat, n: nat)
    requires k <= n
    requires forall j :: k <= j < n && j < |Encodings| * |Separators| ==> !Loads(read, Attempt(j).0, Attempt(j).1)
    ensures FirstLoading(read, k) == FirstLoading(read, n)
    decreases n - k
  {
    if k < n {
      FirstLoadingSkips(read, k + 1, n);
    }
  }

  /** The probe fails exactly when no attempt loads; otherwise it returns
      a table of more than one column, read by the first attempt that loads. */
  lemma ProbeCharacterised(read: Reader)
    ensures Probe(read).None? <==>
      forall k :: 0 <= k < |Encodings| * |Separators| ==> !Loads(read, Attempt(k).0, Attempt(k).1)
    ensures Probe(read).Some? ==>
      exists k :: 0 <= k < |Encodings| * |Separators|
        && Probe(read) == read(Attempt(k).0, Attempt(k).1)
        && |Probe(read).value.columns| > 1
        && forall j :: 0 <= j < k ==> !Loads(read, Attempt(j).0, Attempt(j).1)
  {
    FirstLoadingNone(read, 0);
    FirstLoadingSome(read, 0);
    if FirstLoading(read, 0).Some? {
      var k := FirstLoading(read, 0).value;
      assert Probe(read) == read(Attempt(k).0, Attempt(k).1);
    }
  }

  /** Attempt order is the nested loops' order: encoding `a` with separator
      `b` comes before `a2` with `b2` exactly when `a < a2`, or `a == a2`
      and `b < b2`. */
  lemma AttemptOrder(a: nat, b: nat, a2: nat, b2: nat)
    requires a < |Encodings| && b < |Separators| && a2 < |Encodings| && b2 < |Separators|
    ensures a * |Separators| + b < a2 * |Separators| + b2 <==> (a < a2 || (a == a2 && b < b2))
  {}

  /** The nested `for encoding … for sep …` loops of
      `carregar_arquivo_para_conversao`, returning the first table of more
      than one column; a read that raises is skipped. */
  method LoadForConversion(file: CsvFile) returns (r: Option<Frame<string>>)
    ensures r == Probe(file.read)
  {
    for a := 0 to |Encodings|
      invariant forall j :: 0 <= j < a * |Separators| ==> !Loads(file.read, Attempt(j).0, Attempt(j).1)
    {
      for b := 0 to |Separators|
        invariant forall j :: 0 <= j < a * |Separators| + b ==> !Loads(file.read, Attempt(j).0, Attempt(j).1)
      {
        AttemptOf(a, b);
        var df := file.read(Encodings[a], Separators[b]);
        if df.Some? && |df.value.columns| > 1 {
          FirstLoadingSkips(file.read, 0, a * |Separators| + b);
          return df;
        }
        forall j | 0 <= j < a * |Separators| + b + 1 ensures !Loads(file.read, Attempt(j).0, Attempt(j).1) {
          if j == a * |Separators| + b {
          }
        }
      }
    }
    FirstLoadingSkips(file.read, 0, |Encodings| * |Separators|);
    return None;
  }

  // ---------------------------------------------------------------------
  // The batch: `converter_todos_arquivos`

  /** How the batch ends: one of its guards, or the tally, the names of the
      converted files and what happened to each file. */
  datatype BatchOutcome =
    | MissingSource
    | MissingDestination
    | MissingColumns
    | NoCsvFiles
    | Cancelled
    | Completed(tally: Tally, processed: seq<string>, outcomes: seq<FileOutcome<string>>)

  /** One file: loaded by the probe, converted in place, and written as
      `<stem>_convertido.csv` in the destination folder. Any failure on
      the way (no loading combination, the conversion raising, the write
      raising) makes it an error. */
  function FileOutcomeOf(step: StepFn, file: CsvFile, colX: string, colY: string,
                         destino: string, write: Writer<string>): FileOutcome<string>
  {
    match Probe(file.read)
    case None => FileFailed
    case Some(df) =>
      match InPlaceConversion(step, df, colX, colY)
      case Failed => FileFailed
      case Converted(u) =>
        var d := Destination(destino, OutputName(file.name));
        if write(d, u) then FileWritten(file.name, d, u) else FileFailed
  }

  function FileOutcomes(step: StepFn, files: seq<CsvFile>, colX: string, colY: string,
                        destino: string, write: Writer<string>): (r: seq<FileOutcome<string>>)
    ensures |r| == |files|
  {
    if files == [] then []
    else
      var n := |files| - 1;
      FileOutcomes(step, files[..n], colX, colY, destino, write) + [FileOutcomeOf(step, files[n], colX, colY, destino, write)]
  }

  /** The outcome listed for the i-th file is that file's own outcome. */
  lemma {:induction false} FileOutcomesAt(step: StepFn, files: seq<CsvFile>, colX: string, colY: string,
                                          destino: string, write: Writer<string>, i: nat)
    requires i < |files|
    ensures FileOutcomes(step, files, colX, colY, destino, write)[i] == FileOutcomeOf(step, files[i], colX, colY, destino, write)
  {
    var n := |files| - 1;
    var init := FileOutcomes(step, files[..n], colX, colY, destino, write);
    var last := FileOutcomeOf(step, files[n], colX, colY, destino, write);
    assert FileOutcomes(step, files, colX, colY, destino, write) == init + [last];
    if i < n {
      FileOutcomesAt(step, files[..n], colX, colY, destino, write, i);
      assert files[..n][i] == files[i];
      assert (init + [last])[i] == init[i];
    } else {
      assert (init + [last])[i] == last;
    }
  }

  /** The reference definition of the batch: the guards in the order the
      source checks them, then every file in glob order. */
  function BatchConversion(step: StepFn, origem: string, destino: string, colX: string, colY: string,
                           files: seq<CsvFile>, confirmed: bool, write: Writer<string>): BatchOutcome
  {
    if origem == [] then MissingSource
    else if destino == [] then MissingDestination
    else if colX == [] || colY == [] then MissingColumns
    else if files == [] then NoCsvFiles
    else if !confirmed then Cancelled
    else
      var outs := FileOutcomes(step, files, colX, colY, destino, write);
      Completed(TallyOf(outs), WrittenNames(outs), outs)
  }

  /** A file is written exactly when the probe loads it, the conversion
      returns a table and the write succeeds; it is then written, under its
      own name's stem, to the destination folder with the converted table. */
  lemma FileOutcomeMeaning(step: StepFn, file: CsvFile, colX: string, colY: string,
                           destino: string, write: Writer<string>)
    ensures FileOutcomeOf(step, file, colX, colY, destino, write).FileWritten? <==>
      && Probe(file.read).Some?
      && InPlaceConversion(step, Probe(file.read).value, colX, colY).Converted?
      && write(Destination(destino, OutputName(file.name)),
               InPlaceConversion(step, Probe(file.read).value, colX, colY).table)
    ensures FileOutcomeOf(step, file, colX, colY, destino, write).FileWritten? ==>
      var o := FileOutcomeOf(step, file, colX, colY, destino, write);
      && o.name == file.name
      && o.dest == Destination(destino, OutputName(file.name))
      && o.table == InPlaceConversion(step, Probe(file.read).value, colX, colY).table
      && |Probe(file.read).value.columns| > 1
  {
    ProbeCharacterised(file.read);
  }

  /** The final report: successes and errors add up to the number of
      files, and the listed names are, in order, those of the files that
      were written. */
  lemma BatchReport(step: StepFn, origem: string, destino: string, colX: string, colY: string,
                    files: seq<CsvFile>, confirmed: bool, write: Writer<string>)
    requires BatchConversion(step, origem, destino, colX, colY, files, confirmed, write).Completed?
    ensures var b := BatchConversion(step, origem, destino, colX, colY, files, confirmed, write);
      && |b.outcomes| == |files|
      && b.tally.sucessos + b.tally.erros == |files|
      && |b.processed| == b.tally.sucessos
      && b.processed == NamesWhereWritten(files, b.outcomes)
  {
    var outs := FileOutcomes(step, files, colX, colY, destino, write);
    forall i | 0 <= i < |outs| && outs[i].FileWritten?
      ensures outs[i].name == files[i].name
    {
      FileOutcomesAt(step, files, colX, colY, destino, write, i);
      FileOutcomeMeaning(step, files[i], colX, colY, destino, write);
    }
    WrittenNamesAreFileNames(files, outs);
  }

  /** The body of the `try` for one file: load, convert, write. */
  method ConvertFile(c: Converter, project: Projector, parse: Parser, file: CsvFile,
                     colX: string, colY: string, destino: string, write: Writer<string>)
    returns (o: FileOutcome<string>)
    ensures o == FileOutcomeOf(RowStepper(c, project, parse), file, colX, colY, destino, write)
    ensures o.FileWritten? ==> o.name == file.name
  {
    o := FileFailed;
    var df := LoadForConversion(file);
    if df.Some? {
      var converted := ConvertCoordinates(c, project, parse, df.value, colX, colY);
      if converted.Converted? {
        var d := Destination(destino, OutputName(file.name));
        if write(d, converted.table) {
          o := FileWritten(file.name, d, converted.table);
        }
      }
    }
  }

  /** The batch of `converter_todos_arquivos`, with the folder's CSV files
      and the user's confirmation as inputs and each file's write as an
      oracle. The window always passes its own converter, `DefaultConverter`;
      the contract holds for any converter. */
  method ConvertAllFiles(c: Converter, project: Projector, parse: Parser,
                         origem: string, destino: string, colX: string, colY: string,
                         files: seq<CsvFile>, confirmed: bool, write: Writer<string>)
    returns (r: BatchOutcome)
    ensures r == BatchConversion(RowStepper(c, project, parse), origem, destino, colX, colY, files, confirmed, write)
  {
    if origem == [] {
      return MissingSource;
    }
    if destino == [] {
      return MissingDestination;
    }
    if colX == [] || colY == [] {
      return MissingColumns;
    }
    if files == [] {
      return NoCsvFiles;
    }
    if !confirmed {
      return Cancelled;
    }
    var tally, processados, outs := ConvertEachFile(c, project, parse, files, colX, colY, destino, write);
    r := Completed(tally, processados, outs);
  }

  /** The `for arquivo_csv in arquivos_csv` loop with its two counters and
      the list of converted names. */
  method ConvertEachFile(c: Converter, project: Projector, parse: Parser, files: seq<CsvFile>,
                         colX: string, colY: string, destino: string, write: Writer<string>)
    returns (tally: Tally, processados: seq<string>, outs: seq<FileOutcome<string>>)
    ensures outs == FileOutcomes(RowStepper(c, project, parse), files, colX, colY, destino, write)
    ensures tally == TallyOf(outs) && processados == WrittenNames(outs)
  {
    ghost var step := RowStepper(c, project, parse);
    var sucessos, erros := 0, 0;
    processados := [];
    outs := [];
    for i := 0 to |files|
      invariant outs == FileOutcomes(step, files[..i], colX, colY, destino, write)
      invariant Tally(sucessos, erros) == TallyOf(outs)
      invariant processados == WrittenNames(outs)
    {
      var o := ConvertFile(c, project, parse, files[i], colX, colY, destino, write);
      if o.FileWritten? {
        sucessos := sucessos + 1;
        processados := processados + [o.name];
      } else {
        erros := erros + 1;
      }
      TallySnoc(outs, o);
      WrittenNamesSnoc(outs, o);
      assert files[..i + 1][..i] == files[..i];
      outs := outs + [o];
    }
    assert files[..|files|] == files;
    tally := Tally(sucessos, erros);
  }
}
