/** The converter of conversor_utm.py: the UTM inverse projection (a foreign
    call, passed in as a Projector), the split of decimal degrees into
    degrees, minutes and seconds, the `G° MM' S.SS"` rendering, their
    composition, and the header search of `detectar_colunas_utm`. */
module ConversorUtm {
  import opened Wrappers
  import opened Text
  import opened NumFmt

  /** The fields `ConversorUTM.__init__` stores; they are never changed
      afterwards, so the converter is a value. */
  datatype Converter = Converter(zonaUtm: int, hemisferio: string, datum: string)

  /** `ConversorUTM()` with its default arguments: zone 23, southern
      hemisphere, SIRGAS2000. The application window and both scripts
      build exactly this converter, passing the same values explicitly. */
  const DefaultConverter := Converter(23, "S", "SIRGAS2000")

  /** The arguments the source hands to `Proj(proj='utm', zone=..., ellps=..., south=...)`. */
  datatype ProjParams = ProjParams(zone: int, south: bool, ellps: string)

  /** pyproj's inverse projection: (easting, northing) to (longitude,
      latitude) in decimal degrees, or None where it raises. */
  type Projector = (ProjParams, real, real) -> Option<(real, real)>

  /** The projection settings `utm_para_geografica` uses: the per-call zone
      and hemisphere where given, the instance's otherwise; south exactly
      when the hemisphere is the string "S"; the ellipsoid is always GRS80. */
  function EffectiveParams(c: Converter, zona: Option<int>, hem: Option<string>): (r: ProjParams)
    ensures zona.Some? ==> r.zone == zona.value
    ensures zona.None? ==> r.zone == c.zonaUtm
    ensures hem.Some? ==> (r.south <==> hem.value == "S")
    ensures hem.None? ==> (r.south <==> c.hemisferio == "S")
    ensures r.ellps == "GRS80"
  {
    var zone := if zona.Some? then zona.value else c.zonaUtm;
    var h := if hem.Some? then hem.value else c.hemisferio;
    ProjParams(zone, h == "S", "GRS80")
  }

  /** `utm_para_geografica(utm_x, utm_y, zona_utm, hemisferio)`. */
  function UtmToGeographic(c: Converter, project: Projector, x: real, y: real,
                           zona: Option<int>, hem: Option<string>): Option<(real, real)>
  {
    project(EffectiveParams(c, zona, hem), x, y)
  }

  /** The stored datum never reaches the projection: two converters that
      differ only in their datum project alike. */
  lemma DatumIsIgnored(c: Converter, datum: string, project: Projector, x: real, y: real,
                       zona: Option<int>, hem: Option<string>)
    ensures UtmToGeographic(c, project, x, y, zona, hem)
      == UtmToGeographic(c.(datum := datum), project, x, y, zona, hem)
  {
  }

  /** With both per-call arguments given, the instance does not matter;
      with neither, the call is the one made with the instance's own values. */
  lemma PerCallArgumentsOverride(c: Converter, d: Converter, project: Projector, x: real, y: real,
                                 z: int, h: string)
    ensures UtmToGeographic(c, project, x, y, Some(z), Some(h))
      == UtmToGeographic(d, project, x, y, Some(z), Some(h))
    ensures UtmToGeographic(c, project, x, y, None, None)
      == UtmToGeographic(d, project, x, y, Some(c.zonaUtm), Some(c.hemisferio))
  {
  }

  /** A (degrees, minutes, seconds) triple; the sign lives on `graus` only. */
  datatype Dms = Dms(graus: int, minutos: int, segundos: real)

  function Abs(n: int): nat
  {
    if n < 0 then -n else n
  }

  /** `graus_decimais_para_dms`: `int()` of the magnitude (a floor, as the
      magnitude is not negative), minutes and seconds from what remains,
      and the sign of the input put back on the degrees. */
  function ToDms(d: real): (r: Dms)
    ensures 0 <= r.minutos <= 59
    ensures 0.0 <= r.segundos < 60.0
    ensures Abs(r.graus) as real + r.minutos as real / 60.0 + r.segundos / 3600.0 == RealAbs(d)
  {
    var sinal := if d >= 0.0 then 1 else -1;
    var a := RealAbs(d);
    var g := a.Floor;
    var minutosFloat := (a - g as real) * 60.0;
    var m := minutosFloat.Floor;
    var s := (minutosFloat - m as real) * 60.0;
    Dms(g * sinal, m, s)
  }

  /** The degrees are negative exactly for inputs at or below -1 and zero
      exactly for inputs strictly between -1 and 1: a value in (-1, 0)
      keeps its minutes and seconds but loses its sign. */
  lemma ToDmsSign(d: real)
    ensures ToDms(d).graus < 0 <==> d <= -1.0
    ensures ToDms(d).graus == 0 <==> -1.0 < d < 1.0
    ensures d >= 0.0 ==> ToDms(d).graus == d.Floor
    ensures d < 0.0 ==> ToDms(d).graus == -((-d).Floor)
  {
  }

  /** The magnitude a triple denotes. */
  function DmsMagnitude(v: Dms): real
  {
    Abs(v.graus) as real + v.minutos as real / 60.0 + v.segundos / 3600.0
  }

  /** What a triple denotes when its sign is read off the degrees. */
  function DmsValue(v: Dms): real
  {
    if v.graus < 0 then -DmsMagnitude(v) else DmsMagnitude(v)
  }

  /** Reading a triple back gives the input, except in (-1, 0), where it
      gives the input's magnitude. */
  lemma DmsValueRoundTrip(d: real)
    ensures -1.0 < d < 0.0 ==> DmsValue(ToDms(d)) == -d
    ensures !(-1.0 < d < 0.0) ==> DmsValue(ToDms(d)) == d
  {
    ToDmsSign(d);
  }

  const Degree: char := '\U{B0}'

  /** `formatar_dms`: the degrees as a plain integer, a degree sign and a
      space, the minutes zero-padded to two digits, an apostrophe and a
      space, the seconds with `casas` decimals (2 by default), and a
      closing double quote. */
  function FormatDms(g: int, m: int, s: real, casas: nat := 2): string
  {
    IntToString(g) + [Degree, ' '] + Pad2(m) + "' " + FormatFixed(s, casas) + "\""
  }

  /** Reads back a `G° MM' S.SS"` text with `casas` decimals of seconds:
      the unpadded integer before the first '°', two digits after "° ",
      then "' ", the seconds with exactly `casas` decimals, and a closing '"'. */
  function DecodeDms(t: string, casas: nat): Option<Dms>
  {
    var k := IndexOf(t, Degree);
    if k + 7 <= |t| && t[k..k + 2] == [Degree, ' '] && t[k + 4..k + 6] == "' "
       && t[|t| - 1] == '"' && AllDigits(t[k + 2..k + 4])
    then
      match (DecodeInt(t[..k]), DecodeFixed(t[k + 6..|t| - 1], casas))
      case (Some(g), Some(s)) => Some(Dms(g, DigitsValue(t[k + 2..k + 4]), s))
      case _ => None
    else None
  }

  lemma NoDegreeInInt(g: int)
    ensures Degree !in IntToString(g)
  {
    IntToStringRoundTrip(g);
  }

  lemma FormatDmsSlices(a: string, m2: string, f: string)
    requires Degree !in a && |m2| == 2
    ensures var t := a + [Degree, ' '] + m2 + "' " + f + "\"";
      IndexOf(t, Degree) == |a| && |a| + 7 <= |t|
      && t[..|a|] == a && t[|a|..|a| + 2] == [Degree, ' '] && t[|a| + 2..|a| + 4] == m2
      && t[|a| + 4..|a| + 6] == "' " && t[|a| + 6..|t| - 1] == f && t[|t| - 1] == '"'
  {
    var t := a + [Degree, ' '] + m2 + "' " + f + "\"";
    var rest := [' '] + m2 + "' " + f + "\"";
    assert t == a + [Degree] + rest;
    IndexOfConcat(a, Degree, rest);
    var u := t[|a| + 2..];
    assert u == m2 + "' " + f + "\"";
    assert u[..2] == m2 && u[2..4] == "' ";
    assert t[|a| + 2..|a| + 4] == u[..2];
    assert t[|a| + 4..|a| + 6] == u[2..4];
    assert t[|a| + 6..|t| - 1] == u[4..|u| - 1] == f;
  }

  /** The rendering has the shape `DecodeDms` accepts, with exactly `casas`
      decimals of seconds, and it is read back to the same degrees and
      minutes and to the seconds rounded to `casas` decimals. */
  lemma FormatDmsRoundTrip(g: int, m: int, s: real, casas: nat)
    requires 0 <= m <= 59
    ensures DecodeDms(FormatDms(g, m, s, casas), casas) == Some(Dms(g, m, Rounded(s, casas)))
  {
    NoDegreeInInt(g);
    Pad2TwoDigits(m);
    FormatDmsSlices(IntToString(g), Pad2(m), FormatFixed(s, casas));
    IntToStringRoundTrip(g);
    FormatFixedRoundTrip(s, casas);
  }

  /** The dictionary `converter_utm_para_dms` returns. */
  datatype ConverterResult = ConverterResult(
    longitudeDms: string, latitudeDms: string, longitudeDec: real, latitudeDec: real)

  /** `converter_utm_para_dms`: project, split both angles, format both with
      two decimals of seconds; None where the projection raises. */
  function ConvertUtmToDms(c: Converter, project: Projector, x: real, y: real,
                           zona: Option<int>, hem: Option<string>): (r: Option<ConverterResult>)
    ensures r.None? <==> UtmToGeographic(c, project, x, y, zona, hem).None?
    ensures r.Some? ==>
      var (lon, lat) := UtmToGeographic(c, project, x, y, zona, hem).value;
      && r.value.longitudeDec == lon && r.value.latitudeDec == lat
      && r.value.longitudeDms == FormatDms(ToDms(lon).graus, ToDms(lon).minutos, ToDms(lon).segundos)
      && r.value.latitudeDms == FormatDms(ToDms(lat).graus, ToDms(lat).minutos, ToDms(lat).segundos)
  {
    match UtmToGeographic(c, project, x, y, zona, hem)
    case None => None
    case Some((lon, lat)) =>
      var lo, la := ToDms(lon), ToDms(lat);
      Some(ConverterResult(FormatDms(lo.graus, lo.minutos, lo.segundos),
                           FormatDms(la.graus, la.minutos, la.segundos), lon, lat))
  }

  lemma SecondsErrorScales(g: real, m: real, s: real, s2: real, a: real, h: real)
    requires g + m / 60.0 + s / 3600.0 == a
    requires Near(s2, s, h)
    ensures Near(g + m / 60.0 + s2 / 3600.0, a, h / 3600.0)
  {
  }

  /** Half a unit of the `p`-th decimal of a second, in degrees. */
  function SecondsTolerance(p: nat): real
  {
    HalfUnit(p) / 3600.0
  }

  /** Rounding the seconds to `p` decimals moves the magnitude by at most
      half a unit of the last decimal of a second. */
  lemma RoundedSecondsClose(t: Dms, b: Dms, p: nat)
    requires b == Dms(t.graus, t.minutos, Rounded(t.segundos, p))
    ensures Near(DmsMagnitude(b), DmsMagnitude(t), SecondsTolerance(p))
  {
    RoundedClose(t.segundos, p);
    SecondsErrorScales(Abs(t.graus) as real, t.minutos as real, t.segundos, b.segundos,
                       DmsMagnitude(t), HalfUnit(p));
  }

  /** A triple with minutes in range, once rendered with `p` decimals and
      read back, keeps its degrees and minutes and moves its magnitude by at
      most the rounding of its seconds. */
  lemma RenderedTripleClose(t: Dms, p: nat)
    requires 0 <= t.minutos <= 59
    ensures var back := DecodeDms(FormatDms(t.graus, t.minutos, t.segundos, p), p);
      && back.Some?
      && back.value.graus == t.graus && back.value.minutos == t.minutos
      && Near(DmsMagnitude(back.value), DmsMagnitude(t), SecondsTolerance(p))
  {
    FormatDmsRoundTrip(t.graus, t.minutos, t.segundos, p);
    RoundedSecondsClose(t, Dms(t.graus, t.minutos, Rounded(t.segundos, p)), p);
  }

  /** A DMS text the converter writes is read back to the same degrees and
      minutes, and to a triple whose magnitude is the decimal angle's
      magnitude to within the rounding of the seconds (half of 1/100 of a
      second). */
  lemma DmsTextApproximatesAngle(d: real)
    ensures var t := ToDms(d);
      var back := DecodeDms(FormatDms(t.graus, t.minutos, t.segundos), 2);
      && back.Some?
      && back.value.graus == t.graus && back.value.minutos == t.minutos
      && Near(DmsMagnitude(back.value), RealAbs(d), SecondsTolerance(2))
  {
    RenderedTripleClose(ToDms(d), 2);
  }

  // ---- detectar_colunas_utm ----

  const XPatterns: seq<string> := ["x", "easting", "este", "e", "utm_x", "coord_x"]
  const YPatterns: seq<string> := ["y", "northing", "norte", "n", "utm_y", "coord_y"]
  const ZonePatterns: seq<string> := ["zona", "zone", "utm_zone", "fuso"]

  /** `df.columns.str.lower()`. */
  function LowerAll(columns: seq<string>): (r: seq<string>)
    ensures |r| == |columns|
    ensures forall k :: 0 <= k < |r| ==> r[k] == Lower(columns[k])
  {
    if columns == [] then [] else [Lower(columns[0])] + LowerAll(columns[1..])
  }

  /** The header names (already lower-cased) that contain `pattern`. */
  function Matches(cols: seq<string>, pattern: string): (r: seq<string>)
    ensures forall c :: c in r ==> c in cols && Contains(c, pattern)
    ensures forall c :: c in cols && Contains(c, pattern) ==> c in r
  {
    if cols == [] then []
    else (if Contains(cols[0], pattern) then [cols[0]] else []) + Matches(cols[1..], pattern)
  }

  /** `list.index(v)`: the position of the first element equal to `v`. */
  function ListIndex(xs: seq<string>, v: string): (r: nat)
    requires v in xs
    ensures r < |xs| && xs[r] == v
    ensures forall k :: 0 <= k < r ==> xs[k] != v
  {
    if xs[0] == v then 0 else 1 + ListIndex(xs[1..], v)
  }

  /** The reference definition of one search step: the position of the
      leftmost column holding `pattern`, if any. */
  function LeftmostHolding(cols: seq<string>, pattern: string): (r: Option<nat>)
    ensures r.Some? ==> r.value < |cols| && Contains(cols[r.value], pattern)
    ensures r.Some? ==> forall k :: 0 <= k < r.value ==> !Contains(cols[k], pattern)
    ensures r.None? ==> forall k :: 0 <= k < |cols| ==> !Contains(cols[k], pattern)
  {
    if cols == [] then None
    else if Contains(cols[0], pattern) then Some(0)
    else match LeftmostHolding(cols[1..], pattern)
      case None => None
      case Some(j) => Some(j + 1)
  }

  /** The reference definition of a whole role: the first pattern, in list
      order, that some column holds decides, and its leftmost column wins. */
  function RoleColumn(cols: seq<string>, patterns: seq<string>): (r: Option<nat>)
    ensures r.Some? ==> r.value < |cols|
  {
    if patterns == [] then None
    else match LeftmostHolding(cols, patterns[0])
      case Some(j) => Some(j)
      case None => RoleColumn(cols, patterns[1..])
  }

  /** The first match is found again at the leftmost holding position. */
  lemma {:induction false} FirstMatchIsLeftmost(cols: seq<string>, pattern: string)
    requires |Matches(cols, pattern)| > 0
    ensures LeftmostHolding(cols, pattern).Some?
    ensures ListIndex(cols, Matches(cols, pattern)[0]) == LeftmostHolding(cols, pattern).value
  {
    if Contains(cols[0], pattern) {
      assert Matches(cols, pattern)[0] == cols[0];
    } else {
      assert Matches(cols, pattern) == Matches(cols[1..], pattern);
      FirstMatchIsLeftmost(cols[1..], pattern);
      var m := Matches(cols, pattern)[0];
      assert m != cols[0] by {
        assert Contains(m, pattern);
      }
    }
  }

  /** What `RoleColumn` means: it names a column exactly when some pattern
      is held by some column, and then the pattern is the earliest one any
      column holds and the column the leftmost one holding it. */
  lemma RoleColumnCharacterised(cols: seq<string>, patterns: seq<string>)
    ensures RoleColumn(cols, patterns).None? <==>
      forall q, k :: 0 <= q < |patterns| && 0 <= k < |cols| ==> !Contains(cols[k], patterns[q])
    ensures RoleColumn(cols, patterns).Some? ==>
      var j := RoleColumn(cols, patterns).value;
      j < |cols| &&
      exists q :: 0 <= q < |patterns| && Contains(cols[j], patterns[q])
        && (forall k :: 0 <= k < j ==> !Contains(cols[k], patterns[q]))
        && (forall q', k :: 0 <= q' < q && 0 <= k < |cols| ==> !Contains(cols[k], patterns[q']))
  {
    RoleColumnNone(cols, patterns);
    RoleColumnSome(cols, patterns);
  }

  lemma {:induction false} RoleColumnNone(cols: seq<string>, patterns: seq<string>)
    ensures RoleColumn(cols, patterns).None? <==>
      forall q, k :: 0 <= q < |patterns| && 0 <= k < |cols| ==> !Contains(cols[k], patterns[q])
  {
    if patterns != [] {
      RoleColumnNone(cols, patterns[1..]);
      var first := LeftmostHolding(cols, patterns[0]);
      if first.Some? {
        assert Contains(cols[first.value], patterns[0]);
      } else {
        assert forall q :: 1 <= q < |patterns| ==> patterns[q] == patterns[1..][q - 1];
      }
    }
  }

  lemma {:induction false} RoleColumnSome(cols: seq<string>, patterns: seq<string>)
    ensures RoleColumn(cols, patterns).Some? ==>
      var j := RoleColumn(cols, patterns).value;
      j < |cols| &&
      exists q :: 0 <= q < |patterns| && Contains(cols[j], patterns[q])
        && (forall k :: 0 <= k < j ==> !Contains(cols[k], patterns[q]))
        && (forall q', k :: 0 <= q' < q && 0 <= k < |cols| ==> !Contains(cols[k], patterns[q']))
  {
    if patterns != [] && LeftmostHolding(cols, patterns[0]).None? && RoleColumn(cols, patterns).Some? {
      RoleColumnSome(cols, patterns[1..]);
      var j := RoleColumn(cols, patterns).value;
      var q :| 0 <= q < |patterns[1..]| && Contains(cols[j], patterns[1..][q])
        && (forall k :: 0 <= k < j ==> !Contains(cols[k], patterns[1..][q]))
        && (forall q', k :: 0 <= q' < q && 0 <= k < |cols| ==> !Contains(cols[k], patterns[1..][q']));
      assert patterns[q + 1] == patterns[1..][q];
      assert forall q', k :: 0 <= q' < q + 1 && 0 <= k < |cols| ==> !Contains(cols[k], patterns[q'])
      by {
        forall q', k | 0 <= q' < q + 1 && 0 <= k < |cols| ensures !Contains(cols[k], patterns[q']) {
          if q' > 0 {
            assert patterns[q'] == patterns[1..][q' - 1];
          }
        }
      }
    }
  }

  /** The name at a found position. */
  function ColumnAt(columns: seq<string>, j: Option<nat>): Option<string>
  {
    if j.Some? && j.value < |columns| then Some(columns[j.value]) else None
  }

  /** One role of the search, as the source's `for pattern ... break` loop. */
  method FindRoleColumn(columns: seq<string>, cols: seq<string>, patterns: seq<string>)
    returns (col: Option<string>)
    requires |cols| == |columns|
    ensures col == ColumnAt(columns, RoleColumn(cols, patterns))
  {
    col := None;
    var i := 0;
    while i < |patterns|
      invariant 0 <= i <= |patterns|
      invariant RoleColumn(cols, patterns) == RoleColumn(cols, patterns[i..])
    {
      var matches := Matches(cols, patterns[i]);
      if |matches| > 0 {
        FirstMatchIsLeftmost(cols, patterns[i]);
        col := Some(columns[ListIndex(cols, matches[0])]);
        return;
      }
      assert patterns[i..][1..] == patterns[i + 1..];
      i := i + 1;
    }
  }

  /** A column that holds a non-empty pattern has a non-empty name, so the
      truthiness test on the names only asks that both were found. */
  lemma HoldingColumnIsNamed(c: string, p: string)
    requires p != [] && Contains(Lower(c), p)
    ensures c != []
  {
    ContainsIff(Lower(c), p);
  }

  /** The dictionary `detectar_colunas_utm` returns. */
  datatype UtmColumns = UtmColumns(xCol: string, yCol: string, zonaCol: Option<string>)

  /** `detectar_colunas_utm(df)` on the header `columns`: a result exactly
      when both an X and a Y column are found, each by the role's search on
      the lower-cased names; the zone column may be absent. */
  method DetectUtmColumns(columns: seq<string>) returns (r: Option<UtmColumns>)
    ensures var cols := LowerAll(columns);
      r.Some? <==> RoleColumn(cols, XPatterns).Some? && RoleColumn(cols, YPatterns).Some?
    ensures var cols := LowerAll(columns);
      r.Some? ==>
        && Some(r.value.xCol) == ColumnAt(columns, RoleColumn(cols, XPatterns))
        && Some(r.value.yCol) == ColumnAt(columns, RoleColumn(cols, YPatterns))
        && r.value.zonaCol == ColumnAt(columns, RoleColumn(cols, ZonePatterns))
  {
    var cols := LowerAll(columns);
    var xCol := FindRoleColumn(columns, cols, XPatterns);
    var yCol := FindRoleColumn(columns, cols, YPatterns);
    var zonaCol := FindRoleColumn(columns, cols, ZonePatterns);
    if xCol.Some? && yCol.Some? {
      NamedWhenFound(columns, cols, XPatterns);
      NamedWhenFound(columns, cols, YPatterns);
    }
    if xCol.Some? && xCol.value != [] && yCol.Some? && yCol.value != [] {
      r := Some(UtmColumns(xCol.value, yCol.value, zonaCol));
    } else {
      r := None;
    }
  }

  /** The column a role search finds holds one of the role's patterns. */
  lemma {:induction false} RoleColumnHolds(cols: seq<string>, patterns: seq<string>)
    requires RoleColumn(cols, patterns).Some?
    ensures exists q :: 0 <= q < |patterns| && Contains(cols[RoleColumn(cols, patterns).value], patterns[q])
  {
    if LeftmostHolding(cols, patterns[0]).Some? {
      assert Contains(cols[RoleColumn(cols, patterns).value], patterns[0]);
    } else {
      RoleColumnHolds(cols, patterns[1..]);
      var q :| 0 <= q < |patterns[1..]| && Contains(cols[RoleColumn(cols, patterns).value], patterns[1..][q]);
      assert patterns[1..][q] == patterns[q + 1];
    }
  }

  lemma NamedWhenFound(columns: seq<string>, cols: seq<string>, patterns: seq<string>)
    requires cols == LowerAll(columns)
    requires forall q :: 0 <= q < |patterns| ==> patterns[q] != []
    requires RoleColumn(cols, patterns).Some?
    ensures columns[RoleColumn(cols, patterns).value] != []
  {
    RoleColumnHolds(cols, patterns);
    var j := RoleColumn(cols, patterns).value;
    var q :| 0 <= q < |patterns| && Contains(cols[j], patterns[q]);
    HoldingColumnIsNamed(columns[j], patterns[q]);
  }
}
