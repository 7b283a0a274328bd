# UTM to geographic coordinates — a Dafny model

This project models the core of *UTMtoGeograficas*, a small Python tool.
It reads CSV files of survey points given in UTM coordinates (easting X,
northing Y). It converts each point to longitude and latitude, which it
writes as degrees, minutes and seconds (DMS) and as decimal degrees.

The core has three parts:

* **The converter** (`conversor_utm.py`). `ConversorUTM` keeps a UTM zone,
  a hemisphere and a datum. It projects (X, Y) through an inverse UTM
  projection on the GRS80 ellipsoid. It splits a decimal angle into
  degrees, minutes and seconds, and renders them as `G° MM' S.SS"`: unpadded degrees, two-digit minutes,
  and seconds with two decimals by default and no padding.
  `detectar_colunas_utm` guesses which header names hold X, Y and the zone.
* **The desktop tool** (`interface_grafica.py`). It converts every CSV file
  of a folder in place, in three steps:
  * it tries five encodings and three separators until a file loads with
    more than one column;
  * in a copy of the table, it overwrites the X and Y cells of every
    convertible row from row 1 on with Brazilian-style text
    `48 04 35,347 W`. A row whose cells are empty after clean-up, or do
    not parse as numbers, is kept as it is. A row whose projection fails
    makes the whole file fail;
  * it writes the copy as `<stem>_convertido.csv` and counts successes and
    errors.
* **Two batch scripts** (`conversor_final.py`, `converter_direto.py`).
  Both read each file as Latin-1 with `;`. They append four columns:
  `Longitude_DMS`, `Latitude_DMS`, `Longitude_Decimal` and
  `Latitude_Decimal`. A row that cannot be converted gets four empty
  strings.
  * `conversor_final.py` reads X and Y from columns B and D by position,
    and leaves row 0 blank.
  * `converter_direto.py` reads the columns named `E/Long` and `N/Lat`,
    and converts every row.

## Modules

* `wrappers.dfy`: Option and Result.
* `text.dfy`: `strip`, single-character `replace`, ASCII case mapping,
  substring search, and the cell clean-up the row loops share
  (`Normalize`).
* `numfmt.dfy`: the integer and fixed-point renderings the format strings
  use. Each has a decoder that accepts only the exact text shape the
  rendering writes, and a round trip proved.
* `conversor_utm.dfy`: the converter and the column detection.
* `tables.dfy`: frames, readers, writers, output names and the success and
  error tally.
* `interface_grafica.dfy`: the in-place conversion, the encoding probe and
  the batch.
* `append_mode.dfy`: the row loop and the file loop the two scripts share.
* `conversor_final.dfy`, `converter_direto.dfy`: how each script reads a
  row.

## How the outside world enters

Some parts of the tool cannot be written in Dafny. They become function
parameters:

* **The projection** is pyproj's inverse projection. It is a `Projector`.
  The model builds exactly the arguments the code hands to `Proj`.
* **Number parsing** is Python's `float()`. It is a `Parser`.
* **Reading a file** is a `Reader`. It returns the frame, or None where
  `read_csv` raises.
* **Writing a file** is a `Writer`. It returns whether `to_csv` succeeded.
* **The file list** of the source folder is a list of files.
* **The user's answer** to the confirmation dialog is a boolean.

A Python exception becomes an explicit outcome, in one of these forms: a
`None`, `Failed`, `FileFailed`, `Blank`, or `Abort` for a row.

Where the ordinary loop structure made the proofs too large, the loop is
its own method, and the row or file handler is a function value:

* `RewriteInPlace` and `CollectColumns` loop over rows;
* `ConvertEachFile` and `AppendEachFile` loop over files.

The public methods pass in the concrete handler: `RowStepper`,
`FinalEntry` or `DirectEntry`. Each method's `ensures` ties its result to
a reference function of the same inputs: `InPlaceConversion`, `Probe`,
`BatchConversion` or `AppendBatch`. The lemmas in the table state what
those reference functions mean.

## Model

| member | source | states |
|---|---|---|
| ConversorUtm.EffectiveParams | conversor_utm.py:39-45 | A per-call zone or hemisphere overrides the instance's. The projection is southern exactly when the chosen hemisphere is the text "S". The ellipsoid is always GRS80. |
| ConversorUtm.UtmToGeographic | conversor_utm.py:24-52 | Inverse UTM projection with the instance and per-call parameters. What it means is stated by `EffectiveParams`, `PerCallArgumentsOverride` and `DatumIsIgnored`. |
| ConversorUtm.DatumIsIgnored | conversor_utm.py:20-45 | The stored datum never reaches the projection: converters that differ only in the datum project alike. |
| ConversorUtm.PerCallArgumentsOverride | conversor_utm.py:39-40 | With both per-call arguments, the instance is irrelevant. With neither, the call equals the one made with the instance's own zone and hemisphere. |
| ConversorUtm.ToDms | conversor_utm.py:54-77 | Minutes are in 0..59 and seconds in [0, 60). Degrees + minutes/60 + seconds/3600 is exactly the magnitude of the input. |
| ConversorUtm.ToDmsSign | conversor_utm.py:64-75 | Degrees are negative iff the input is at most -1, and zero iff it lies in (-1, 1). Degrees are the floor of the magnitude with the input's sign. |
| ConversorUtm.DmsValueRoundTrip | conversor_utm.py:54-77 | Reading the triple back, with its sign on the degrees, gives the input, except in (-1, 0), where it gives the input's magnitude. |
| ConversorUtm.FormatDms | conversor_utm.py:79-92 | Renders a DMS triple as text. What it means is stated by `FormatDmsRoundTrip` (exact shape and value) and `RenderedTripleClose`. |
| ConversorUtm.FormatDmsRoundTrip | conversor_utm.py:79-92 | For minutes in 0..59, the text has exactly the shape `G° MM' S.SS"`: unpadded degrees, two-digit minutes and exactly `casas` decimals of seconds. It decodes to the same degrees and minutes and to the seconds rounded to `casas` decimals. |
| ConversorUtm.RenderedTripleClose | conversor_utm.py:79-92 | The decoded text of a triple denotes the triple's magnitude to within half a unit of the last seconds decimal, divided by 3600. |
| ConversorUtm.ConvertUtmToDms | conversor_utm.py:94-127 | It fails exactly when the projection fails. Otherwise the decimal fields are the projected longitude and latitude, and the DMS fields are their renderings with two decimals. |
| ConversorUtm.DmsTextApproximatesAngle | conversor_utm.py:110-117 | The DMS text of any angle decodes, keeps its degrees and minutes, and denotes the angle's magnitude to within 0.005 seconds. |
| ConversorUtm.LowerAll | conversor_utm.py:141 | The lower-cased header has the same length, and each name is lower-cased in place. |
| ConversorUtm.Matches | conversor_utm.py:153 | A name is among the matches exactly when it is a header name containing the pattern. |
| ConversorUtm.FirstMatchIsLeftmost | conversor_utm.py:153-155 | The position of the first match is that of the leftmost column containing the pattern. |
| ConversorUtm.RoleColumnCharacterised | conversor_utm.py:151-170 | A role finds no column iff no column holds any of its patterns. Otherwise it finds the leftmost column holding the earliest pattern that any column holds. |
| ConversorUtm.FindRoleColumn | conversor_utm.py:151-156 | The pattern loop with its early break returns the name at the position the role's reference search finds. |
| ConversorUtm.NamedWhenFound | conversor_utm.py:172 | A found column has a non-empty name, so the truthiness test only asks that both columns were found. |
| ConversorUtm.DetectUtmColumns | conversor_utm.py:130-179 | A result comes back iff both an X and a Y column are found. Each reported column, the optional zone included, is the one its role's search finds on the lower-cased names. |
| Text.StripEmptyIff | interface_grafica.py:327-332 | A cell is empty after `strip` exactly when it is all whitespace. |
| Text.StripIsTrimmedSlice | interface_grafica.py:327-328 | The stripped text is the slice between a leading and a trailing run of whitespace, and it neither starts nor ends with whitespace. |
| Text.Normalize | interface_grafica.py:323-328 | Strips the cell and turns ',' into '.'. What it means is stated by `NormalizeIgnoresDecimalComma` and `StripIsTrimmedSlice`. |
| Text.NormalizeIgnoresDecimalComma | interface_grafica.py:323-328 | Cells that differ only by ',' versus '.' normalise identically, and a normalised cell holds no comma. |
| Text.ContainsIff | conversor_utm.py:153 | The substring test holds exactly when the pattern occurs at some position. |
| NumFmt.IntToStringRoundTrip | conversor_utm.py:92 | Integer text has no padding zero and no "-0". It decodes back to the integer, and it holds only digits and a leading minus for negatives. |
| NumFmt.Pad2TwoDigits | conversor_utm.py:92 | For 0..99, the zero-padded rendering is exactly two digits denoting the number. |
| NumFmt.RoundHalfEven | conversor_utm.py:92 | The result is within one half of the input, and an exact tie goes to the even neighbour. |
| NumFmt.FormatFixedRoundTrip | conversor_utm.py:92 | `{x:.pf}` is an optional minus, an unpadded integer part and, for p > 0, a point and exactly p digits. It denotes x rounded to p decimals. |
| NumFmt.RoundedClose | conversor_utm.py:92 | The rounded value is within half a unit of the last decimal of the input. |
| NumFmt.TwoDecimalExample | conversor_utm.py:92 | "7.50" is the two-decimal text of 7.5. |
| NumFmt.FixedShapeRejected | conversor_utm.py:92 | With two decimals, "7.5" (too few decimals) and "07.50" (padded integer part) are not fixed-point texts. |
| NumFmt.IntShapeRejected | conversor_utm.py:92 | "07" and "-0" are not integer texts. |
| Tables.Stem | interface_grafica.py:247 | The name is cut at its last dot when that dot is neither the first nor the last character. A name whose only dots are at the start, or that ends in a dot, is its own stem. |
| Tables.OutputName | interface_grafica.py:246-247 | The output file name. What it means is stated by `OutputNameOfCsv` and `Stem`. |
| Tables.OutputNameOfCsv | interface_grafica.py:247-248 | `<s>.csv` with a non-empty `s` is written as `<s>_convertido.csv`. The bare name `.csv` gives `.csv_convertido.csv`. |
| Tables.TallyOf | interface_grafica.py:229-258 | Successes plus errors equal the number of files, and successes are the written files. |
| Tables.TallySnoc | interface_grafica.py:252-257 | One more file adds one to the successes when it was written, and one to the errors otherwise. |
| Tables.WrittenNamesAreFileNames | interface_grafica.py:253 | When each written outcome carries its file's name, the collected names are those of the written files, in order. |
| InterfaceGrafica.ColumnIndex | interface_grafica.py:307-311 | A designator has a position exactly when it is one character. The position is the upper-cased letter's code minus that of 'A'. |
| InterfaceGrafica.ColumnLettersInvert | interface_grafica.py:307-309 | Letter k, in either case, maps back to k, and each letter to its upper-case position. |
| InterfaceGrafica.ColumnLetterExamples | interface_grafica.py:307-311 | A→0, B→1, D→3, b→1, d→3. "AA" and "" are rejected. |
| InterfaceGrafica.Resolve | interface_grafica.py:323-324 | A position addresses a cell exactly when it lies in [-width, width). Negative positions count from the right. |
| InterfaceGrafica.FormatBrazilian | interface_grafica.py:349-354 | Brazilian DMS text with a direction letter. What it means is stated by `FormatBrazilianRoundTrip` (exact shape, decimal comma, value) and `BrazilianTextOfAngle`. |
| InterfaceGrafica.FormatBrazilianRoundTrip | interface_grafica.py:349-354 | The text has exactly the shape `G MM S,SSS H`: unpadded degrees, two-digit minutes, seconds with a decimal comma (no point) and exactly three decimals, and a letter. It decodes to the unsigned degrees, the minutes, the seconds rounded to three decimals, and the direction letter. |
| InterfaceGrafica.BrazilianPointRejected | interface_grafica.py:349-350 | A text whose seconds carry a decimal point instead of a comma is not a Brazilian text. |
| InterfaceGrafica.BrazilianTextOfAngle | interface_grafica.py:345-354 | The direction is the negative letter iff the angle is at most -1. The decoded text is within 0.0005 seconds of the angle's magnitude. |
| InterfaceGrafica.RowStepOf | interface_grafica.py:316-363 | What one data row does in the in-place conversion. What it means is stated by `RowStepMeaning` and `UnreadableRowIsKept`. |
| InterfaceGrafica.UnreadableRowIsKept | interface_grafica.py:331-339 | A row whose cells normalise to empty text, or do not parse, is kept. |
| InterfaceGrafica.RowStepMeaning | interface_grafica.py:323-363 | A row aborts the file exactly when both cells parse and the projection fails. When both cells parse and the projection succeeds, the row is rewritten with the Brazilian texts of the projected longitude (E/W) and latitude (N/S). |
| InterfaceGrafica.ApplyStep | interface_grafica.py:357-358 | The row keeps its width. A rewrite sets the X cell and then the Y cell. |
| InterfaceGrafica.RewriteInPlace | interface_grafica.py:316-363 | The row loop returns exactly the reference walk: failure if a row from 1 on aborts, and otherwise every row from 1 on replaced by its step. |
| InterfaceGrafica.InPlaceConversion | interface_grafica.py:303-368 | The reference in-place conversion of one table. What it means is stated by `InPlaceBeforeTheWalk`, `InPlaceAtPositions`, `InPlaceTouchesOnlyCoordinates` and `RewrittenCellsHoldTheAngles`. |
| InterfaceGrafica.InPlaceBeforeTheWalk | interface_grafica.py:305-324 | An invalid letter fails. A table of at most one row comes back unchanged. An out-of-range position fails on row 1. |
| InterfaceGrafica.InPlaceAtPositions | interface_grafica.py:313-365 | Once both positions resolve, the conversion fails iff some data row aborts. Otherwise the header, row count and row 0 are kept, and each data row is kept or has exactly its two cells overwritten. |
| InterfaceGrafica.InPlaceTouchesOnlyCoordinates | interface_grafica.py:314-358 | Every cell of row 0, and every cell outside the X and Y positions, equals the input's. |
| InterfaceGrafica.RewrittenCellsHoldTheAngles | interface_grafica.py:349-358 | A rewritten row holds the latitude text under Y, and the longitude text under X unless X and Y coincide. |
| InterfaceGrafica.ConvertCoordinates | interface_grafica.py:303-368 | The method returns the reference in-place conversion with the row handler `RowStepper`. |
| InterfaceGrafica.Probe | interface_grafica.py:278-301 | The reference encoding/separator probe. What it means is stated by `ProbeCharacterised`. |
| InterfaceGrafica.ProbeCharacterised | interface_grafica.py:282-297 | Loading fails iff no encoding/separator attempt loads. Otherwise the table comes from the first attempt that loads, and it has more than one column. |
| InterfaceGrafica.AttemptOrder | interface_grafica.py:285-286 | Attempt order is the nested loops' order: encodings outside, separators inside. |
| InterfaceGrafica.LoadForConversion | interface_grafica.py:278-301 | The nested loops with early return give exactly the probe's result. |
| InterfaceGrafica.FileOutcomeMeaning | interface_grafica.py:236-258 | A file is written iff it loads, converts and the write succeeds. It goes to `<destination>/<stem>_convertido.csv` under its own name. |
| InterfaceGrafica.FileOutcomesAt | interface_grafica.py:233-258 | The batch's i-th outcome is the i-th listed file's own outcome, so the files are handled in listing order and independently of each other. |
| InterfaceGrafica.BatchReport | interface_grafica.py:229-258 | Successes plus errors equal the number of files. The listed names are, in order, those of the files that were written. |
| InterfaceGrafica.BatchConversion | interface_grafica.py:191-258 | The reference batch over a source folder. What it means is stated by `BatchReport`, `FileOutcomesAt` and `FileOutcomeMeaning`. |
| InterfaceGrafica.ConvertFile | interface_grafica.py:234-258 | The per-file body gives that file's reference outcome. |
| InterfaceGrafica.ConvertEachFile | interface_grafica.py:229-258 | The file loop's outcomes, counters and name list equal the reference ones. |
| InterfaceGrafica.ConvertAllFiles | interface_grafica.py:191-276 | The guards run in source order: no source folder, no destination, no column letters, no CSV file, user declined. Then comes the file loop: the result is the reference batch. |
| AppendMode.EntryMeaning | conversor_final.py:72-100 | A row is filled iff both cells are found, both normalise to non-empty text that parses, and the projection succeeds. It then holds the converter's four result fields. |
| AppendMode.EntryOf | conversor_final.py:72-100 | The four result fields of one row. What it means is stated by `EntryMeaning`, `EntryOfMissing` and `FilledCellsAgree`. |
| AppendMode.EntryOfMissing | converter_direto.py:57-81 | A cell whose lookup raises leaves the row blank. |
| AppendMode.FilledCellsAgree | conversor_final.py:88-93 | In a filled row, each DMS text decodes to the degrees of its decimal value and is within 0.005 seconds of its magnitude. |
| AppendMode.EntryCells | conversor_final.py:90-100 | Every row contributes exactly four values, and a blank row four empty strings. |
| AppendMode.ResultColumn | conversor_final.py:56-100 | Each of the four lists has one entry per row, holding that row's value. |
| AppendMode.AssignThenRead | conversor_final.py:103-106 | After `df[name] = values`, the column reads as the values, and every other column reads as before. |
| AppendMode.WithColumnsReads | conversor_final.py:103-106 | Each of the four new names is in the header and reads as its list. |
| AppendMode.WithColumnsKeeps | conversor_final.py:103-106 | An original column with another name still reads as its texts. |
| AppendMode.WithColumnsHeader | conversor_final.py:103-106 | When the four names are new, the header is the original header followed by them, in order. |
| AppendMode.AppendedRows | conversor_final.py:56-106 | When the four names are new, each written row is the original row followed by exactly its entry's four values. |
| AppendMode.AppendedColumn | conversor_final.py:56-106 | Each of the four new names is in the written header, and its column holds, row by row, the matching value of that row's entry. |
| AppendMode.CollectColumns | conversor_final.py:56-100 | The row loop builds exactly the four reference lists. |
| AppendMode.AppendFileMeaning | conversor_final.py:50-119 | A file is written iff it reads and the write succeeds. It is then written under its own name to `convertido/<stem>_convertido.csv`, as the frame read with the four entry columns added (`Appended`). |
| AppendMode.AppendFileOutcome | conversor_final.py:50-119 | The reference outcome of one file in the append scripts. What it means is stated by `AppendFileMeaning`. |
| AppendMode.AppendFile | conversor_final.py:50-119 | The per-file body gives that file's reference outcome. |
| AppendMode.AppendBatchTally | conversor_final.py:43-119 | A run over a non-empty listing finishes. Successes plus errors equal the number of files, and successes are the written files. |
| AppendMode.AppendOutcomesAt | conversor_final.py:47-119 | The run's i-th outcome is the i-th listed file's own outcome. |
| AppendMode.AppendEachFile | conversor_final.py:43-119 | The file loop's outcomes and counters equal the reference ones. |
| AppendMode.RunScript | conversor_final.py:25-119 | An empty listing stops the run. Otherwise the run finishes with the reference tally and the reference outcome of every file. |
| ConversorFinal.CellAt | conversor_final.py:72-73 | A positional lookup succeeds exactly inside the row, with that cell. |
| ConversorFinal.FinalEntryRows | conversor_final.py:61-77 | Row 0 is blank. A row narrower than four cells is blank. Any other row is converted from its cells B and D. |
| ConversorFinal.FinalEntry | conversor_final.py:61-100 | The row handler of the positional script. What it means is stated by `FinalEntryRows` and `HeaderRowIsBlank`. |
| ConversorFinal.HeaderRowIsBlank | conversor_final.py:64-69 | In the written frame, row 0 holds '' in each of the four new columns. |
| ConversorFinal.ConverterArquivosCsv | conversor_final.py:9-119 | The script's result is the reference run with the B/D row handler. |
| ConverterDireto.CellNamed | converter_direto.py:57-58 | A lookup by name succeeds only for a header name, and then with the cell under the first such column. |
| ConverterDireto.DirectEntryRows | converter_direto.py:54-58 | Every row, row 0 included, is converted from its `E/Long` and `N/Lat` cells. A file missing either column gets blank rows. |
| ConverterDireto.DirectEntry | converter_direto.py:54-81 | The row handler of the by-name script. What it means is stated by `DirectEntryRows`. |
| ConverterDireto.ConverterArquivosCsv | converter_direto.py:10-100 | The script's result is the reference run with the by-name row handler. |

## Left out

- The UTM mathematics: pyproj's inverse projection is a function parameter, and only its arguments are modelled.
- Floating point: angles, minutes and seconds are exact reals. `int()` on a non-negative float is a floor. `:.Nf` is round-half-even of the exact value, not of the nearest binary double.
- NaN and infinities are not modelled. pandas reads an empty CSV field as NaN, `str()` turns it into "nan", and `float("nan")` accepts that text, so such a row reaches the projection with a NaN coordinate. The in-place conversion then raises a plain `Exception`, which fails the whole file; in the append scripts `except Exception` catches it and the row gets a blank entry. The model leaves this path out: a cell is the text `str(cell)` gives, supplied by the reader, and the parser it is given stands for `float()` on finite numbers.
- `float()` is a function parameter. Its accepted syntax (signs, exponents, underscores, "inf") is not modelled.
- pandas' dtype inference: an assignment of text into a numeric column and pandas' renaming of duplicate header names are not modelled.
- The written CSV is a frame. Its bytes (encoding `utf-8-sig`, separator `;`, float repr of the decimal columns) are not modelled.
- Case mapping is ASCII only. Python's Unicode `lower()` and `upper()` are wider.
- Path handling is simplified to names: `mkdir`, `glob("*.csv")` and path joining are left out, and the listing is an input.
- The GUI is left out: the tkinter window, folder dialogs, the configuration file, message boxes and console printing. The confirmation dialog is a boolean input.
- The final message of `converter_todos_arquivos` (interface_grafica.py:260-276) is left out; its counts and names are part of the outcome.
- The outer `except` of `converter_todos_arquivos` is left out: everything inside the file loop is caught per file, so no modelled step reaches it.
- The row loops treat the frame's positional index as `iterrows`' label, which is what `read_csv` produces.
- The converter is a value (`Converter`), not a class: no method of `ConversorUTM` changes its fields after construction.
- The in-place copy is a sequence of rows that the row loop reassigns, not a shared array. `df.copy()` makes the original unreachable from the copy, so the model loses no aliasing.
- DetectUtmColumns: the model does not prove what detection returns on a concrete header such as the survey files' `Vertice;E/Long;Sigma long;N/Lat;Sigma lat`. Only the general characterisation is proved.
- InterfaceGrafica.RowStepMeaning: the row handler's exceptions other than the projection's are modelled as values (None from the parser). A `TypeError` from elsewhere is not modelled.

## Notes on the code

- `ord(col.upper())` accepts exactly one character after upper-casing, so "AA" and "" are rejected; the letters are not restricted to A–Z.
- In the in-place conversion, a failing projection raises a plain `Exception`. It is not caught by the row's `except (ValueError, TypeError)`, so the whole file fails. An out-of-range column position (IndexError) fails the file the same way. A cell that is empty or only whitespace after normalising, or whose text `float()` rejects, keeps the row. An empty CSV field is not such a cell: it reads as NaN (see "Left out") and, in this mode, fails the file.
- The DMS rendering pads the minutes but not the seconds, so seven seconds show as `7.00`. An angle in (-1, 0) loses its sign in the DMS text, since the sign is carried by the degrees, which are 0 there.
- The hemisphere is compared to the text "S" exactly, so "s" or "Sul" select the northern hemisphere.
- `detectar_colunas_utm` is defined but no caller in the core uses it.
