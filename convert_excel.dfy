/**
 The row normaliser (`convertExcelToJson.js`): each spreadsheet row becomes
 a case record with its publication date rewritten as `YYYY-MM-DD`, its
 issue defaulted and its disciplines split, and rows whose date is missing
 or cannot be read are dropped.

 The spreadsheet is read with `raw: false`, so every cell arrives as its
 formatted text. `new Date(text)` for text that is neither a serial number,
 `YYYY-MM-DD` nor `DD/MM/YYYY` depends on the engine; it is the parameter
 `fallback`, which gives the day number the text names or None for NaN.
 */
module ConvertExcelToJson {
  import opened Wrappers
  import opened Seqs
  import opened JsText
  import opened JsNumbers
  import opened Calendar
  import opened JsDates
  import opened CaseRecords

  /** A spreadsheet row: the text of the three cells the script reads, None for an empty cell. */
  datatype Row = Row(issue: Option<string>, date: Option<string>, disciplines: Option<string>)

  /** `isExcelDate(value)`: `!isNaN(value) && value > 0 && value < 2958466` on the cell's text. */
  function IsExcelDate(value: string): (b: bool)
    ensures b <==> ToNumber(value).Finite? && 0.0 < ToNumber(value).value < 2958466.0
  {
    var n := ToNumber(value);
    n != NaN && GreaterThan(n, 0.0) && LessThan(n, 2958466.0)
  }

  /** Serial days from 1899-12-30 on fall in 1899 or later. */
  lemma ExcelDaysYear(n: int)
    requires -25569 <= n
    ensures FromDayNumber(n).year >= 1899
  {
    var y := FromDayNumber(n).year;
    YearOfDayNumber(n, y);
    if y < 1899 {
      DaysBeforeYearMonotone(y + 1, 1899);
    }
  }

  /**
   `excelDateToJSDate(serial)`: the time value of day `floor(serial - 25569)`,
   then a new local `Date` built from its year, month and day. The serial's
   fraction (the time of day) is lost: the date is day `floor(serial) - 25569`
   counted from 1970-01-01.
   */
  function ExcelDateToJsDate(serial: real): (t: JsDate)
    requires 0.0 < serial < 2958466.0
    ensures t == DateAt(serial.Floor - 25569)
  {
    var utcDays := (serial - 25569.0).Floor;
    var dateInfo := TimeClip(utcDays);
    ExcelDaysYear(utcDays);
    RebuildFromParts(dateInfo);
    var c := Civil(dateInfo);
    NewDateFromParts(c.year, c.month - 1, c.day)
  }

  /** `^(\d{2})\/(\d{2})\/(\d{4})$`. */
  predicate IsDmyText(s: string)
  {
    |s| == 10 && AllDigits(s[..2]) && s[2] == '/' && AllDigits(s[3..5]) && s[5] == '/' && AllDigits(s[6..])
  }

  /** `new Date(year, month - 1, day)` on the three groups of `DD/MM/YYYY` text. */
  function DmyDate(s: string): JsDate
    requires IsDmyText(s)
  {
    NewDateFromParts(DigitsValue(s[6..]), DigitsValue(s[3..5]) - 1, DigitsValue(s[..2]))
  }

  /**
   `parseDate(date)` on a non-empty cell text: the serial branch, then
   `YYYY-MM-DD`, then `DD/MM/YYYY` built as `new Date(year, month - 1, day)`,
   then whatever `new Date(date)` makes of the text. None stands for `null`;
   Some(InvalidDate) is a `Date` whose time value is NaN.
   */
  function ParseDate(date: string, fallback: string -> Option<int>): (r: Option<JsDate>)
    ensures r.Some? && r.value.DateAt? ==> -MaxDays <= r.value.day <= MaxDays
  {
    if IsExcelDate(date) then
      Some(ExcelDateToJsDate(ToNumber(date).value))
    else if IsShortDateText(date) then
      Some(DateFromIsoText(date))
    else if IsDmyText(date) then
      Some(DmyDate(date))
    else
      match fallback(date)
      case Some(n) => if TimeClip(n).DateAt? then Some(TimeClip(n)) else None
      case None => None
  }

  /**
   The text that replaces a non-empty date cell: `toISOString().split('T')[0]`
   of the parsed date, or `undefined` (None) when nothing valid was parsed.
   */
  function DateText(s: string, fallback: string -> Option<int>): Option<string>
  {
    var p := ParseDate(s, fallback);
    if p.Some? && p.value.DateAt? then Some(Split(ToIsoString(p.value), 'T')[0]) else None
  }

  /** A rewritten date is the canonical text of a real date, and its year can be read back. */
  lemma DateTextCanonical(s: string, fallback: string -> Option<int>)
    requires DateText(s, fallback).Some?
    ensures ReadDate(DateText(s, fallback).value).Some?
    ensures Valid(ReadDate(DateText(s, fallback).value).value)
    ensures IsoDateString(ReadDate(DateText(s, fallback).value).value) == DateText(s, fallback).value
    ensures FullYearOf(DateText(s, fallback).value).Some?
  {
    var t := ParseDate(s, fallback).value;
    IsoDatePart(t);
    ClippedYears(t.day);
    ReadIsoDateString(Civil(t));
  }

  /**
   The `Original Publication Date` the mapping leaves, as the code is
   written: an empty-string cell is falsy, so it is never parsed and keeps
   the value "".
   */
  function RowDateAsWritten(cell: Option<string>, fallback: string -> Option<int>): Option<string>
  {
    if cell == Some("") then Some("")
    else if cell.Some? then DateText(cell.value, fallback)
    else None
  }

  /**
   The `Original Publication Date` the mapping is meant to leave: an empty
   cell, like a missing one, has no date.
   */
  function RowDate(cell: Option<string>, fallback: string -> Option<int>): Option<string>
  {
    if cell.Some? && cell.value != "" then DateText(cell.value, fallback) else None
  }

  /** Every date the mapping leaves is the canonical text of a real date with a readable year. */
  lemma RowDateCanonical(cell: Option<string>, fallback: string -> Option<int>)
    requires RowDate(cell, fallback).Some?
    ensures ReadDate(RowDate(cell, fallback).value).Some?
    ensures Valid(ReadDate(RowDate(cell, fallback).value).value)
    ensures IsoDateString(ReadDate(RowDate(cell, fallback).value).value) == RowDate(cell, fallback).value
    ensures FullYearOf(RowDate(cell, fallback).value).Some?
  {
    DateTextCanonical(cell.value, fallback);
  }

  /** Every record the filter keeps has a readable year. */
  lemma KeptRecordsHaveYears(rows: seq<Row>, fallback: string -> Option<int>)
    ensures AllHaveYears(Filter(MapRows(rows, fallback), Kept))
  {
    var mapped := MapRows(rows, fallback);
    var kept := Filter(mapped, Kept);
    forall k | 0 <= k < |kept| ensures HasYear(kept[k]) {
      assert kept[k] in mapped;
      var m :| 0 <= m < |mapped| && mapped[m] == kept[k];
      MapRowsAt(rows, fallback, m);
      RowDateCanonical(rows[m].date, fallback);
    }
  }

  /** `row['EDI Primary Case Issues'] || 'Undefined'`. */
  function IssueOf(cell: Option<string>): (r: string)
    ensures r != ""
    ensures cell.Some? && cell.value != "" ==> r == cell.value
    ensures cell.None? || cell.value == "" ==> r == "Undefined"
  {
    match cell
    case Some(s) => if s != "" then s else "Undefined"
    case None => "Undefined"
  }

  /** `row['Disciplines'] ? row['Disciplines'].split(';').map(d => d.trim()) : []`. */
  function DisciplinesOf(cell: Option<string>): seq<string>
  {
    match cell
    case Some(s) =>
      if s != "" then
        var pieces := Split(s, ';');
        seq(|pieces|, k requires 0 <= k < |pieces| => Trim(pieces[k]))
      else []
    case None => []
  }

  /**
   A non-empty disciplines cell gives one more discipline than it has
   semicolons, empty ones included; each is a piece between semicolons with
   its white space trimmed, and the untrimmed pieces rejoined give the cell.
   */
  lemma DisciplinesPieces(s: string)
    requires s != ""
    ensures |DisciplinesOf(Some(s))| == Occ(s, ';') + 1
    ensures forall k :: 0 <= k < |DisciplinesOf(Some(s))| ==>
              DisciplinesOf(Some(s))[k] == Trim(Split(s, ';')[k]) && ';' !in DisciplinesOf(Some(s))[k]
    ensures forall k :: 0 <= k < |DisciplinesOf(Some(s))| && DisciplinesOf(Some(s))[k] != "" ==>
              !IsWhiteSpace(DisciplinesOf(Some(s))[k][0])
    ensures Join(Split(s, ';'), ';') == s
  {
    var pieces := Split(s, ';');
    forall k | 0 <= k < |pieces|
      ensures ';' !in Trim(pieces[k]) && (Trim(pieces[k]) != "" ==> !IsWhiteSpace(Trim(pieces[k])[0]))
    {
      var t := Trim(pieces[k]);
      TrimFacts(pieces[k]);
      assert forall c :: c in t ==> c in pieces[k];
    }
  }

  /** An empty or missing disciplines cell gives no discipline. */
  lemma NoDisciplines(cell: Option<string>)
    requires cell.None? || cell.value == ""
    ensures DisciplinesOf(cell) == []
  {
  }

  /** The output object for one row. */
  function MapRow(row: Row, fallback: string -> Option<int>): CaseRecord
  {
    CaseRecord(IssueOf(row.issue), RowDate(row.date, fallback), DisciplinesOf(row.disciplines))
  }

  /** The output object for one row, as the code is written. */
  function MapRowAsWritten(row: Row, fallback: string -> Option<int>): CaseRecord
  {
    CaseRecord(IssueOf(row.issue), RowDateAsWritten(row.date, fallback), DisciplinesOf(row.disciplines))
  }

  /** `row['Original Publication Date'] !== undefined`. */
  predicate Kept(r: CaseRecord)
  {
    r.date.Some?
  }

  /** Every row mapped, in order. */
  function MapRows(rows: seq<Row>, fallback: string -> Option<int>): (r: seq<CaseRecord>)
    ensures |r| == |rows|
  {
    if rows == [] then [] else MapRows(rows[..|rows| - 1], fallback) + [MapRow(rows[|rows| - 1], fallback)]
  }

  lemma {:induction false} MapRowsAt(rows: seq<Row>, fallback: string -> Option<int>, k: nat)
    requires k < |rows|
    ensures MapRows(rows, fallback)[k] == MapRow(rows[k], fallback)
  {
    if k < |rows| - 1 {
      MapRowsAt(rows[..|rows| - 1], fallback, k);
    }
  }

  /** Every row mapped in order, as the code is written. */
  function MapRowsAsWritten(rows: seq<Row>, fallback: string -> Option<int>): (r: seq<CaseRecord>)
    ensures |r| == |rows|
  {
    if rows == [] then []
    else MapRowsAsWritten(rows[..|rows| - 1], fallback) + [MapRowAsWritten(rows[|rows| - 1], fallback)]
  }

  lemma {:induction false} MapRowsAsWrittenAt(rows: seq<Row>, fallback: string -> Option<int>, k: nat)
    requires k < |rows|
    ensures MapRowsAsWritten(rows, fallback)[k] == MapRowAsWritten(rows[k], fallback)
  {
    if k < |rows| - 1 {
      MapRowsAsWrittenAt(rows[..|rows| - 1], fallback, k);
    }
  }

  /** A record whose date is present and not the empty string. */
  predicate HasDateText(r: CaseRecord)
  {
    r.date.Some? && r.date.value != ""
  }

  /** No date the intended mapping leaves is the empty string. */
  lemma RowDateNotEmpty(cell: Option<string>, fallback: string -> Option<int>)
    requires RowDate(cell, fallback).Some?
    ensures RowDate(cell, fallback).value != ""
  {
    RowDateCanonical(cell, fallback);
    assert ReadDate("") == None;
  }

  /**
   On one row, keeping the dated records and then dropping those whose date
   is "" gives what the intended mapping keeps.
   */
  lemma AsWrittenRowLessEmptyDate(row: Row, fallback: string -> Option<int>)
    ensures Filter(Filter([MapRowAsWritten(row, fallback)], Kept), HasDateText) == Filter([MapRow(row, fallback)], Kept)
  {
    var a := MapRowAsWritten(row, fallback);
    var m := MapRow(row, fallback);
    assert [a][1..] == [] && [m][1..] == [];
    if row.date.Some? && row.date.value != "" && m.date.Some? {
      RowDateNotEmpty(row.date, fallback);
    }
  }

  /**
   Dropping the records whose date is "" from the as-written output leaves
   exactly the intended output.
   */
  lemma {:induction false} AsWrittenLessEmptyDates(rows: seq<Row>, fallback: string -> Option<int>)
    ensures Filter(Filter(MapRowsAsWritten(rows, fallback), Kept), HasDateText) == Filter(MapRows(rows, fallback), Kept)
  {
    if rows != [] {
      var p := rows[..|rows| - 1];
      var x := rows[|rows| - 1];
      AsWrittenLessEmptyDates(p, fallback);
      AsWrittenRowLessEmptyDate(x, fallback);
      FilterConcat(MapRowsAsWritten(p, fallback), [MapRowAsWritten(x, fallback)], Kept);
      FilterConcat(Filter(MapRowsAsWritten(p, fallback), Kept), Filter([MapRowAsWritten(x, fallback)], Kept), HasDateText);
      FilterConcat(MapRows(p, fallback), [MapRow(x, fallback)], Kept);
    }
  }

  /** When no date cell is the empty string, the code as written and the intended mapping agree. */
  lemma {:induction false} AsWrittenAgrees(rows: seq<Row>, fallback: string -> Option<int>)
    requires forall i :: 0 <= i < |rows| ==> rows[i].date != Some("")
    ensures MapRowsAsWritten(rows, fallback) == MapRows(rows, fallback)
  {
    if rows != [] {
      AsWrittenAgrees(rows[..|rows| - 1], fallback);
      assert rows[|rows| - 1].date != Some("");
    }
  }

  /** A record the code as written keeps has a readable year exactly when its date is not "". */
  lemma AsWrittenKeptYears(rows: seq<Row>, fallback: string -> Option<int>)
    ensures forall r :: r in Filter(MapRowsAsWritten(rows, fallback), Kept) ==> (HasYear(r) <==> r.date != Some(""))
  {
    var mapped := MapRowsAsWritten(rows, fallback);
    forall r | r in Filter(mapped, Kept) ensures HasYear(r) <==> r.date != Some("") {
      var m :| 0 <= m < |mapped| && mapped[m] == r;
      MapRowsAsWrittenAt(rows, fallback, m);
      if rows[m].date == Some("") {
        assert ReadDate("") == None;
      } else {
        assert r.date == RowDate(rows[m].date, fallback);
        RowDateCanonical(rows[m].date, fallback);
      }
    }
  }

  /**
   The per-row date rewrite: a non-empty cell is parsed and replaced by the
   date part of its ISO text, or by `undefined` when it does not parse; an
   empty or missing cell is left as it is.
   */
  method NormalizeDate(cell: Option<string>, fallback: string -> Option<int>) returns (date: Option<string>)
    ensures date == RowDateAsWritten(cell, fallback)
  {
    date := cell;
    if date.Some? && date.value != "" {
      var parsedDate := ParseDate(date.value, fallback);
      if parsedDate.Some? && parsedDate.value.DateAt? {
        date := Some(Split(ToIsoString(parsedDate.value), 'T')[0]);
      } else {
        date := None;
      }
    }
  }

  /** The map pass: `jsonData.map(row => ...)`. */
  method MapPass(rows: seq<Row>, fallback: string -> Option<int>) returns (mapped: seq<CaseRecord>)
    ensures mapped == MapRowsAsWritten(rows, fallback)
  {
    mapped := [];
    var i := 0;
    while i < |rows|
      invariant 0 <= i <= |rows|
      invariant mapped == MapRowsAsWritten(rows[..i], fallback)
    {
      var row := rows[i];
      var date := NormalizeDate(row.date, fallback);
      var disciplines := DisciplinesOf(row.disciplines);
      var record := CaseRecord(IssueOf(row.issue), date, disciplines);
      assert record == MapRowAsWritten(rows[i], fallback);
      assert rows[..i + 1][..i] == rows[..i];
      mapped := mapped + [record];
      i := i + 1;
    }
    assert rows[..|rows|] == rows;
  }

  /** The filter pass: `jsonData.filter(row => row['Original Publication Date'] !== undefined)`. */
  method FilterPass(mapped: seq<CaseRecord>) returns (kept: seq<CaseRecord>)
    ensures kept == Filter(mapped, Kept)
  {
    kept := [];
    var j := 0;
    while j < |mapped|
      invariant 0 <= j <= |mapped|
      invariant kept == Filter(mapped[..j], Kept)
    {
      FilterConcat(mapped[..j], [mapped[j]], Kept);
      assert mapped[..j + 1] == mapped[..j] + [mapped[j]];
      assert [mapped[j]][1..] == [];
      if mapped[j].date.Some? {
        kept := kept + [mapped[j]];
      }
      j := j + 1;
    }
    assert mapped[..|mapped|] == mapped;
  }

  /**
   `convertExcelToJson` between reading the sheet and writing `data.json`:
   every row mapped in order, then the rows whose date is `undefined`
   removed. The result keeps the mapped rows' order and has no more rows
   than the sheet. A record in it has a readable year exactly when its date
   is not "" (a row whose date cell is the empty string survives with that
   date); without those records it is the intended output, and when no date
   cell is empty every record has a readable year.
   */
  method ConvertExcelToJson(rows: seq<Row>, fallback: string -> Option<int>) returns (jsonData: seq<CaseRecord>)
    ensures jsonData == Filter(MapRowsAsWritten(rows, fallback), Kept)
    ensures |jsonData| <= |rows|
    ensures IsSubsequence(jsonData, MapRowsAsWritten(rows, fallback))
    ensures forall r :: r in jsonData <==> r in MapRowsAsWritten(rows, fallback) && r.date.Some?
    ensures forall r :: r in jsonData ==> (HasYear(r) <==> r.date != Some(""))
    ensures Filter(jsonData, HasDateText) == Filter(MapRows(rows, fallback), Kept)
    ensures (forall i :: 0 <= i < |rows| ==> rows[i].date != Some("")) ==> AllHaveYears(jsonData)
  {
    jsonData := MapPass(rows, fallback);
    jsonData := FilterPass(jsonData);
    SubsequenceOfFilter(MapRowsAsWritten(rows, fallback), Kept);
    AsWrittenKeptYears(rows, fallback);
    AsWrittenLessEmptyDates(rows, fallback);
    if forall i :: 0 <= i < |rows| ==> rows[i].date != Some("") {
      AsWrittenAgrees(rows, fallback);
      KeptRecordsHaveYears(rows, fallback);
    }
  }

  /** Text shaped `YYYY-MM-DD` or `DD/MM/YYYY` is not a number, so it never takes the serial branch. */
  lemma ShapesAreNotSerials(s: string)
    requires IsShortDateText(s) || IsDmyText(s)
    ensures ToNumber(s) == NaN && !IsExcelDate(s)
  {
    if IsShortDateText(s) {
      assert s[9] == s[8..][1];
      ToNumberStopsAt(s, 4);
    } else {
      assert s[9] == s[6..][3];
      ToNumberStopsAt(s, 2);
    }
  }

  /** A cell of decimal digits strictly between 0 and 2958466 is read as a serial day count. */
  lemma DigitCellIsSerial(s: string, fallback: string -> Option<int>)
    requires s != [] && AllDigits(s) && 0 < DigitsValue(s) < 2958466
    ensures ParseDate(s, fallback) == Some(DateAt(DigitsValue(s) - 25569))
  {
    ToNumberOfDigits(s);
  }

  /** Any serial-range cell is rewritten as the `toISOString` date of day `floor(serial) - 25569`. */
  lemma SerialDateText(s: string, fallback: string -> Option<int>)
    requires IsExcelDate(s)
    ensures RowDate(Some(s), fallback) ==
            Some(IsoDateString(FromDayNumber(ToNumber(s).value.Floor - 25569)))
  {
    var t := DateAt(ToNumber(s).value.Floor - 25569);
    IsoDatePart(t);
  }

  /** Serial 44927 is New Year's Day 2023. */
  lemma Serial44927(fallback: string -> Option<int>)
    ensures RowDate(Some("44927"), fallback) == Some("2023-01-01")
  {
    SerialText44927();
    DigitCellIsSerial("44927", fallback);
    NewYear2023();
    IsoDatePart(DateAt(19358));
  }

  lemma SerialText44927()
    ensures AllDigits("44927") && DigitsValue("44927") == 44927
  {
    var s := "44927";
    assert s[..4] == "4492" && "4492"[..3] == "449" && "449"[..2] == "44" && "44"[..1] == "4" && "4"[..0] == [];
  }

  lemma NewYear2023()
    ensures FromDayNumber(19358) == Date(2023, 1, 1)
    ensures IsoDateString(Date(2023, 1, 1)) == "2023-01-01"
  {
    var d := Date(2023, 1, 1);
    assert Leaps(2023) == 490;
    assert DayNumber(d) == 19358;
    FromDayNumberOfDayNumber(d);
    IsoText20230101();
  }

  lemma IsoText20230101()
    ensures IsoDateString(Date(2023, 1, 1)) == "2023-01-01"
  {
    assert YearText(2023) == "2023" by {
      assert Digits(2, 1) == "2";
      assert Digits(20, 2) == "20";
      assert Digits(202, 3) == "202";
    }
    assert Digits(1, 2) == "01" by {
      assert Digits(0, 1) == "0";
    }
  }

  /** `YYYY-MM-DD` text takes the ISO branch. */
  lemma IsoTextBranch(s: string, fallback: string -> Option<int>)
    requires IsShortDateText(s)
    ensures ParseDate(s, fallback) == Some(DateFromIsoText(s))
  {
    ShapesAreNotSerials(s);
  }

  /** `YYYY-MM-DD` text naming a real date is left exactly as it was. */
  lemma IsoTextUnchanged(s: string, fallback: string -> Option<int>)
    requires IsShortDateText(s) && Valid(DateOfDigits('+', s[..4], s[5..7], s[8..]))
    ensures RowDate(Some(s), fallback) == Some(s)
  {
    IsoTextBranch(s, fallback);
    DateFromIsoTextOfValid(s);
    IsoDatePart(DateFromIsoText(s));
  }

  /** `DD/MM/YYYY` text takes the third branch: year from the third group, month from the second, day from the first. */
  lemma DmyTextBranch(s: string, fallback: string -> Option<int>)
    requires IsDmyText(s)
    ensures ParseDate(s, fallback) == Some(DmyDate(s))
  {
    ShapesAreNotSerials(s);
    assert !IsShortDateText(s) by { assert s[4] == s[3..5][1]; }
  }

  /**
   `DD/MM/YYYY` text naming a real date is rewritten as that date in ISO
   form, a year written 0000..0099 meaning 1900..1999.
   */
  lemma DmyTextRewritten(s: string, fallback: string -> Option<int>)
    requires IsDmyText(s)
    requires Valid(Date(MakeFullYear(DigitsValue(s[6..])), DigitsValue(s[3..5]), DigitsValue(s[..2])))
    ensures RowDate(Some(s), fallback) ==
            Some(IsoDateString(Date(MakeFullYear(DigitsValue(s[6..])), DigitsValue(s[3..5]), DigitsValue(s[..2]))))
    ensures FullYearOf(RowDate(Some(s), fallback).value) == Some(MakeFullYear(DigitsValue(s[6..])))
  {
    var d := Date(MakeFullYear(DigitsValue(s[6..])), DigitsValue(s[3..5]), DigitsValue(s[..2]));
    DmyTextBranch(s, fallback);
    DmyDateOfValid(s, d);
    DateTextOfDay(s, fallback, d);
    ReadIsoDateString(d);
  }

  lemma DmyDateOfValid(s: string, d: Date)
    requires IsDmyText(s)
    requires d == Date(MakeFullYear(DigitsValue(s[6..])), DigitsValue(s[3..5]), DigitsValue(s[..2])) && Valid(d)
    ensures 0 <= d.year <= 9999 && DmyDate(s) == DateAt(DayNumber(d))
  {
    DigitsValueBound(s[6..]);
    assert Pow10(4) == 10000;
    MakeDayOfValid(d);
    FourDigitYearsFit(d);
  }

  /** A parse landing on the day of a real date gives that date's ISO text. */
  lemma DateTextOfDay(s: string, fallback: string -> Option<int>, d: Date)
    requires Valid(d) && ParseDate(s, fallback) == Some(DateAt(DayNumber(d)))
    ensures DateText(s, fallback) == Some(IsoDateString(d))
  {
    FromDayNumberOfDayNumber(d);
    IsoDatePart(DateAt(DayNumber(d)));
  }

  /**
   As written, a row whose date cell is the empty string is kept, with a
   date from which no year can be read.
   */
  lemma EmptyDateCellKept(fallback: string -> Option<int>)
    ensures var r := MapRowAsWritten(Row(Some("Gender"), Some(""), None), fallback);
            Filter([r], Kept) == [r] && !HasYear(r)
  {
    var r := MapRowAsWritten(Row(Some("Gender"), Some(""), None), fallback);
    assert r.date == Some("");
    assert [r][1..] == [];
    assert ReadDate("") == None;
  }

  /** Corrected, the same row is dropped. */
  lemma EmptyDateCellDropped(fallback: string -> Option<int>)
    ensures Filter([MapRow(Row(Some("Gender"), Some(""), None), fallback)], Kept) == []
  {
    var r := MapRow(Row(Some("Gender"), Some(""), None), fallback);
    assert [r][1..] == [];
  }
}
