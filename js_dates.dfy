/**
 The parts of JavaScript's `Date` the pipeline uses, with the local time
 zone taken to be UTC and every time value a whole number of days (all the
 dates the scripts build fall on midnight): construction from year, month
 and day, construction from a time value, `toISOString`, and reading the
 year back from a canonical date string.
 */
module JsDates {
  import opened Wrappers
  import opened JsText
  import opened Calendar

  /** A `Date` object: midnight of day `day` counted from 1970-01-01, or the invalid date (time value NaN). */
  datatype JsDate = InvalidDate | DateAt(day: int)

  /** 8.64e15 milliseconds, the largest time value a `Date` may hold, in days. */
  const MaxDays: int := 100000000

  /** TimeClip (section 21.4.1.31 of ECMA-262) for a time value of `n` whole days. */
  function TimeClip(n: int): (t: JsDate)
    ensures t.DateAt? <==> -MaxDays <= n <= MaxDays
    ensures t.DateAt? ==> t.day == n
  {
    if -MaxDays <= n <= MaxDays then DateAt(n) else InvalidDate
  }

  /** MakeDay (section 21.4.1.28): the month first folded into the year, then the days added. */
  function MakeDay(year: int, month: int, date: int): int
  {
    var ym := year + month / 12;
    var mn := month % 12;
    DayNumber(Date(ym, mn + 1, 1)) + date - 1
  }

  /** For a real date, MakeDay with the zero-based month is the date's day number. */
  lemma MakeDayOfValid(d: Date)
    requires Valid(d)
    ensures MakeDay(d.year, d.month - 1, d.day) == DayNumber(d)
  {
    DivModUnique(d.month - 1, 12, 0, d.month - 1);
    assert DayNumber(Date(d.year, d.month, 1)) + d.day - 1 == DayNumber(d);
  }

  /** MakeFullYear's rule in the `Date` constructor: a year from 0 to 99 means 1900 to 1999. */
  function MakeFullYear(y: int): (r: int)
    ensures 0 <= y <= 99 ==> r == 1900 + y
    ensures (y < 0 || y > 99) ==> r == y
  {
    if 0 <= y <= 99 then 1900 + y else y
  }

  /** `new Date(year, monthIndex, day)` with integer arguments, in local time (here UTC). */
  function NewDateFromParts(year: int, monthIndex: int, day: int): JsDate
  {
    TimeClip(MakeDay(MakeFullYear(year), monthIndex, day))
  }

  /** `getFullYear()`, `getMonth() + 1` and `getDate()` of a valid `Date`, in UTC. */
  function Civil(t: JsDate): (d: Date)
    requires t.DateAt?
    ensures Valid(d) && DayNumber(d) == t.day
  {
    FromDayNumber(t.day)
  }

  /** Rebuilding a `Date` from its own year, month and day gives the same day, unless the year is 0..99. */
  lemma RebuildFromParts(t: JsDate)
    requires t.DateAt? && -MaxDays <= t.day <= MaxDays
    requires Civil(t).year < 0 || Civil(t).year > 99
    ensures NewDateFromParts(Civil(t).year, Civil(t).month - 1, Civil(t).day) == t
  {
    MakeDayOfValid(Civil(t));
  }

  /** Every day a `Date` can hold lies in a year of at most six digits. */
  lemma ClippedYears(n: int)
    requires -MaxDays <= n <= MaxDays
    ensures -999999 <= FromDayNumber(n).year <= 999999
  {
    var y := FromDayNumber(n).year;
    YearOfDayNumber(n, y);
    if y > 999999 {
      DaysBeforeYearMonotone(1000000, y);
    } else if y < -999999 {
      DaysBeforeYearMonotone(y + 1, -999999);
    }
  }

  /** Days in years 0..9999 are within the range a `Date` can hold. */
  lemma FourDigitYearsFit(d: Date)
    requires Valid(d) && 0 <= d.year <= 9999
    ensures -MaxDays <= DayNumber(d) <= MaxDays
  {
    DayNumberInYear(d);
    DaysBeforeYearMonotone(0, d.year);
    DaysBeforeYearMonotone(d.year + 1, 10000);
  }

  /**
   `new Date(s)` for a string matching `^\d{4}-\d{2}-\d{2}$`, as V8 parses
   it: a month 1..12 and a day 1..31 are accepted, read as UTC midnight, and
   a day past the end of its month runs on into the next month; any other
   month or day gives the invalid date.
   */
  function DateFromIsoText(s: string): JsDate
    requires IsShortDateText(s)
  {
    var d := DateOfDigits('+', s[..4], s[5..7], s[8..]);
    if 1 <= d.month <= 12 && 1 <= d.day <= 31 then TimeClip(MakeDay(d.year, d.month - 1, d.day))
    else InvalidDate
  }

  /** A `YYYY-MM-DD` text naming a real date is parsed to that date. */
  lemma DateFromIsoTextOfValid(s: string)
    requires IsShortDateText(s) && Valid(DateOfDigits('+', s[..4], s[5..7], s[8..]))
    ensures DateFromIsoText(s).DateAt?
    ensures Civil(DateFromIsoText(s)) == DateOfDigits('+', s[..4], s[5..7], s[8..])
    ensures IsoDateString(Civil(DateFromIsoText(s))) == s
  {
    var d := DateOfDigits('+', s[..4], s[5..7], s[8..]);
    DigitsValueBound(s[..4]);
    assert Pow10(4) == 10000;
    MakeDayOfValid(d);
    FourDigitYearsFit(d);
    FromDayNumberOfDayNumber(d);
    IsoDateStringOfDigits(s);
  }

  /** The date part of `toISOString`: `YYYY-MM-DD`, or `+YYYYYY-MM-DD` / `-YYYYYY-MM-DD` outside years 0..9999. */
  function IsoDateString(d: Date): string
    requires Valid(d)
  {
    YearText(d.year) + "-" + Digits(d.month, 2) + "-" + Digits(d.day, 2)
  }

  function YearText(y: int): string
  {
    if 0 <= y <= 9999 then Digits(y, 4)
    else (if y < 0 then "-" else "+") + Digits(if y < 0 then -y else y, 6)
  }

  /** `toISOString()` of a valid `Date` whose time of day is midnight. */
  function ToIsoString(t: JsDate): string
    requires t.DateAt?
  {
    IsoDateString(Civil(t)) + "T00:00:00.000Z"
  }

  /** `toISOString().split('T')[0]` is the date part. */
  lemma IsoDatePart(t: JsDate)
    requires t.DateAt?
    ensures Split(ToIsoString(t), 'T')[0] == IsoDateString(Civil(t))
  {
    var a := IsoDateString(Civil(t));
    assert ToIsoString(t) == a + ['T'] + "00:00:00.000Z";
    assert 'T' !in a by {
      assert forall k :: 0 <= k < |a| ==> a[k] == '-' || a[k] == '+' || IsDigit(a[k]);
    }
    SplitFirstPiece(a, 'T', "00:00:00.000Z");
  }

  /**
   The date a canonical date string names, read off its components:
   `YYYY-MM-DD` or a sign, six year digits, `-MM-DD`; nothing for any other text.
   */
  function ReadDate(s: string): Option<Date>
  {
    if IsShortDateText(s) then Some(DateOfDigits('+', s[..4], s[5..7], s[8..]))
    else if IsLongDateText(s) then Some(DateOfDigits(s[0], s[1..7], s[8..10], s[11..]))
    else None
  }

  /** The date written with year digits `y` (negated after a minus sign), month digits `m` and day digits `d`. */
  function DateOfDigits(sign: char, y: string, m: string, d: string): Date
    requires AllDigits(y) && AllDigits(m) && AllDigits(d)
  {
    var v: int := DigitsValue(y);
    Date(if sign == '-' then -v else v, DigitsValue(m), DigitsValue(d))
  }

  /** `^\d{4}-\d{2}-\d{2}$`. */
  predicate IsShortDateText(s: string)
  {
    |s| == 10 && AllDigits(s[..4]) && s[4] == '-' && AllDigits(s[5..7]) && s[7] == '-' && AllDigits(s[8..])
  }

  /** `^[+-]\d{6}-\d{2}-\d{2}$`. */
  predicate IsLongDateText(s: string)
  {
    |s| == 13 && (s[0] == '+' || s[0] == '-') && AllDigits(s[1..7]) && s[7] == '-'
    && AllDigits(s[8..10]) && s[10] == '-' && AllDigits(s[11..])
  }

  /**
   `new Date(s).getFullYear()` on a canonical date string: its year component
   (nothing, standing for NaN, when `s` is not such a string).
   */
  function FullYearOf(s: string): Option<int>
  {
    match ReadDate(s)
    case Some(d) => Some(d.year)
    case None => None
  }

  /** A date written by `toISOString` reads back as itself. */
  lemma ReadIsoDateString(d: Date)
    requires Valid(d) && -999999 <= d.year <= 999999
    ensures ReadDate(IsoDateString(d)) == Some(d)
    ensures FullYearOf(IsoDateString(d)) == Some(d.year)
  {
    if 0 <= d.year <= 9999 {
      ReadFourDigitYear(d);
    } else {
      ReadSixDigitYear(d);
    }
  }

  lemma TwoDigitsValue(n: nat)
    requires n <= 99
    ensures DigitsValue(Digits(n, 2)) == n
  {
    DigitsValueOfDigits(n, 2);
    assert Pow10(2) == 100;
    DivModUnique(n, 100, 0, n);
  }

  lemma ReadFourDigitYear(d: Date)
    requires Valid(d) && 0 <= d.year <= 9999
    ensures ReadDate(IsoDateString(d)) == Some(d)
  {
    var y, m, dd := Digits(d.year, 4), Digits(d.month, 2), Digits(d.day, 2);
    assert YearText(d.year) == y;
    assert IsoDateString(d) == y + "-" + m + "-" + dd;
    ReadShortDate(y, m, dd);
    TwoDigitsValue(d.month);
    TwoDigitsValue(d.day);
    FourDigitsValue(d.year);
  }

  lemma FourDigitsValue(a: nat)
    requires a <= 9999
    ensures DigitsValue(Digits(a, 4)) == a
  {
    DigitsValueOfDigits(a, 4);
    assert Pow10(2) == 100;
    assert Pow10(4) == 10000;
    DivModUnique(a, 10000, 0, a);
  }

  lemma ReadShortDate(y: string, m: string, dd: string)
    requires |y| == 4 && |m| == 2 && |dd| == 2 && AllDigits(y) && AllDigits(m) && AllDigits(dd)
    ensures ReadDate(y + "-" + m + "-" + dd) == Some(DateOfDigits('+', y, m, dd))
  {
    var s := y + "-" + m + "-" + dd;
    assert s[..4] == y;
    assert s[5..7] == m;
    assert s[8..] == dd;
    assert s[4] == '-' && s[7] == '-';
  }

  lemma ReadSixDigitYear(d: Date)
    requires Valid(d) && -999999 <= d.year <= 999999 && !(0 <= d.year <= 9999)
    ensures ReadDate(IsoDateString(d)) == Some(d)
  {
    var a: nat := if d.year < 0 then -d.year else d.year;
    var sign := if d.year < 0 then '-' else '+';
    var y, m, dd := Digits(a, 6), Digits(d.month, 2), Digits(d.day, 2);
    assert YearText(d.year) == [sign] + y;
    assert IsoDateString(d) == [sign] + y + "-" + m + "-" + dd;
    ReadSignedDate(sign, y, m, dd);
    TwoDigitsValue(d.month);
    TwoDigitsValue(d.day);
    SixDigitsValue(a);
  }

  lemma SixDigitsValue(a: nat)
    requires a <= 999999
    ensures DigitsValue(Digits(a, 6)) == a
  {
    DigitsValueOfDigits(a, 6);
    assert Pow10(3) == 1000;
    assert Pow10(6) == 1000000;
    DivModUnique(a, 1000000, 0, a);
  }

  lemma ReadSignedDate(sign: char, y: string, m: string, dd: string)
    requires sign == '+' || sign == '-'
    requires |y| == 6 && |m| == 2 && |dd| == 2 && AllDigits(y) && AllDigits(m) && AllDigits(dd)
    ensures ReadDate([sign] + y + "-" + m + "-" + dd) == Some(DateOfDigits(sign, y, m, dd))
  {
    var s := [sign] + y + "-" + m + "-" + dd;
    assert s[1..7] == y;
    assert s[8..10] == m;
    assert s[11..] == dd;
    assert s[0] == sign && s[7] == '-' && s[10] == '-';
    assert !IsShortDateText(s) && IsLongDateText(s);
  }

  /** Dates in years 0..9999 are written `YYYY-MM-DD`. */
  lemma IsoDateStringShape(d: Date)
    requires Valid(d) && 0 <= d.year <= 9999
    ensures |IsoDateString(d)| == 10 && IsoDateString(d)[4] == '-' && IsoDateString(d)[7] == '-'
    ensures AllDigits(IsoDateString(d)[..4]) && AllDigits(IsoDateString(d)[5..7]) && AllDigits(IsoDateString(d)[8..])
  {
    var s := IsoDateString(d);
    assert s == Digits(d.year, 4) + "-" + Digits(d.month, 2) + "-" + Digits(d.day, 2);
    assert s[..4] == Digits(d.year, 4) && s[5..7] == Digits(d.month, 2) && s[8..] == Digits(d.day, 2);
  }

  /** A real date in years 0..9999, written as `YYYY-MM-DD` digits, is what `toISOString` writes. */
  lemma IsoDateStringOfDigits(s: string)
    requires |s| == 10 && AllDigits(s[..4]) && s[4] == '-' && AllDigits(s[5..7]) && s[7] == '-' && AllDigits(s[8..])
    requires Valid(Date(DigitsValue(s[..4]), DigitsValue(s[5..7]), DigitsValue(s[8..])))
    ensures IsoDateString(Date(DigitsValue(s[..4]), DigitsValue(s[5..7]), DigitsValue(s[8..]))) == s
  {
    DigitsOfDigitsValue(s[..4]);
    DigitsOfDigitsValue(s[5..7]);
    DigitsOfDigitsValue(s[8..]);
    DigitsValueBound(s[..4]);
    assert Pow10(4) == 10000;
    assert s == s[..4] + "-" + s[5..7] + "-" + s[8..];
  }
}
