/** The part of System.DateTime that ParseAndConvertDate relies on: the exact format
    yyyy-MM-dd in the proleptic Gregorian calendar, instants as ticks of 100 ns since
    0001-01-01T00:00:00, and the rendering yyyy-MM-ddTHH:mm:ss.fffZ. */
module Calendar {
  import opened Wrappers

  predicate IsDigit(c: char) { '0' <= c <= '9' }

  predicate AllDigits(s: string) {
    forall i :: 0 <= i < |s| ==> IsDigit(s[i])
  }

  function DigitValue(c: char): nat
    requires IsDigit(c)
  {
    c as int - '0' as int
  }

  function DigitChar(n: nat): char
    requires n < 10
  {
    ('0' as int + n) as char
  }

  /** The number a string of decimal digits denotes. */
  function ValueOf(s: string): nat
    requires AllDigits(s)
    decreases |s|
  {
    if s == [] then 0 else ValueOf(s[..|s| - 1]) * 10 + DigitValue(s[|s| - 1])
  }

  function Pow10(w: nat): nat {
    if w == 0 then 1 else 10 * Pow10(w - 1)
  }

  /** n written with exactly w digits, zero-padded on the left (the low w digits of n). */
  function Digits(n: nat, w: nat): (s: string)
    ensures |s| == w && AllDigits(s)
  {
    if w == 0 then "" else Digits(n / 10, w - 1) + [DigitChar(n % 10)]
  }

  /** Reading back a w-digit rendering of n gives n when n has at most w digits. */
  lemma {:induction false} ValueOfDigits(n: nat, w: nat)
    requires n < Pow10(w)
    ensures ValueOf(Digits(n, w)) == n
  {
    if w > 0 {
      ValueOfDigits(n / 10, w - 1);
      var s := Digits(n, w);
      assert s[..|s| - 1] == Digits(n / 10, w - 1);
    }
  }

  /** Rendering the value of a digit string with its own width gives the string back. */
  lemma {:induction false} DigitsValueOf(s: string)
    requires AllDigits(s)
    decreases |s|
    ensures Digits(ValueOf(s), |s|) == s
  {
    if s != [] {
      var p := s[..|s| - 1];
      var v := ValueOf(p);
      var d := DigitValue(s[|s| - 1]);
      DigitsValueOf(p);
      assert (v * 10 + d) / 10 == v && (v * 10 + d) % 10 == d;
      assert p + [s[|s| - 1]] == s;
    }
  }

  datatype Date = Date(year: int, month: int, day: int)

  predicate IsLeapYear(y: int) {
    y % 4 == 0 && (y % 100 != 0 || y % 400 == 0)
  }

  function DaysInMonth(y: int, m: int): int {
    if m == 2 then (if IsLeapYear(y) then 29 else 28)
    else if m == 4 || m == 6 || m == 9 || m == 11 then 30
    else 31
  }

  /** The dates DateTime can hold. */
  predicate ValidDate(d: Date) {
    1 <= d.year <= 9999 && 1 <= d.month <= 12 && 1 <= d.day <= DaysInMonth(d.year, d.month)
  }

  /** DateTime.MaxValue's date; the day after it cannot be represented. */
  const MaxDate := Date(9999, 12, 31)

  /** DateTime.TryParseExact(s, "yyyy-MM-dd"): four, two and two digits separated by '-',
      forming a date of the calendar; no surrounding white space is allowed. */
  function ParseYmd(s: string): (r: Option<Date>)
    ensures r.Some? ==> ValidDate(r.value)
  {
    if |s| == 10 && s[4] == '-' && s[7] == '-'
       && AllDigits(s[..4]) && AllDigits(s[5..7]) && AllDigits(s[8..])
    then
      var d := Date(ValueOf(s[..4]), ValueOf(s[5..7]), ValueOf(s[8..]));
      if ValidDate(d) then Some(d) else None
    else None
  }

  /** The date in the form yyyy-MM-dd. */
  function FormatDate(d: Date): (s: string)
    requires ValidDate(d)
    ensures |s| == 10
  {
    Digits(d.year, 4) + "-" + Digits(d.month, 2) + "-" + Digits(d.day, 2)
  }

  /** Parsing what FormatDate prints gives the date back. */
  lemma ParseFormat(d: Date)
    requires ValidDate(d)
    ensures ParseYmd(FormatDate(d)) == Some(d)
  {
    var s := FormatDate(d);
    assert s[..4] == Digits(d.year, 4);
    assert s[5..7] == Digits(d.month, 2);
    assert s[8..] == Digits(d.day, 2);
    ValueOfDigits(d.year, 4);
    ValueOfDigits(d.month, 2);
    ValueOfDigits(d.day, 2);
  }

  /** Formatting a parsed date gives back exactly the text it was parsed from. */
  lemma FormatParse(s: string)
    requires ParseYmd(s).Some?
    ensures FormatDate(ParseYmd(s).value) == s
  {
    DigitsValueOf(s[..4]);
    DigitsValueOf(s[5..7]);
    DigitsValueOf(s[8..]);
    assert s == s[..4] + "-" + s[5..7] + "-" + s[8..];
  }

  // ---- Day numbers and ticks ----

  const TicksPerMillisecond := 10_000
  const MillisecondsPerDay := 86_400_000
  const TicksPerDay := 864_000_000_000

  /** Days from 0001-01-01 to the first day of year y. */
  function DaysBeforeYear(y: int): int
    requires y >= 1
  {
    var p := y - 1;
    365 * p + p / 4 - p / 100 + p / 400
  }

  /** Days from the first of the year to the first of month m, as in the tables of DateTime. */
  function DaysBeforeMonth(y: int, m: int): int
    requires 1 <= m <= 12
  {
    [0, 31, 59, 90, 120, 151, 181, 212, 243, 273, 304, 334][m - 1]
    + (if m > 2 && IsLeapYear(y) then 1 else 0)
  }

  /** The number of days from 0001-01-01 to d. */
  function DayNumber(d: Date): int
    requires ValidDate(d)
  {
    DaysBeforeYear(d.year) + DaysBeforeMonth(d.year, d.month) + d.day - 1
  }

  /** The month table agrees with the month lengths. */
  lemma DaysBeforeNextMonth(y: int, m: int)
    requires 1 <= m < 12
    ensures DaysBeforeMonth(y, m + 1) == DaysBeforeMonth(y, m) + DaysInMonth(y, m)
  {
  }

  /** A year has 366 days when it is a leap year and 365 otherwise. */
  lemma DaysBeforeNextYear(y: int)
    requires y >= 1
    ensures DaysBeforeYear(y + 1) == DaysBeforeYear(y) + (if IsLeapYear(y) then 366 else 365)
  {
    var p := y - 1;
    assert (p + 1) / 4 == p / 4 + (if y % 4 == 0 then 1 else 0);
    assert (p + 1) / 100 == p / 100 + (if y % 100 == 0 then 1 else 0);
    assert (p + 1) / 400 == p / 400 + (if y % 400 == 0 then 1 else 0);
  }

  /** The next day of the calendar has the next day number. */
  lemma NextDayNumber(d: Date)
    requires ValidDate(d) && d != MaxDate
    ensures var n := if d.day < DaysInMonth(d.year, d.month) then Date(d.year, d.month, d.day + 1)
                     else if d.month < 12 then Date(d.year, d.month + 1, 1)
                     else Date(d.year + 1, 1, 1);
      ValidDate(n) && DayNumber(n) == DayNumber(d) + 1
  {
    if d.day == DaysInMonth(d.year, d.month) {
      if d.month < 12 {
        DaysBeforeNextMonth(d.year, d.month);
      } else {
        DaysBeforeNextYear(d.year);
      }
    }
  }

  /** Day numbers grow with the year. */
  lemma {:induction false} DaysBeforeYearMonotone(y: int, z: int)
    requires 1 <= y <= z
    decreases z - y
    ensures DaysBeforeYear(y) <= DaysBeforeYear(z)
  {
    if y < z {
      DaysBeforeNextYear(y);
      DaysBeforeYearMonotone(y + 1, z);
    }
  }

  /** Every date lies within DateTime's range, and only MaxDate has no next day: its day
      number is the last one, 3652058. */
  lemma DayNumberRange(d: Date)
    requires ValidDate(d)
    ensures 0 <= DayNumber(d) <= DayNumber(MaxDate) == 3652058
    ensures DayNumber(d) == DayNumber(MaxDate) <==> d == MaxDate
  {
    DaysBeforeNextYear(d.year);
    if d.year < 9999 {
      DaysBeforeYearMonotone(d.year + 1, 9999);
    }
    assert DaysBeforeYear(d.year) >= 0;
  }

  /** The instant at the start of date d, and ms milliseconds into it. */
  function Ticks(d: Date, ms: int): int
    requires ValidDate(d)
  {
    DayNumber(d) * TicksPerDay + ms * TicksPerMillisecond
  }

  /** DateTime.ToString("yyyy-MM-ddTHH:mm:ss.fffZ") of the instant ms milliseconds into d,
      with ':' as the time separator; 'T' and 'Z' are literal characters. */
  function Iso(d: Date, ms: nat): string
    requires ValidDate(d) && ms < MillisecondsPerDay
  {
    var h := ms / 3_600_000;
    var mi := ms / 60_000 % 60;
    var sec := ms / 1000 % 60;
    FormatDate(d) + "T" + Digits(h, 2) + ":" + Digits(mi, 2) + ":" + Digits(sec, 2)
      + "." + Digits(ms % 1000, 3) + "Z"
  }

  /** The start of the day prints as the date followed by T00:00:00.000Z. */
  lemma IsoStartOfDay(d: Date)
    requires ValidDate(d)
    ensures Iso(d, 0) == FormatDate(d) + "T00:00:00.000Z"
  {
  }

  /** The last millisecond of the day prints as the date followed by T23:59:59.999Z. */
  lemma IsoEndOfDay(d: Date)
    requires ValidDate(d)
    ensures Iso(d, MillisecondsPerDay - 1) == FormatDate(d) + "T23:59:59.999Z"
  {
    assert Digits(23, 2) == "23";
    assert Digits(59, 2) == "59";
    assert Digits(999, 3) == "999";
  }
}
