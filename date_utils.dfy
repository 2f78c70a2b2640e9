/** The date-string helpers: `formatDateShort` renders a calendar day as
    DD.MM.YY, and `getTodayISO` cuts the day out of an ISO 8601 timestamp.
    Parsing a date string into a JS Date and reading the clock happen outside
    this model; both functions take what those produce. */
module DateUtils {
  import opened JsString

  /** What the Date getters return: the day of the month, the zero-based
      month and the full year; or, for a string the Date constructor cannot
      parse, an invalid date whose getters all return NaN. */
  datatype DateFields = Fields(day: int, monthIndex: int, fullYear: int) | InvalidDate

  /** `String(d.getDate()).padStart(2, '0')`: the day's own string,
      left-filled with '0' to at least two characters. */
  function DayField(day: int): (r: string)
    ensures |r| >= 2 && |r| >= |IntToString(day)|
    ensures r[|r| - |IntToString(day)|..] == IntToString(day)
    ensures forall i :: 0 <= i < |r| - |IntToString(day)| ==> r[i] == '0'
  {
    PadStart(IntToString(day), 2, '0')
  }

  /** `String(d.getMonth() + 1).padStart(2, '0')`: the one-based month's
      string, left-filled with '0' to at least two characters. */
  function MonthField(monthIndex: int): (r: string)
    ensures |r| >= 2 && |r| >= |IntToString(monthIndex + 1)|
    ensures r[|r| - |IntToString(monthIndex + 1)|..] == IntToString(monthIndex + 1)
    ensures forall i :: 0 <= i < |r| - |IntToString(monthIndex + 1)| ==> r[i] == '0'
  {
    PadStart(IntToString(monthIndex + 1), 2, '0')
  }

  /** `String(d.getFullYear()).slice(2)`: the year's string without its
      first two characters, a minus sign counting as one of them. */
  function YearField(fullYear: int): (r: string)
    ensures |IntToString(fullYear)| <= 2 ==> r == []
    ensures |IntToString(fullYear)| > 2 ==> r == IntToString(fullYear)[2..]
  {
    SliceFrom(IntToString(fullYear), 2)
  }

  /** formatDateShort: day, month and year joined by dots. On an invalid date
      each getter yields NaN, whose string "NaN" is already long enough to
      need no padding and slices to "N". */
  function FormatDateShort(d: DateFields): (r: string)
    ensures d.Fields? ==> r == DayField(d.day) + "." + MonthField(d.monthIndex) + "." + YearField(d.fullYear)
    ensures d.InvalidDate? ==> r == "NaN.NaN.N"
  {
    match d
    case Fields(day, monthIndex, fullYear) =>
      DayField(day) + "." + MonthField(monthIndex) + "." + YearField(fullYear)
    case InvalidDate =>
      PadStart("NaN", 2, '0') + "." + PadStart("NaN", 2, '0') + "." + SliceFrom("NaN", 2)
  }

  /** The day is the digits of `day`, left-padded with '0' to at least two
      characters; they read back as `day`, and a day of the month takes
      exactly two. */
  lemma DayFieldPadded(day: int)
    requires day >= 0
    ensures |DayField(day)| >= 2 && IsDigits(DayField(day))
    ensures DecimalValue(DayField(day)) == day
    ensures day < 10 ==> DayField(day) == "0" + NatToString(day)
    ensures day >= 10 ==> DayField(day) == NatToString(day)
    ensures day <= 31 ==> |DayField(day)| == 2
  {
    PaddedTwoDigits(day);
  }

  /** The month shown is the zero-based month plus one, in two digits for a
      real month, so that month 0 (January) prints "01". */
  lemma MonthFieldOneBased(monthIndex: int)
    requires monthIndex >= 0
    ensures |MonthField(monthIndex)| >= 2 && IsDigits(MonthField(monthIndex))
    ensures DecimalValue(MonthField(monthIndex)) == monthIndex + 1
    ensures monthIndex <= 11 ==> |MonthField(monthIndex)| == 2
    ensures monthIndex == 0 ==> MonthField(monthIndex) == "01"
  {
    PaddedTwoDigits(monthIndex + 1);
    if monthIndex == 0 {
      assert NatToString(1) == "1";
    }
  }

  /** Shared by the day and the month: padding `n` to two digits. */
  lemma PaddedTwoDigits(n: nat)
    ensures var p := PadStart(IntToString(n), 2, '0');
      && |p| >= 2 && IsDigits(p) && DecimalValue(p) == n
      && (n < 10 ==> p == "0" + NatToString(n))
      && (n >= 10 ==> p == NatToString(n))
      && (n < 100 ==> |p| == 2)
  {
    var s := NatToString(n);
    assert IntToString(n) == s;
    var p := PadStart(s, 2, '0');
    NatToStringValue(n);
    PaddedDigits(s, 2);
    if n < 10 {
      assert |s| == 1;
      assert p == Repeat('0', 1) + s;
      LeadingZerosValue(1, s);
    } else {
      NatToStringLength(n, 1);
      NatToStringLength(n, 2);
      assert Pow10(2) == 100;
    }
  }

  /** For a four-digit year the year part is its last two digits. */
  lemma YearFieldLastTwoDigits(fullYear: int)
    requires 1000 <= fullYear <= 9999
    ensures YearField(fullYear) == NatToString(fullYear)[2..]
    ensures |YearField(fullYear)| == 2 && IsDigits(YearField(fullYear))
    ensures DecimalValue(YearField(fullYear)) == fullYear % 100
  {
    var s := NatToString(fullYear);
    assert IntToString(fullYear) == s;
    FourDigitYear(fullYear);
    NatToStringValue(fullYear);
    LastDigitsValue(s, 2);
    assert Pow10(2) == 100;
  }

  lemma FourDigitYear(fullYear: nat)
    requires 1000 <= fullYear <= 9999
    ensures |NatToString(fullYear)| == 4
  {
    NatToStringLength(fullYear, 3);
    NatToStringLength(fullYear, 4);
    assert Pow10(3) == 1000 && Pow10(4) == 10000;
  }

  /** Any year from 0 up: below 100 the year part is empty; from 100 on it
      is all digits but the first two, denoting the year modulo a power of
      ten (one digit for 100-999, two for 1000-9999, more beyond). */
  lemma YearFieldOfNatural(fullYear: nat)
    ensures fullYear < 100 ==> YearField(fullYear) == []
    ensures fullYear >= 100 ==>
      var r := YearField(fullYear);
      && |r| == |NatToString(fullYear)| - 2 && IsDigits(r)
      && DecimalValue(r) == fullYear % Pow10(|r|)
    ensures 100 <= fullYear < 1000 ==> |YearField(fullYear)| == 1
    ensures fullYear >= 10000 ==> |YearField(fullYear)| >= 3
  {
    var s := NatToString(fullYear);
    assert IntToString(fullYear) == s;
    SmallPowers();
    NatToStringLength(fullYear, 2);
    if fullYear >= 100 {
      NatToStringLength(fullYear, 3);
      NatToStringLength(fullYear, 4);
      NatToStringValue(fullYear);
      LastDigitsValue(s, |s| - 2);
    }
  }

  /** A negative year: its minus sign is one of the two characters cut, so
      the year part is the digits of |year| without the first one, which
      denote |year| modulo a power of ten; from -9 to -1 it is empty. */
  lemma YearFieldOfNegative(fullYear: int)
    requires fullYear < 0
    ensures fullYear >= -9 ==> YearField(fullYear) == []
    ensures fullYear <= -10 ==>
      var r := YearField(fullYear);
      && r == NatToString(-fullYear)[1..] && IsDigits(r)
      && DecimalValue(r) == (-fullYear) % Pow10(|r|)
  {
    var s := NatToString(-fullYear);
    assert IntToString(fullYear) == "-" + s;
    NatToStringLength(-fullYear, 1);
    assert Pow10(1) == 10;
    if fullYear <= -10 {
      assert ("-" + s)[2..] == s[1..];
      NatToStringValue(-fullYear);
      LastDigitsValue(s, |s| - 1);
    }
  }

  /** The whole short date for a real calendar day (day 1 to 31, zero-based
      month 0 to 11, four-digit year): eight characters, dots at indices 2 and
      5, and the three fields read back as the day, the one-based month and
      the year modulo 100. */
  lemma FormatDateShortShape(day: int, monthIndex: int, fullYear: int)
    requires 1 <= day <= 31 && 0 <= monthIndex <= 11 && 1000 <= fullYear <= 9999
    ensures var r := FormatDateShort(Fields(day, monthIndex, fullYear));
      && |r| == 8 && r[2] == '.' && r[5] == '.'
      && IsDigits(r[..2]) && DecimalValue(r[..2]) == day
      && IsDigits(r[3..5]) && DecimalValue(r[3..5]) == monthIndex + 1
      && IsDigits(r[6..]) && DecimalValue(r[6..]) == fullYear % 100
  {
    DayFieldPadded(day);
    MonthFieldOneBased(monthIndex);
    YearFieldLastTwoDigits(fullYear);
    DottedTriple(DayField(day), MonthField(monthIndex), YearField(fullYear));
  }

  /** Where the parts of `a.b.c` sit, for two-character parts. */
  lemma DottedTriple(a: string, b: string, c: string)
    requires |a| == 2 && |b| == 2 && |c| == 2
    ensures var r := a + "." + b + "." + c;
      && |r| == 8 && r[2] == '.' && r[5] == '.'
      && r[..2] == a && r[3..5] == b && r[6..] == c
  {
    var r := a + "." + b + "." + c;
    assert r[..2] == a;
    assert r[3..5] == b;
    assert r[6..] == c;
  }

  /** getTodayISO, given the `toISOString()` of the current time: the part
      before the first 'T', which is then free of 'T'. */
  function GetTodayISO(timestamp: string): (r: string)
    ensures |r| <= |timestamp| && r == timestamp[..|r|]
    ensures 'T' !in r
    ensures |r| < |timestamp| ==> timestamp[|r|] == 'T'
  {
    BeforeFirst(timestamp, 'T')
  }

  /** A field of `toISOString()`: `n` zero-padded to `width` digits. */
  function Digits(n: nat, width: nat): string {
    PadStart(NatToString(n), width, '0')
  }

  lemma DigitsShape(n: nat, width: nat)
    requires width >= 1 && n < Pow10(width)
    ensures |Digits(n, width)| == width && IsDigits(Digits(n, width))
  {
    NatToStringLength(n, width);
    PaddedDigits(NatToString(n), width);
  }

  /** The calendar-date part of `toISOString()` for a year 0 to 9999:
      YYYY-MM-DD with the month one-based. */
  function IsoDate(year: nat, month: nat, day: nat): string
    requires year <= 9999 && 1 <= month <= 12 && 1 <= day <= 31
  {
    Digits(year, 4) + "-" + Digits(month, 2) + "-" + Digits(day, 2)
  }

  /** The time-of-day part of `toISOString()`: HH:mm:ss.sssZ. */
  function IsoTime(hour: nat, minute: nat, second: nat, millis: nat): string
    requires hour < 24 && minute < 60 && second < 60 && millis < 1000
  {
    Digits(hour, 2) + ":" + Digits(minute, 2) + ":" + Digits(second, 2) + "." + Digits(millis, 3) + "Z"
  }

  /** `toISOString()` of an instant in years 0 to 9999:
      YYYY-MM-DDTHH:mm:ss.sssZ. */
  function IsoTimestamp(year: nat, month: nat, day: nat, hour: nat, minute: nat, second: nat, millis: nat): string
    requires year <= 9999 && 1 <= month <= 12 && 1 <= day <= 31
    requires hour < 24 && minute < 60 && second < 60 && millis < 1000
  {
    IsoDate(year, month, day) + "T" + IsoTime(hour, minute, second, millis)
  }

  /** The date part is ten characters and holds no 'T'. */
  lemma IsoDateShape(year: nat, month: nat, day: nat)
    requires year <= 9999 && 1 <= month <= 12 && 1 <= day <= 31
    ensures |IsoDate(year, month, day)| == 10 && 'T' !in IsoDate(year, month, day)
  {
    var y, m, d := Digits(year, 4), Digits(month, 2), Digits(day, 2);
    SmallPowers();
    DigitsShape(year, 4);
    DigitsShape(month, 2);
    DigitsShape(day, 2);
    NoLetterInDigits(y);
    NoLetterInDigits(m);
    NoLetterInDigits(d);
    DashedJoin(y, m, d);
  }

  lemma SmallPowers()
    ensures Pow10(2) == 100 && Pow10(3) == 1000 && Pow10(4) == 10000
  {
    assert Pow10(1) == 10;
  }

  lemma DashedJoin(a: string, b: string, c: string)
    requires |a| == 4 && |b| == 2 && |c| == 2
    requires 'T' !in a && 'T' !in b && 'T' !in c
    ensures |a + "-" + b + "-" + c| == 10 && 'T' !in a + "-" + b + "-" + c
  {
  }

  lemma NoLetterInDigits(s: string)
    requires IsDigits(s)
    ensures 'T' !in s
  {
  }

  /** On a standard `toISOString()` value, getTodayISO yields exactly the
      ten-character YYYY-MM-DD date. */
  lemma TodayOfIsoTimestamp(year: nat, month: nat, day: nat, hour: nat, minute: nat, second: nat, millis: nat)
    requires year <= 9999 && 1 <= month <= 12 && 1 <= day <= 31
    requires hour < 24 && minute < 60 && second < 60 && millis < 1000
    ensures GetTodayISO(IsoTimestamp(year, month, day, hour, minute, second, millis)) == IsoDate(year, month, day)
    ensures |IsoDate(year, month, day)| == 10
  {
    var date := IsoDate(year, month, day);
    IsoDateShape(year, month, day);
    CutAtSeparator(date, IsoTime(hour, minute, second, millis));
  }

  /** Cutting `a + "T" + b` at its first 'T' gives `a` when `a` has none. */
  lemma CutAtSeparator(a: string, b: string)
    requires 'T' !in a
    ensures GetTodayISO(a + "T" + b) == a
  {
    var ts := a + "T" + b;
    assert ts[..|a|] == a;
    assert ts[|a|] == 'T';
    BeforeFirstUnique(ts, 'T', a);
  }

  /** Zero-padding keeps a digit string all digits. */
  lemma PaddedDigits(s: string, n: nat)
    requires IsDigits(s)
    ensures IsDigits(PadStart(s, n, '0'))
  {
    var p := PadStart(s, n, '0');
    forall i | 0 <= i < |p| ensures IsDigit(p[i]) {
      if i >= |p| - |s| {
        assert p[i] == p[|p| - |s|..][i - (|p| - |s|)];
      }
    }
  }
}
