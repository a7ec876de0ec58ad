/** Calendar dates as Python's `datetime.date` sees them: the proleptic
    Gregorian ordinal behind `date - date`, `strftime("%Y-%m-%d")`, and the
    two `strptime` formats the pipeline parses ("%Y-%m-%d" for the extracted
    target date, "%Y-%m-%d %H:%M" for the provider's hourly timestamps). */
module Dates {
  import opened PyValues

  datatype Date = Date(year: int, month: int, day: int)

  predicate IsLeapYear(year: int) {
    year % 4 == 0 && (year % 100 != 0 || year % 400 == 0)
  }

  function DaysInMonth(year: int, month: int): int {
    if month == 2 then (if IsLeapYear(year) then 29 else 28)
    else if month == 4 || month == 6 || month == 9 || month == 11 then 30
    else 31
  }

  function DaysInYear(year: int): int {
    if IsLeapYear(year) then 366 else 365
  }

  /** A date `datetime.date` can hold: years MINYEAR = 1 to MAXYEAR = 9999. */
  predicate ValidDate(d: Date) {
    1 <= d.year <= 9999 && 1 <= d.month <= 12 && 1 <= d.day <= DaysInMonth(d.year, d.month)
  }

  /** Days in the years before `year`, as CPython's `_days_before_year`. */
  function DaysBeforeYear(year: int): int
    requires 1 <= year
  {
    var y := year - 1;
    y * 365 + y / 4 - y / 100 + y / 400
  }

  /** Days in the months of `year` before `month`, as CPython's `_days_before_month`. */
  function DaysBeforeMonth(year: int, month: int): int
    requires 1 <= month <= 12
  {
    var common :=
      if month == 1 then 0 else if month == 2 then 31 else if month == 3 then 59
      else if month == 4 then 90 else if month == 5 then 120 else if month == 6 then 151
      else if month == 7 then 181 else if month == 8 then 212 else if month == 9 then 243
      else if month == 10 then 273 else if month == 11 then 304 else 334;
    common + (if month > 2 && IsLeapYear(year) then 1 else 0)
  }

  /** `d.toordinal()`: 0001-01-01 is day 1. */
  function Ordinal(d: Date): (n: int)
    requires ValidDate(d)
    ensures 1 <= n
    ensures d == Date(1, 1, 1) ==> n == 1
  {
    DaysBeforeYear(d.year) + DaysBeforeMonth(d.year, d.month) + d.day
  }

  /** `(a - b).days`: zero for the same day, negative when `a` is earlier, positive when later. */
  function DaysBetween(a: Date, b: Date): (n: int)
    requires ValidDate(a) && ValidDate(b)
    ensures a == b ==> n == 0
    ensures Precedes(a, b) ==> n < 0
    ensures Precedes(b, a) ==> n > 0
  {
    OrdinalCompare(a, b);
    OrdinalCompare(b, a);
    Ordinal(a) - Ordinal(b)
  }

  /** The calendar day after `d`. */
  function NextDay(d: Date): Date {
    if d.day < DaysInMonth(d.year, d.month) then Date(d.year, d.month, d.day + 1)
    else if d.month < 12 then Date(d.year, d.month + 1, 1)
    else Date(d.year + 1, 1, 1)
  }

  /** `a` is an earlier calendar day than `b`. */
  predicate Precedes(a: Date, b: Date) {
    a.year < b.year
    || (a.year == b.year && a.month < b.month)
    || (a.year == b.year && a.month == b.month && a.day < b.day)
  }

  /** Counting the multiples of `n` in `1..year` adds one exactly when `year` is one. */
  lemma MultipleStep(year: int, n: int)
    requires 1 <= year && (n == 4 || n == 100 || n == 400)
    ensures year / n == (year - 1) / n + (if year % n == 0 then 1 else 0)
  {
    if n == 4 {
    } else if n == 100 {
    } else {
    }
  }

  lemma YearStep(year: int)
    requires 1 <= year
    ensures DaysBeforeYear(year + 1) == DaysBeforeYear(year) + DaysInYear(year)
  {
    MultipleStep(year, 4);
    MultipleStep(year, 100);
    MultipleStep(year, 400);
    LeapByMultiples(year);
  }

  /** A year is one day longer for each of: divisible by 4, not by 100, but again by 400. */
  lemma LeapByMultiples(year: int)
    ensures DaysInYear(year)
            == 365 + (if year % 4 == 0 then 1 else 0) - (if year % 100 == 0 then 1 else 0)
               + (if year % 400 == 0 then 1 else 0)
  {
    if year % 400 == 0 {
      var k := year / 400;
      assert year == 100 * (4 * k) && year == 4 * (100 * k);
    } else if year % 100 == 0 {
      var k := year / 100;
      assert year == 4 * (25 * k);
    }
  }

  lemma MonthStep(year: int, month: int)
    requires 1 <= month < 12
    ensures DaysBeforeMonth(year, month + 1) == DaysBeforeMonth(year, month) + DaysInMonth(year, month)
  {
  }

  lemma {:induction false} DaysBeforeYearGrows(y1: int, y2: int)
    requires 1 <= y1 <= y2
    ensures DaysBeforeYear(y1) + 365 * (y2 - y1) <= DaysBeforeYear(y2)
  {
    if y1 < y2 {
      DaysBeforeYearGrows(y1, y2 - 1);
      YearStep(y2 - 1);
    }
  }

  lemma {:induction false} DaysBeforeMonthGrows(year: int, m1: int, m2: int)
    requires 1 <= m1 < m2 <= 12
    ensures DaysBeforeMonth(year, m1) + DaysInMonth(year, m1) <= DaysBeforeMonth(year, m2)
    decreases m2 - m1
  {
    MonthStep(year, m1);
    if m1 + 1 < m2 {
      DaysBeforeMonthGrows(year, m1 + 1, m2);
    }
  }

  /** Every valid date lies inside its own year's block of ordinals. */
  lemma OrdinalWithinYear(d: Date)
    requires ValidDate(d)
    ensures DaysBeforeYear(d.year) < Ordinal(d) <= DaysBeforeYear(d.year + 1)
  {
    YearStep(d.year);
    if d.month < 12 {
      DaysBeforeMonthGrows(d.year, d.month, 12);
    }
  }

  /** The ordinal of the next day is one more: "tomorrow" is exactly one day away. */
  lemma NextDayOrdinal(d: Date)
    requires ValidDate(d) && d != Date(9999, 12, 31)
    ensures ValidDate(NextDay(d))
    ensures Ordinal(NextDay(d)) == Ordinal(d) + 1
  {
    if d.day == DaysInMonth(d.year, d.month) {
      if d.month < 12 {
        MonthStep(d.year, d.month);
      } else {
        YearStep(d.year);
      }
    }
  }

  lemma OrdinalCompare(a: Date, b: Date)
    requires ValidDate(a) && ValidDate(b)
    ensures Precedes(a, b) ==> Ordinal(a) < Ordinal(b)
  {
    if Precedes(a, b) {
      OrdinalOrder(a, b);
    }
  }

  /** Ordinals follow calendar order, so `(a - b).days` is negative when `a` is earlier. */
  lemma OrdinalOrder(a: Date, b: Date)
    requires ValidDate(a) && ValidDate(b)
    requires Precedes(a, b)
    ensures Ordinal(a) < Ordinal(b)
  {
    if a.year < b.year {
      OrdinalWithinYear(a);
      DaysBeforeYearGrows(a.year + 1, b.year);
    } else if a.month < b.month {
      DaysBeforeMonthGrows(a.year, a.month, b.month);
    }
  }

  /** `(target - today).days + 1`: how many forecast days, counted from today, reach the target. */
  function ForecastDays(target: Date, today: Date): (n: int)
    requires ValidDate(target) && ValidDate(today)
    ensures target == today ==> n == 1
  {
    DaysBetween(target, today) + 1
  }

  /** Tomorrow needs a two-day forecast. */
  lemma ForecastDaysTomorrow(today: Date)
    requires ValidDate(today) && today != Date(9999, 12, 31)
    ensures ValidDate(NextDay(today)) && ForecastDays(NextDay(today), today) == 2
  {
    NextDayOrdinal(today);
  }

  /** There is no clamping: a target before today asks for zero or fewer days. */
  lemma ForecastDaysPast(target: Date, today: Date)
    requires ValidDate(target) && ValidDate(today) && Precedes(target, today)
    ensures ForecastDays(target, today) <= 0
  {
    OrdinalOrder(target, today);
  }

  // ---------------------------------------------------------------------
  // strftime("%Y-%m-%d")

  function Pad2(n: int): (s: string)
    requires 0 <= n < 100
  {
    [DigitChar(n / 10), DigitChar(n % 10)]
  }

  function Pad4(n: int): (s: string)
    requires 0 <= n < 10000
  {
    [DigitChar(n / 1000), DigitChar(n / 100 % 10), DigitChar(n / 10 % 10), DigitChar(n % 10)]
  }

  /** `d.strftime("%Y-%m-%d")`, zero-padded: "YYYY-MM-DD". */
  function Format(d: Date): (s: string)
    requires ValidDate(d)
    ensures |s| == 10 && s[4] == '-' && s[7] == '-'
    ensures forall k :: 0 <= k < 10 && k != 4 && k != 7 ==> IsDigit(s[k])
  {
    Pad4(d.year) + "-" + Pad2(d.month) + "-" + Pad2(d.day)
  }

  // ---------------------------------------------------------------------
  // strptime(s, "%Y-%m-%d"): CPython turns the format into the regular
  // expression (\d\d\d\d)-(1[0-2]|0[1-9]|[1-9])-(3[01]|[12]\d|0[1-9]|[1-9]| [1-9]),
  // matches it at the START of the string, rejects any text left after the
  // match, and only then builds the date.

  /** A group of the regular expression: the number it denotes and the position just after it. */
  datatype Group = Group(value: int, end: nat)

  /** `\d\d\d\d` */
  function YearField(t: string): Option<int> {
    if |t| == 4 && IsDigit(t[0]) && IsDigit(t[1]) && IsDigit(t[2]) && IsDigit(t[3])
    then Some(1000 * DigitValue(t[0]) + 100 * DigitValue(t[1]) + 10 * DigitValue(t[2]) + DigitValue(t[3]))
    else None
  }

  /** `1[0-2]|0[1-9]|[1-9]` at position `i`, followed by the '-' the pattern needs next.
      When a two-digit alternative matches, the next character is a digit, so backtracking
      to the one-digit alternative cannot succeed either. */
  function MonthAt(s: string, i: nat): (r: Option<Group>)
    ensures r.Some? ==> i < r.value.end < |s| && s[r.value.end] == '-' && 1 <= r.value.value <= 12
  {
    if i + 2 < |s| && ((s[i] == '1' && '0' <= s[i + 1] <= '2') || (s[i] == '0' && '1' <= s[i + 1] <= '9'))
       && s[i + 2] == '-'
    then Some(Group(10 * DigitValue(s[i]) + DigitValue(s[i + 1]), i + 2))
    else if i + 1 < |s| && '1' <= s[i] <= '9' && s[i + 1] == '-' then Some(Group(DigitValue(s[i]), i + 1))
    else None
  }

  /** `3[01]|[12]\d|0[1-9]|[1-9]| [1-9]` at position `i`. Nothing follows the day in the
      pattern, so the first alternative that matches is the one taken. */
  function DayAt(s: string, i: nat): (r: Option<Group>)
    ensures r.Some? ==> i < r.value.end <= |s| && 1 <= r.value.value <= 31
  {
    if i + 1 < |s| && ((s[i] == '3' && '0' <= s[i + 1] <= '1') || ('1' <= s[i] <= '2' && IsDigit(s[i + 1]))
                       || (s[i] == '0' && '1' <= s[i + 1] <= '9'))
    then Some(Group(10 * DigitValue(s[i]) + DigitValue(s[i + 1]), i + 2))
    else if i < |s| && '1' <= s[i] <= '9' then Some(Group(DigitValue(s[i]), i + 1))
    else if i + 1 < |s| && s[i] == ' ' && '1' <= s[i + 1] <= '9' then Some(Group(DigitValue(s[i + 1]), i + 2))
    else None
  }

  /** A match of the pattern at the start of a string: the date its groups name and where it ends. */
  datatype DateMatch = DateMatch(date: Date, end: nat)

  function ScanDate(s: string): (r: Option<DateMatch>)
    ensures r.Some? ==> r.value.end <= |s|
  {
    if |s| < 5 || s[4] != '-' then None
    else
      match (YearField(s[..4]), MonthAt(s, 5))
      case (Some(y), Some(m)) =>
        (match DayAt(s, m.end + 1)
         case Some(d) => Some(DateMatch(Date(y, m.value, d.value), d.end))
         case None => None)
      case _ => None
  }

  // ---------------------------------------------------------------------
  // repr(s), which the "does not match format" message quotes the data with

  function HexDigit(n: int): char
    requires 0 <= n < 16
  {
    if n < 10 then DigitChar(n) else ('a' as int + n - 10) as char
  }

  /** One character as `repr` writes it between the quotes `q`. */
  function EscapeChar(c: char, q: char): string {
    if c == q || c == '\\' then ['\\', c]
    else if c == '\t' then "\\t"
    else if c == '\n' then "\\n"
    else if c == '\r' then "\\r"
    else if c < ' ' || c == '\U{7f}' then ['\\', 'x', HexDigit(c as int / 16), HexDigit(c as int % 16)]
    else [c]
  }

  function Escape(s: string, q: char): (r: string)
    ensures |r| >= |s|
  {
    if s == [] then [] else EscapeChar(s[0], q) + Escape(s[1..], q)
  }

  /** `repr(s)`: single quotes, or double quotes when `s` holds a single quote and no double quote. */
  function Repr(s: string): (r: string)
    ensures |r| >= |s| + 2 && r[0] == r[|r| - 1]
  {
    var q := if '\'' in s && '"' !in s then '"' else '\'';
    [q] + Escape(s, q) + [q]
  }

  /** The quote is the single one unless only the double one avoids escaping a quote in `s`. */
  lemma ReprQuote(s: string)
    ensures Repr(s)[0] == '\'' || Repr(s)[0] == '"'
    ensures Repr(s)[0] == '"' <==> '\'' in s && '"' !in s
  {
  }

  /** Printable ASCII other than the single quote and the backslash. */
  predicate PlainChar(c: char) {
    ' ' <= c < '\U{7f}' && c != '\'' && c != '\\'
  }

  lemma {:induction false} EscapePlain(s: string)
    requires forall k :: 0 <= k < |s| ==> PlainChar(s[k])
    ensures Escape(s, '\'') == s
  {
    if s != [] {
      EscapePlain(s[1..]);
      assert s == [s[0]] + s[1..];
    }
  }

  /** Plain text is quoted as it is, between single quotes. */
  lemma ReprPlain(s: string)
    requires forall k :: 0 <= k < |s| ==> PlainChar(s[k])
    ensures Repr(s) == "'" + s + "'"
  {
    assert '\'' !in s by {
      forall k | 0 <= k < |s| ensures s[k] != '\'' {
        assert PlainChar(s[k]);
      }
    }
    EscapePlain(s);
  }

  /** `datetime.strptime(v, "%Y-%m-%d").date()`, with the exception it raises. */
  function ParseDate(v: Value): (r: Result<Date>)
    ensures r.Ok? ==> v.Str? && ValidDate(r.value)
    ensures r.Err? ==> (r.error.TypeError? <==> !v.Str?) && (r.error.ValueError? <==> v.Str?)
  {
    match v
    case Str(s) =>
      (match ScanDate(s)
       case None => Err(ValueError("time data " + Repr(s) + " does not match format '%Y-%m-%d'"))
       case Some(m) =>
         if m.end < |s| then Err(ValueError("unconverted data remains: " + s[m.end..]))
         else if ValidDate(m.date) then Ok(m.date)
         else if m.date.year == 0 then Err(ValueError("year 0 is out of range"))
         else Err(ValueError("day is out of range for month")))
    case _ => Err(TypeError("strptime() argument 1 must be str, not " + TypeName(v)))
  }

  lemma DigitRoundTrip(n: int)
    requires 0 <= n < 10
    ensures IsDigit(DigitChar(n)) && DigitValue(DigitChar(n)) == n
  {
  }

  /** Four decimal digits of `n`, most significant first. */
  lemma DecimalDigits4(n: int)
    requires 0 <= n < 10000
    ensures n == 1000 * (n / 1000) + 100 * (n / 100 % 10) + 10 * (n / 10 % 10) + n % 10
  {
    var q := n / 10;
    assert n == 10 * q + n % 10;
    assert q / 10 == n / 100 && q % 10 == n / 10 % 10;
    var r := q / 10;
    assert r == 10 * (r / 10) + r % 10;
    assert r / 10 == n / 1000 && r % 10 == n / 100 % 10;
  }

  lemma YearFieldOfDigits(a: int, b: int, c: int, e: int)
    requires 0 <= a < 10 && 0 <= b < 10 && 0 <= c < 10 && 0 <= e < 10
    ensures YearField([DigitChar(a), DigitChar(b), DigitChar(c), DigitChar(e)]) == Some(1000 * a + 100 * b + 10 * c + e)
  {
    DigitRoundTrip(a);
    DigitRoundTrip(b);
    DigitRoundTrip(c);
    DigitRoundTrip(e);
  }

  lemma Pad4Value(n: int)
    requires 0 <= n < 10000
    ensures YearField(Pad4(n)) == Some(n)
  {
    DecimalDigits4(n);
    YearFieldOfDigits(n / 1000, n / 100 % 10, n / 10 % 10, n % 10);
  }

  /** A zero-padded month followed by '-' is read as that month, by its two-digit alternatives. */
  lemma MonthAtPad2(s: string, i: nat, m: int)
    requires 1 <= m <= 12 && i + 2 < |s| && s[i] == Pad2(m)[0] && s[i + 1] == Pad2(m)[1] && s[i + 2] == '-'
    ensures MonthAt(s, i) == Some(Group(m, i + 2))
  {
    DigitRoundTrip(m / 10);
    DigitRoundTrip(m % 10);
  }

  /** A zero-padded day is read as that day, whatever follows it. */
  lemma DayAtPad2(s: string, i: nat, d: int)
    requires 1 <= d <= 31 && i + 1 < |s| && s[i] == Pad2(d)[0] && s[i + 1] == Pad2(d)[1]
    ensures DayAt(s, i) == Some(Group(d, i + 2))
  {
    DigitRoundTrip(d / 10);
    DigitRoundTrip(d % 10);
  }

  /** The pattern matches exactly the ten characters `Format` writes, whatever text follows. */
  lemma ScanFormatted(d: Date, tail: string)
    requires ValidDate(d)
    ensures ScanDate(Format(d) + tail) == Some(DateMatch(d, 10))
  {
    var f := Format(d);
    var s := f + tail;
    assert s[..4] == Pad4(d.year);
    Pad4Value(d.year);
    assert s[5] == f[5] == Pad2(d.month)[0] && s[6] == f[6] == Pad2(d.month)[1] && s[7] == '-';
    MonthAtPad2(s, 5, d.month);
    assert s[8] == f[8] == Pad2(d.day)[0] && s[9] == f[9] == Pad2(d.day)[1];
    DayAtPad2(s, 8, d.day);
  }

  /** Parsing what `Format` writes gives the date back. */
  lemma FormatParseRoundTrip(d: Date)
    requires ValidDate(d)
    ensures ParseDate(Str(Format(d))) == Ok(d)
  {
    ScanFormatted(d, []);
    assert Format(d) + [] == Format(d);
  }

  /** Text after a well-formed date, such as a time of day, is rejected as unconverted data. */
  lemma TextAfterDate(d: Date, tail: string)
    requires ValidDate(d) && tail != []
    ensures ParseDate(Str(Format(d) + tail)) == Err(ValueError("unconverted data remains: " + tail))
  {
    ScanFormatted(d, tail);
    assert (Format(d) + tail)[10..] == tail;
  }

  /** A target date that carries a time of day, "2025-11-21 10:00", is rejected with the text
      after the date: "unconverted data remains:  10:00". */
  lemma DateWithTimeRejected()
    ensures Format(Date(2025, 11, 21)) == "2025-11-21"
    ensures ParseDate(Str(Format(Date(2025, 11, 21)) + " 10:00")) == Err(ValueError("unconverted data remains: " + " 10:00"))
  {
    FormatExample();
    TextAfterDate(Date(2025, 11, 21), " 10:00");
  }

  lemma FormatExample()
    ensures Format(Date(2025, 11, 21)) == "2025-11-21"
  {
    assert Pad4(2025) == "2025";
    assert Pad2(11) == "11" && Pad2(21) == "21";
  }

  /** A relative date the model failed to resolve does not match, and is quoted as `repr` quotes it. */
  lemma WordRejected()
    ensures ParseDate(Str("tomorrow")) == Err(ValueError("time data " + "'tomorrow'" + " does not match format '%Y-%m-%d'"))
  {
    var t := "tomorrow";
    assert t[4] != '-';
    ReprPlain(t);
    assert "'" + t + "'" == "'tomorrow'";
  }

  /** Distinct dates are written differently, so comparing "YYYY-MM-DD" strings compares dates. */
  lemma FormatInjective(a: Date, b: Date)
    requires ValidDate(a) && ValidDate(b)
    ensures Format(a) == Format(b) <==> a == b
  {
    FormatParseRoundTrip(a);
    FormatParseRoundTrip(b);
  }

  // ---------------------------------------------------------------------
  // strptime(t, "%Y-%m-%d %H:%M").hour for the provider's timestamps

  /** `2[0-3]|[01]\d` */
  function HourField(t: string): Option<int> {
    if |t| == 2 && ((t[0] == '2' && '0' <= t[1] <= '3') || ('0' <= t[0] <= '1' && IsDigit(t[1])))
    then Some(10 * DigitValue(t[0]) + DigitValue(t[1]))
    else None
  }

  /** `[0-5]\d` */
  function MinuteField(t: string): Option<int> {
    if |t| == 2 && '0' <= t[0] <= '5' && IsDigit(t[1])
    then Some(10 * DigitValue(t[0]) + DigitValue(t[1]))
    else None
  }

  /** The hour of day of a "YYYY-MM-DD HH:MM" timestamp: the number in characters 11 and 12. */
  function HourOfDay(v: Value): (r: Result<int>)
    ensures r.Ok? ==> v.Str? && |v.s| == 16 && 0 <= r.value <= 23
    ensures r.Ok? ==> IsDigit(v.s[11]) && IsDigit(v.s[12])
    ensures r.Ok? ==> r.value == 10 * DigitValue(v.s[11]) + DigitValue(v.s[12])
  {
    match v
    case Str(t) =>
      if |t| == 16 && ParseDate(Str(t[..10])).Ok? && t[10] == ' ' && t[13] == ':'
         && HourField(t[11..13]).Some? && MinuteField(t[14..]).Some?
      then Ok(HourField(t[11..13]).value)
      else Err(ValueError("time data " + Repr(t) + " does not match format '%Y-%m-%d %H:%M'"))
    case _ => Err(TypeError("strptime() argument 1 must be str, not " + TypeName(v)))
  }

  lemma Pad2Hour(h: int)
    requires 0 <= h <= 23
    ensures HourField(Pad2(h)) == Some(h)
  {
    DigitRoundTrip(h / 10);
    DigitRoundTrip(h % 10);
  }

  lemma Pad2Minute(m: int)
    requires 0 <= m <= 59
    ensures MinuteField(Pad2(m)) == Some(m)
  {
    DigitRoundTrip(m / 10);
    DigitRoundTrip(m % 10);
  }

  /** The timestamp the provider writes for hour `h` of day `d` reads back as hour `h`. */
  lemma TimestampHour(d: Date, h: int, m: int)
    requires ValidDate(d) && 0 <= h <= 23 && 0 <= m <= 59
    ensures HourOfDay(Str(Format(d) + " " + Pad2(h) + ":" + Pad2(m))) == Ok(h)
  {
    var t := Format(d) + " " + Pad2(h) + ":" + Pad2(m);
    assert |t| == 16 && t[10] == ' ' && t[13] == ':';
    assert t[..10] == Format(d);
    assert t[11..13] == Pad2(h);
    assert t[14..] == Pad2(m);
    FormatParseRoundTrip(d);
    Pad2Hour(h);
    Pad2Minute(m);
  }
}
