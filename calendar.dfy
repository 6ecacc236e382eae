/** Local calendar dates and wall-clock times, standing in for the JavaScript
    `Date` objects the list screens build at local midnight: `startOfDay`,
    `addDays`, `getDay`, `new Date(y, m, 1)`, `setHours` and the
    `YYYY-MM-DD` text of a date. Time zones and daylight saving are not
    modelled: local time is the only time there is. */
module Calendar {
  import opened Values

  /** A proleptic Gregorian date; `month` is 1..12 (JavaScript's `getMonth() + 1`). */
  datatype Date = Date(year: int, month: int, day: int)

  predicate IsLeapYear(y: int) {
    (y % 4 == 0 && y % 100 != 0) || y % 400 == 0
  }

  function DaysInMonth(y: int, m: int): (r: int)
    requires 1 <= m <= 12
    ensures 28 <= r <= 31
  {
    if m == 2 then (if IsLeapYear(y) then 29 else 28)
    else if m == 4 || m == 6 || m == 9 || m == 11 then 30
    else 31
  }

  predicate ValidDate(d: Date) {
    1 <= d.month <= 12 && 1 <= d.day <= DaysInMonth(d.year, d.month)
  }

  /** Chronological order: the comparison of the two dates' local midnights. */
  predicate Before(a: Date, b: Date) {
    a.year < b.year
    || (a.year == b.year && (a.month < b.month || (a.month == b.month && a.day < b.day)))
  }

  lemma BeforeTrans(a: Date, b: Date, c: Date)
    requires Before(a, b) && Before(b, c)
    ensures Before(a, c)
  {
  }

  /** The day after `d`. */
  function NextDay(d: Date): (r: Date)
    requires ValidDate(d)
    ensures ValidDate(r) && Before(d, r)
  {
    if d.day < DaysInMonth(d.year, d.month) then Date(d.year, d.month, d.day + 1)
    else if d.month < 12 then Date(d.year, d.month + 1, 1)
    else Date(d.year + 1, 1, 1)
  }

  /** No valid date lies strictly between a date and the next one. */
  lemma NextDayImmediate(d: Date, x: Date)
    requires ValidDate(d) && ValidDate(x) && Before(d, x)
    ensures x == NextDay(d) || Before(NextDay(d), x)
  {
  }

  /** The day before `d`. */
  function PrevDay(d: Date): (r: Date)
    requires ValidDate(d)
    ensures ValidDate(r) && NextDay(r) == d
  {
    if d.day > 1 then Date(d.year, d.month, d.day - 1)
    else if d.month > 1 then Date(d.year, d.month - 1, DaysInMonth(d.year, d.month - 1))
    else Date(d.year - 1, 12, 31)
  }

  /** `addDays(d, n)`: `setDate(getDate() + n)` at local midnight. */
  function AddDays(d: Date, n: int): (r: Date)
    requires ValidDate(d)
    ensures ValidDate(r)
    ensures n > 0 ==> Before(d, r)
    ensures n < 0 ==> Before(r, d)
    decreases if n >= 0 then n else -n
  {
    if n == 0 then d
    else if n > 0 then
      var r := AddDays(NextDay(d), n - 1);
      assert n - 1 > 0 ==> Before(NextDay(d), r);
      r
    else
      var r := AddDays(PrevDay(d), n + 1);
      assert n + 1 < 0 ==> Before(r, PrevDay(d));
      r
  }

  /** Sakamoto's year term: the days a year contributes, modulo 7. */
  function YearShift(y: int): int {
    y + y / 4 - y / 100 + y / 400
  }

  /** Sakamoto's month offsets, January first. */
  function MonthOffset(m: int): int {
    if m == 1 then 0 else if m == 2 then 3 else if m == 3 then 2 else if m == 4 then 5
    else if m == 5 then 0 else if m == 6 then 3 else if m == 7 then 5 else if m == 8 then 1
    else if m == 9 then 4 else if m == 10 then 6 else if m == 11 then 2 else 4
  }

  /** Sakamoto's sum for a date: January and February count with the year before. */
  function DaySum(d: Date): int {
    var y := if d.month < 3 then d.year - 1 else d.year;
    YearShift(y) + MonthOffset(d.month) + d.day
  }

  /** `getDay()`: 0 for Sunday through 6 for Saturday (Sakamoto's method). */
  function Weekday(d: Date): (r: int)
    requires ValidDate(d)
    ensures 0 <= r < 7
  {
    DaySum(d) % 7
  }

  /** A year adds one day to the year term, two when it is a leap year. */
  lemma YearShiftStep(y: int)
    ensures YearShift(y) == YearShift(y - 1) + 1 + (if IsLeapYear(y) then 1 else 0)
  {
    LeapTermSteps(y);
  }

  /** The floor quotients by 4, 100 and 400 step up by one exactly at their multiples. */
  lemma LeapTermSteps(y: int)
    ensures y / 4 - (y - 1) / 4 == if y % 4 == 0 then 1 else 0
    ensures y / 100 - (y - 1) / 100 == if y % 100 == 0 then 1 else 0
    ensures y / 400 - (y - 1) / 400 == if y % 400 == 0 then 1 else 0
  {
  }

  lemma ModSuccessor(a: int, b: int)
    requires (b - a - 1) % 7 == 0
    ensures b % 7 == (a % 7 + 1) % 7
  {
    var q := (b - a - 1) / 7;
    assert b == a + 1 + 7 * q;
  }

  lemma ModReduce(a: int, k: int)
    ensures (a % 7 + k) % 7 == (a + k) % 7
  {
    var q := a / 7;
    assert a + k == 7 * q + (a % 7 + k);
  }

  /** From the last day of February to the first of March the sum moves back
      28 days, less the one that elapsed. */
  lemma DaySumEndOfFebruary(d: Date)
    requires ValidDate(d) && d.month == 2 && d.day == DaysInMonth(d.year, 2)
    ensures DaySum(Date(d.year, 3, 1)) - DaySum(d) - 1 == -28
  {
    YearShiftStep(d.year);
  }

  /** At the end of any other month the sum moves back 28 or 35. */
  lemma DaySumEndOfMonth(d: Date)
    requires ValidDate(d) && d.month != 2 && d.day == DaysInMonth(d.year, d.month)
    ensures var b := DaySum(NextDay(d)) - DaySum(d) - 1; b == -28 || b == -35
  {
    if d.month == 12 {
      assert NextDay(d) == Date(d.year + 1, 1, 1);
    } else {
      assert NextDay(d) == Date(d.year, d.month + 1, 1);
    }
  }

  /** The weekday advances by one from each day to the next. */
  lemma WeekdayNextDay(d: Date)
    requires ValidDate(d)
    ensures Weekday(NextDay(d)) == (Weekday(d) + 1) % 7
  {
    if d.day < DaysInMonth(d.year, d.month) {
      assert DaySum(NextDay(d)) == DaySum(d) + 1;
    } else if d.month == 2 {
      DaySumEndOfFebruary(d);
    } else {
      DaySumEndOfMonth(d);
    }
    ModSuccessor(DaySum(d), DaySum(NextDay(d)));
  }

  /** `n` days on, the weekday has advanced by `n`, modulo 7. */
  lemma {:induction false} WeekdayAddDays(d: Date, n: nat)
    requires ValidDate(d)
    ensures Weekday(AddDays(d, n)) == (Weekday(d) + n) % 7
    decreases n
  {
    if n > 0 {
      var e := NextDay(d);
      var w := Weekday(d);
      WeekdayNextDay(d);
      assert Weekday(e) == (w + 1) % 7;
      WeekdayAddDays(e, n - 1);
      assert AddDays(d, n) == AddDays(e, n - 1);
      assert Weekday(AddDays(d, n)) == ((w + 1) % 7 + (n - 1)) % 7;
      ModReduce(w + 1, n - 1);
    }
  }

  /** `getDay()` counts from Sunday: 1 January 1970 was a Thursday and
      9 June 2024 a Sunday. */
  lemma WeekdayAnchor()
    ensures Weekday(Date(1970, 1, 1)) == 4
    ensures Weekday(Date(2024, 6, 9)) == 0 && Weekday(Date(2024, 6, 15)) == 6
  {
  }

  /** Adding days in two steps is adding their sum: `addDays` moves by
      exactly `n` days. */
  lemma {:induction false} AddDaysAdd(d: Date, m: nat, n: nat)
    requires ValidDate(d)
    ensures AddDays(AddDays(d, m), n) == AddDays(d, m + n)
    decreases m
  {
    if m > 0 {
      AddDaysAdd(NextDay(d), m - 1, n);
    }
  }

  /** Every date from `d` up to, but not including, `addDays(d, k)` is
      `addDays(d, j)` for some `j < k`: no day is skipped. */
  lemma {:induction false} BetweenIsOffset(d: Date, k: nat, x: Date) returns (j: nat)
    requires ValidDate(d) && ValidDate(x)
    requires !Before(x, d) && Before(x, AddDays(d, k))
    ensures j < k && x == AddDays(d, j)
    decreases k
  {
    if x == d {
      j := 0;
    } else {
      assert Before(d, x);
      NextDayImmediate(d, x);
      var i := BetweenIsOffset(NextDay(d), k - 1, x);
      j := i + 1;
    }
  }

  /** Within a week that does not wrap past Saturday, a day from `d` up to,
      but not including, `addDays(d, k)` falls on an earlier weekday than
      that day. */
  lemma WeekdayWithinWeek(d: Date, k: nat, x: Date)
    requires ValidDate(d) && ValidDate(x) && Weekday(d) + k <= 6
    requires !Before(x, d) && Before(x, AddDays(d, k))
    ensures Weekday(x) < Weekday(d) + k
  {
    var j := BetweenIsOffset(d, k, x);
    WeekdayAddDays(d, j);
    ModSmall(Weekday(d) + j);
  }

  lemma ModSmall(a: int)
    requires 0 <= a < 7
    ensures a % 7 == a
  {
  }

  /** `new Date(year, monthIndex, 1)` for a 0-based month index that may run
      past December into later years. */
  function MonthStart(year: int, monthIndex: int): (r: Date)
    ensures ValidDate(r) && r.day == 1
  {
    Date(year + monthIndex / 12, monthIndex % 12 + 1, 1)
  }

  /** The first day of the month after the month of `d`. */
  lemma MonthStartNext(d: Date)
    requires ValidDate(d)
    ensures MonthStart(d.year, d.month) == if d.month < 12 then Date(d.year, d.month + 1, 1) else Date(d.year + 1, 1, 1)
  {
  }

  /** The first day of the month after next. */
  lemma MonthStartAfterNext(d: Date)
    requires ValidDate(d)
    ensures MonthStart(d.year, d.month + 1) ==
              if d.month < 11 then Date(d.year, d.month + 2, 1)
              else if d.month == 11 then Date(d.year + 1, 1, 1)
              else Date(d.year + 1, 2, 1)
  {
  }

  // ---------------------------------------------------------------- times of day

  /** A local date and time to the minute (seconds are zero wherever this model builds one). */
  datatype DateTime = DateTime(date: Date, hour: int, minute: int)

  predicate ValidDateTime(t: DateTime) {
    ValidDate(t.date) && 0 <= t.hour < 24 && 0 <= t.minute < 60
  }

  /** `setHours(hour, minute, 0, 0)` on a date at local midnight: values out of
      range carry into the neighbouring hours and days, as `Date` arithmetic does. */
  function SetTime(date: Date, hour: int, minute: int): (r: DateTime)
    requires ValidDate(date)
    ensures ValidDateTime(r)
    ensures 0 <= hour < 24 && 0 <= minute < 60 ==> r == DateTime(date, hour, minute)
  {
    var total := hour * 60 + minute;
    var rem := total % 1440;
    DateTime(AddDays(date, total / 1440), rem / 60, rem % 60)
  }

  // ---------------------------------------------------------------- date text

  /** `${yyyy}-${mm}-${dd}` with the month and day padded to two digits and
      the year written as `String(year)`, without padding. */
  function FormatDate(d: Date): string
    requires ValidDate(d)
  {
    IntText(d.year) + "-" + Pad2(Digits(d.month)) + "-" + Pad2(Digits(d.day))
  }

  /** The date part `YYYY-MM-DD` of the date-time string format of ECMAScript,
      read back into a date; a string of another shape or naming a day the
      month does not have is no date. */
  function ParseDate(s: string): (r: Option<Date>)
    ensures r.Some? ==> ValidDate(r.value) && 0 <= r.value.year <= 9999
  {
    if |s| == 10 && s[4] == '-' && s[7] == '-'
       && AllDigits(s[..4]) && AllDigits(s[5..7]) && AllDigits(s[8..]) then
      DigitsBelow(s[..4]);
      var d := Date(DigitsValue(s[..4]), DigitsValue(s[5..7]), DigitsValue(s[8..]));
      if ValidDate(d) then Some(d) else None
    else None
  }

  /** A four-digit year-month-day date prints and parses back to itself. */
  lemma ParseFormatDate(d: Date)
    requires ValidDate(d) && 1000 <= d.year <= 9999
    ensures ParseDate(FormatDate(d)) == Some(d)
  {
    var y, m, dd := Digits(d.year), Pad2(Digits(d.month)), Pad2(Digits(d.day));
    DigitsValueOfDigits(d.year);
    FourDigits(d.year);
    Pad2Digits(d.month);
    Pad2Digits(d.day);
    var s := FormatDate(d);
    assert s == y + "-" + m + "-" + dd;
    assert s[..4] == y && s[5..7] == m && s[8..] == dd;
  }

  /** A date string that parses with a year of four significant digits is
      exactly the text `FormatDate` gives for the parsed date. */
  lemma FormatParsedDate(s: string)
    requires ParseDate(s).Some? && ParseDate(s).value.year >= 1000
    ensures FormatDate(ParseDate(s).value) == s
  {
    var d := ParseDate(s).value;
    FourDigitYearNoLeadingZero(s[..4]);
    DigitsRoundTrip(s[..4]);
    TwoDigitsRoundTrip(s[5..7]);
    TwoDigitsRoundTrip(s[8..]);
    assert s == s[..4] + "-" + s[5..7] + "-" + s[8..];
  }

  /** A year below 1000 is printed with fewer than four digits, and the
      printed date is not read back. */
  lemma ShortYearUnparsable(d: Date)
    requires ValidDate(d) && 0 <= d.year < 1000
    ensures ParseDate(FormatDate(d)) == None
  {
    var y := d.year;
    assert |Digits(y)| <= 3 by {
      if y >= 10 {
        assert |Digits(y / 10)| <= 2 by {
          if y >= 100 { assert |Digits(y / 100)| == 1; }
        }
      }
    }
    Pad2Digits(d.month);
    Pad2Digits(d.day);
    assert |FormatDate(d)| <= 9;
  }

  // ---------------------------------------------------------------- digit helpers

  lemma {:induction false} DigitsBelow(s: string)
    requires AllDigits(s)
    ensures DigitsValue(s) < Pow10(|s|)
    decreases |s|
  {
    if s != [] {
      DigitsBelow(s[..|s| - 1]);
    }
  }

  function Pow10(n: nat): (r: nat)
    ensures r >= 1
  {
    if n == 0 then 1 else 10 * Pow10(n - 1)
  }

  lemma FourDigits(n: nat)
    requires 1000 <= n <= 9999
    ensures |Digits(n)| == 4
  {
    assert |Digits(n / 10)| == 3 by {
      assert |Digits(n / 100)| == 2 by { assert |Digits(n / 1000)| == 1; }
    }
  }

  /** Digits without a leading zero are the decimal text of their value. */
  lemma {:induction false} DigitsRoundTrip(s: string)
    requires |s| >= 1 && AllDigits(s) && s[0] != '0'
    ensures Digits(DigitsValue(s)) == s
    decreases |s|
  {
    if |s| > 1 {
      var p := s[..|s| - 1];
      DigitsRoundTrip(p);
      LeadingDigitPositive(p);
    }
  }

  lemma {:induction false} LeadingDigitPositive(s: string)
    requires |s| >= 1 && AllDigits(s) && s[0] != '0'
    ensures DigitsValue(s) >= 1
    decreases |s|
  {
    if |s| > 1 {
      LeadingDigitPositive(s[..|s| - 1]);
    }
  }

  /** Four digits with a value of at least 1000 do not start with a zero. */
  lemma FourDigitYearNoLeadingZero(s: string)
    requires |s| == 4 && AllDigits(s)
    ensures DigitsValue(s) >= 1000 ==> s[0] != '0'
  {
    if s[0] == '0' {
      assert s == "0" + s[1..];
      DigitsValueLeadingZero(s[1..]);
      DigitsBelow(s[1..]);
      assert Pow10(3) == 1000;
    }
  }

  /** Two digits are the padded text of their value. */
  lemma TwoDigitsRoundTrip(s: string)
    requires |s| == 2 && AllDigits(s)
    ensures Pad2(Digits(DigitsValue(s))) == s
  {
    assert s[..1] == [s[0]] && s[..1][..0] == [];
    if s[0] == '0' {
      assert DigitsValue(s[..1]) == 0;
      assert DigitsValue(s) == s[1] as int - '0' as int;
    } else {
      DigitsRoundTrip(s);
    }
  }
}
