/** The proleptic Gregorian calendar behind `ymd`, `getDaysInMonth` and the
    day arithmetic of the JavaScript `Date` object, on local days numbered
    from 1970-01-01 (day 0). */
module Calendar {
  import opened Wrappers

  /** A calendar date; `month` runs 1..12, as `ymd` prints it. */
  datatype Date = Date(year: int, month: int, day: int)

  predicate IsLeapYear(y: int) {
    y % 4 == 0 && (y % 100 != 0 || y % 400 == 0)
  }

  function DaysInMonth(y: int, m: int): (n: int)
    requires 1 <= m <= 12
    ensures 28 <= n <= 31
  {
    if m == 2 then (if IsLeapYear(y) then 29 else 28)
    else if m == 4 || m == 6 || m == 9 || m == 11 then 30
    else 31
  }

  predicate Valid(d: Date) {
    1 <= d.month <= 12 && 1 <= d.day <= DaysInMonth(d.year, d.month)
  }

  function YearLength(y: int): int {
    if IsLeapYear(y) then 366 else 365
  }

  /** Days from 1970-01-01 to January 1st of year `y` (negative before 1970). */
  function DaysBeforeYear(y: int): int
    decreases if y >= 1970 then y - 1970 else 1970 - y
  {
    if y == 1970 then 0
    else if y > 1970 then DaysBeforeYear(y - 1) + YearLength(y - 1)
    else DaysBeforeYear(y + 1) - YearLength(y)
  }

  /** Days in the months of year `y` before month `m`. */
  function DaysBeforeMonth(y: int, m: int): int
    requires 1 <= m <= 13
  {
    if m == 1 then 0 else DaysBeforeMonth(y, m - 1) + DaysInMonth(y, m - 1)
  }

  /** The day number of a date: days since 1970-01-01. */
  function DayNumber(d: Date): int
    requires Valid(d)
  {
    DaysBeforeYear(d.year) + DaysBeforeMonth(d.year, d.month) + d.day - 1
  }

  lemma DaysBeforeYearStep(y: int)
    ensures DaysBeforeYear(y + 1) == DaysBeforeYear(y) + YearLength(y)
  {
  }

  lemma {:induction false} DaysBeforeMonthBounds(y: int, m: int)
    requires 1 <= m <= 12
    ensures 0 <= DaysBeforeMonth(y, m)
    ensures DaysBeforeMonth(y, m) + DaysInMonth(y, m) <= YearLength(y)
    ensures m == 12 ==> DaysBeforeMonth(y, m) + DaysInMonth(y, m) == YearLength(y)
  {
    var f := if IsLeapYear(y) then 29 else 28;
    assert DaysBeforeMonth(y, 1) == 0;
    assert DaysBeforeMonth(y, 2) == 31;
    assert DaysBeforeMonth(y, 3) == 31 + f;
    assert DaysBeforeMonth(y, 4) == 62 + f;
    assert DaysBeforeMonth(y, 5) == 92 + f;
    assert DaysBeforeMonth(y, 6) == 123 + f;
    assert DaysBeforeMonth(y, 7) == 153 + f;
    assert DaysBeforeMonth(y, 8) == 184 + f;
    assert DaysBeforeMonth(y, 9) == 215 + f;
    assert DaysBeforeMonth(y, 10) == 245 + f;
    assert DaysBeforeMonth(y, 11) == 276 + f;
    assert DaysBeforeMonth(y, 12) == 306 + f;
  }

  /** The day after `d`, rolling over month and year ends. */
  function NextDay(d: Date): (r: Date)
    requires Valid(d)
    ensures Valid(r)
    ensures DayNumber(r) == DayNumber(d) + 1
  {
    if d.day < DaysInMonth(d.year, d.month) then Date(d.year, d.month, d.day + 1)
    else if d.month < 12 then Date(d.year, d.month + 1, 1)
    else
      DaysBeforeMonthBounds(d.year, 12);
      DaysBeforeYearStep(d.year);
      Date(d.year + 1, 1, 1)
  }

  /** The day before `d`, rolling back over month and year starts. */
  function PrevDay(d: Date): (r: Date)
    requires Valid(d)
    ensures Valid(r)
    ensures DayNumber(r) == DayNumber(d) - 1
  {
    if d.day > 1 then Date(d.year, d.month, d.day - 1)
    else if d.month > 1 then Date(d.year, d.month - 1, DaysInMonth(d.year, d.month - 1))
    else
      DaysBeforeMonthBounds(d.year - 1, 12);
      DaysBeforeYearStep(d.year - 1);
      Date(d.year - 1, 12, 31)
  }

  /** The date of day number `n`: what a `Date` built from a local timestamp
      on day `n` reports through `getFullYear`, `getMonth` and `getDate`. */
  function DateOfDay(n: int): (d: Date)
    ensures Valid(d)
    ensures DayNumber(d) == n
    decreases if n >= 0 then n else -n
  {
    if n == 0 then Date(1970, 1, 1)
    else if n > 0 then NextDay(DateOfDay(n - 1))
    else PrevDay(DateOfDay(n + 1))
  }

  lemma {:induction false} DaysBeforeYearMonotone(a: int, b: int)
    requires a <= b
    ensures DaysBeforeYear(a) <= DaysBeforeYear(b)
    decreases b - a
  {
    if a < b {
      DaysBeforeYearMonotone(a, b - 1);
      DaysBeforeYearStep(b - 1);
    }
  }

  lemma {:induction false} DaysBeforeMonthMonotone(y: int, m1: int, m2: int)
    requires 1 <= m1 <= m2 <= 12
    ensures DaysBeforeMonth(y, m1) + (if m1 < m2 then DaysInMonth(y, m1) else 0) <= DaysBeforeMonth(y, m2)
    decreases m2 - m1
  {
    if m1 < m2 - 1 {
      DaysBeforeMonthMonotone(y, m1, m2 - 1);
    }
  }

  /** Different valid dates have different day numbers. */
  lemma DayNumberInjective(d1: Date, d2: Date)
    requires Valid(d1) && Valid(d2)
    requires DayNumber(d1) == DayNumber(d2)
    ensures d1 == d2
  {
    DaysBeforeMonthBounds(d1.year, d1.month);
    DaysBeforeMonthBounds(d2.year, d2.month);
    if d1.year < d2.year {
      DaysBeforeYearStep(d1.year);
      DaysBeforeYearMonotone(d1.year + 1, d2.year);
      assert false;
    } else if d2.year < d1.year {
      DaysBeforeYearStep(d2.year);
      DaysBeforeYearMonotone(d2.year + 1, d1.year);
      assert false;
    } else if d1.month < d2.month {
      DaysBeforeMonthMonotone(d1.year, d1.month, d2.month);
      assert false;
    } else if d2.month < d1.month {
      DaysBeforeMonthMonotone(d1.year, d2.month, d1.month);
      assert false;
    }
  }

  /** `DateOfDay` and `DayNumber` are inverse to each other. */
  lemma DateOfDayNumber(d: Date)
    requires Valid(d)
    ensures DateOfDay(DayNumber(d)) == d
  {
    DayNumberInjective(DateOfDay(DayNumber(d)), d);
  }

  // ---------------------------------------------------------------------
  // `ymd`: the YYYY-MM-DD text of a date

  function DigitChar(n: int): char
    requires 0 <= n < 10
  {
    ('0' as int + n) as char
  }

  predicate IsDigit(c: char) {
    '0' as int <= c as int <= '9' as int
  }

  /** `String(n)` for a natural number. */
  function Digits(n: nat): (s: string)
    ensures |s| >= 1
    ensures forall i :: 0 <= i < |s| ==> IsDigit(s[i])
  {
    if n < 10 then [DigitChar(n)] else Digits(n / 10) + [DigitChar(n % 10)]
  }

  /** The number a string of decimal digits denotes. */
  function DigitsValue(s: string): nat
    requires forall i :: 0 <= i < |s| ==> IsDigit(s[i])
  {
    if s == [] then 0
    else
      assert IsDigit(s[|s| - 1]);
      DigitsValue(s[..|s| - 1]) * 10 + (s[|s| - 1] as int - '0' as int)
  }

  lemma {:induction false} DigitsValueDigits(n: nat)
    ensures DigitsValue(Digits(n)) == n
  {
    if n >= 10 {
      DigitsValueDigits(n / 10);
      var s := Digits(n);
      assert s[..|s| - 1] == Digits(n / 10);
    }
  }

  lemma DigitsLength(n: nat)
    ensures 10 <= n < 100 ==> |Digits(n)| == 2
    ensures 1000 <= n < 10000 ==> |Digits(n)| == 4
  {
    if 10 <= n < 100 {
      assert |Digits(n / 10)| == 1;
    }
    if 1000 <= n < 10000 {
      assert |Digits(n / 1000)| == 1;
      assert |Digits(n / 100)| == 2;
      assert |Digits(n / 10)| == 3;
    }
  }

  /** `String(n).padStart(2, "0")` */
  function Pad2(n: nat): (s: string)
    ensures n < 100 ==> |s| == 2
  {
    DigitsLength(n);
    if n < 10 then "0" + Digits(n) else Digits(n)
  }

  /** `String(year)`, including the minus sign of years before 1. */
  function YearText(y: int): string {
    if y < 0 then "-" + Digits(-y) else Digits(y)
  }

  /** `ymd(d)`: the `${yyyy}-${mm}-${dd}` text of a date. */
  function Ymd(d: Date): string
    requires Valid(d)
  {
    YearText(d.year) + "-" + Pad2(d.month) + "-" + Pad2(d.day)
  }

  predicate AllDigits(s: string) {
    forall i :: 0 <= i < |s| ==> IsDigit(s[i])
  }

  /** Reads a YYYY-MM-DD text back into a date. */
  function ParseYmd(s: string): Option<Date> {
    if |s| == 10 && s[4] == '-' && s[7] == '-'
       && AllDigits(s[..4]) && AllDigits(s[5..7]) && AllDigits(s[8..])
    then Some(Date(DigitsValue(s[..4]), DigitsValue(s[5..7]), DigitsValue(s[8..])))
    else None
  }

  lemma Pad2Value(n: nat)
    requires n < 100
    ensures AllDigits(Pad2(n)) && DigitsValue(Pad2(n)) == n
  {
    DigitsValueDigits(n);
    if n < 10 {
      var p := Pad2(n);
      assert p[..1] == "0";
      assert DigitsValue(p[..1]) == 0 by {
        assert p[..1][..0] == [];
      }
    }
  }

  /** For four-digit years, `ymd` text can be read back: no two dates share
      a text. */
  lemma YmdRoundTrip(d: Date)
    requires Valid(d) && 1000 <= d.year <= 9999
    ensures ParseYmd(Ymd(d)) == Some(d)
  {
    var y, m, dd := Digits(d.year), Pad2(d.month), Pad2(d.day);
    DigitsLength(d.year);
    DigitsValueDigits(d.year);
    Pad2Value(d.month);
    Pad2Value(d.day);
    var s := Ymd(d);
    assert s == y + "-" + m + "-" + dd;
    assert s[..4] == y;
    assert s[5..7] == m;
    assert s[8..] == dd;
  }

  lemma YmdInjective(d1: Date, d2: Date)
    requires Valid(d1) && 1000 <= d1.year <= 9999
    requires Valid(d2) && 1000 <= d2.year <= 9999
    requires Ymd(d1) == Ymd(d2)
    ensures d1 == d2
  {
    YmdRoundTrip(d1);
    YmdRoundTrip(d2);
  }

  /** Keying by day number is keying by `ymd` text: two local days get the
      same text exactly when they are the same day (four-digit years). */
  lemma SameYmdIffSameDay(a: int, b: int)
    requires 1000 <= DateOfDay(a).year <= 9999
    requires 1000 <= DateOfDay(b).year <= 9999
    ensures Ymd(DateOfDay(a)) == Ymd(DateOfDay(b)) <==> a == b
  {
    if Ymd(DateOfDay(a)) == Ymd(DateOfDay(b)) {
      YmdInjective(DateOfDay(a), DateOfDay(b));
    }
  }

  // ---------------------------------------------------------------------
  // `getDaysInMonth`

  /** One element of the month's day list: the date, its 1-based day number
      in the month and its `ymd` text. */
  datatype MonthDay = MonthDay(date: Date, dayNum: int, dateStr: string)

  /** `getDaysInMonth(date)` for the month `month0` (0-based, as `getMonth`
      returns it) of `year`: one element per day, in order. */
  function GetDaysInMonth(year: int, month0: int): (days: seq<MonthDay>)
    requires 0 <= month0 <= 11
    ensures |days| == DaysInMonth(year, month0 + 1)
    ensures forall i :: 0 <= i < |days| ==>
      Valid(days[i].date) && days[i].date == Date(year, month0 + 1, i + 1)
      && days[i].dayNum == i + 1 && days[i].dateStr == Ymd(days[i].date)
  {
    var n := DaysInMonth(year, month0 + 1);
    seq(n, i requires 0 <= i < n =>
      var d := Date(year, month0 + 1, i + 1);
      MonthDay(d, i + 1, Ymd(d)))
  }

  /** The month's list holds exactly the local days whose date falls in that
      month, so looking days up by their key finds every day of the month and
      no other. */
  lemma MonthDaysCover(year: int, month0: int, n: int)
    requires 0 <= month0 <= 11
    ensures (DateOfDay(n).year == year && DateOfDay(n).month == month0 + 1)
        <==> exists i :: 0 <= i < |GetDaysInMonth(year, month0)| && DayNumber(GetDaysInMonth(year, month0)[i].date) == n
  {
    var days := GetDaysInMonth(year, month0);
    var d := DateOfDay(n);
    if d.year == year && d.month == month0 + 1 {
      var i := d.day - 1;
      assert days[i].date == d;
    }
    if i :| 0 <= i < |days| && DayNumber(days[i].date) == n {
      DateOfDayNumber(days[i].date);
    }
  }
}
