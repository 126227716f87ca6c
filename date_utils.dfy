/**
 * Calendar arithmetic and formatting of the booking widget (src/utils/dateUtils.ts).
 *
 * A date is a (year, month, day) triple of the proleptic Gregorian calendar with no
 * time of day; the current moment ("now") is always passed in. Day-of-week and day
 * offsets are computed from a day count, the number of days since 0001-01-01.
 */
module Dates {

  /** A calendar day; month is 1..12 and day 1..DaysInMonth for a valid date. */
  datatype Date = Date(year: int, month: int, day: int)

  /** A (year, month) pair, such as the month the calendar is showing. */
  datatype YearMonth = YearMonth(year: int, month: int)

  // ---------------------------------------------------------------------------
  // The Gregorian calendar

  predicate IsLeapYear(y: int) {
    y % 4 == 0 && (y % 100 != 0 || y % 400 == 0)
  }

  function DaysInMonth(y: int, m: int): (n: int)
    requires 1 <= m <= 12
    ensures 28 <= n <= 31
  {
    if m == 2 then (if IsLeapYear(y) then 29 else 28)
    else if m == 4 || m == 6 || m == 9 || m == 11 then 30
    else 31
  }

  function DaysInYear(y: int): int {
    if IsLeapYear(y) then 366 else 365
  }

  predicate ValidDate(d: Date) {
    1 <= d.month <= 12 && 1 <= d.day <= DaysInMonth(d.year, d.month)
  }

  predicate ValidMonth(ym: YearMonth) {
    1 <= ym.month <= 12
  }

  function MonthOf(d: Date): YearMonth {
    YearMonth(d.year, d.month)
  }

  function FirstOfMonth(ym: YearMonth): Date {
    Date(ym.year, ym.month, 1)
  }

  /** Days of year y that lie before the first of month m. */
  function DaysBeforeMonth(y: int, m: int): int
    requires 1 <= m <= 12
  {
    [0, 31, 59, 90, 120, 151, 181, 212, 243, 273, 304, 334][m - 1]
      + (if m > 2 && IsLeapYear(y) then 1 else 0)
  }

  /** Days from 0001-01-01 to the first of January of year y (negative before year 1). */
  function DaysBeforeYear(y: int): int {
    var p := y - 1;
    365 * p + p / 4 - p / 100 + p / 400
  }

  /** The day count: days since 0001-01-01, which was a Monday. */
  function DayNumber(d: Date): int
    requires ValidDate(d)
  {
    DaysBeforeYear(d.year) + DaysBeforeMonth(d.year, d.month) + d.day - 1
  }

  /** Day of the week, 0 = Sunday .. 6 = Saturday, as JavaScript's getDay numbers it. */
  function DayOfWeek(d: Date): (w: int)
    requires ValidDate(d)
    ensures 0 <= w < 7
  {
    (DayNumber(d) + 1) % 7
  }

  /** Anchors of the day count against the calendar: 0001-01-01 was a Monday,
      1970-01-01 a Thursday and 2000-02-29 a Tuesday. */
  lemma WeekdayAnchors()
    ensures DayOfWeek(Date(1, 1, 1)) == 1
    ensures DayOfWeek(Date(1970, 1, 1)) == 4
    ensures DayOfWeek(Date(2000, 2, 29)) == 2
  {
  }

  function NextDay(d: Date): (r: Date)
    requires ValidDate(d)
    ensures ValidDate(r)
  {
    if d.day < DaysInMonth(d.year, d.month) then Date(d.year, d.month, d.day + 1)
    else if d.month < 12 then Date(d.year, d.month + 1, 1)
    else Date(d.year + 1, 1, 1)
  }

  function PrevDay(d: Date): (r: Date)
    requires ValidDate(d)
    ensures ValidDate(r)
    ensures NextDay(r) == d
  {
    if d.day > 1 then Date(d.year, d.month, d.day - 1)
    else if d.month > 1 then Date(d.year, d.month - 1, DaysInMonth(d.year, d.month - 1))
    else Date(d.year - 1, 12, 31)
  }

  lemma PrevOfNext(d: Date)
    requires ValidDate(d)
    ensures PrevDay(NextDay(d)) == d
  {
  }

  /** date-fns addDays: n days later (earlier when n is negative). */
  function AddDays(d: Date, n: int): (r: Date)
    requires ValidDate(d)
    ensures ValidDate(r)
    decreases if n < 0 then -n else n
  {
    if n == 0 then d
    else if n > 0 then AddDays(NextDay(d), n - 1)
    else AddDays(PrevDay(d), n + 1)
  }

  // ---------------------------------------------------------------------------
  // The day count advances by one per day

  lemma YearLength(y: int)
    ensures DaysBeforeYear(y + 1) == DaysBeforeYear(y) + DaysInYear(y)
  {
    var p := y - 1;
    FloorStep(p, 4);
    FloorStep(p, 100);
    FloorStep(p, 400);
    DivisorChain(y);
    assert DaysBeforeYear(y + 1) == 365 * y + y / 4 - y / 100 + y / 400;
    assert DaysBeforeYear(y) == 365 * p + p / 4 - p / 100 + p / 400;
  }

  /** A multiple of 400 is a multiple of 100, and a multiple of 100 one of 4. */
  lemma DivisorChain(y: int)
    ensures y % 100 == 0 ==> y % 4 == 0
    ensures y % 400 == 0 ==> y % 100 == 0
  {
    if y % 100 == 0 {
      var q := y / 100;
      assert y == 4 * (25 * q);
    }
    if y % 400 == 0 {
      var q := y / 400;
      assert y == 100 * (4 * q);
    }
  }

  /** Floor division by k steps up by one exactly at the multiples of k. */
  lemma FloorStep(p: int, k: int)
    requires k == 4 || k == 100 || k == 400
    ensures (p + 1) / k == p / k + (if (p + 1) % k == 0 then 1 else 0)
  {
    var q, r := p / k, p % k;
    assert p == k * q + r && 0 <= r < k;
    if r == k - 1 {
      assert p + 1 == k * (q + 1) + 0;
    } else {
      assert p + 1 == k * q + (r + 1);
    }
  }

  lemma NextDayNumber(d: Date)
    requires ValidDate(d)
    ensures DayNumber(NextDay(d)) == DayNumber(d) + 1
  {
    if d.day == DaysInMonth(d.year, d.month) && d.month == 12 {
      YearLength(d.year);
    }
  }

  lemma {:induction false} AddDaysNumber(d: Date, n: int)
    requires ValidDate(d)
    ensures DayNumber(AddDays(d, n)) == DayNumber(d) + n
    decreases if n < 0 then -n else n
  {
    if n > 0 {
      var e := NextDay(d);
      assert AddDays(d, n) == AddDays(e, n - 1);
      NextDayNumber(d);
      AddDaysNumber(e, n - 1);
    } else if n < 0 {
      var p := PrevDay(d);
      assert AddDays(d, n) == AddDays(p, n + 1);
      NextDayNumber(p);
      AddDaysNumber(p, n + 1);
    }
  }

  /** Stepping one day forward first is the same as adding one more day. */
  lemma AddDaysShift(d: Date, n: int)
    requires ValidDate(d)
    ensures AddDays(d, n + 1) == AddDays(NextDay(d), n)
  {
    if n < 0 {
      PrevOfNext(d);
    }
  }

  lemma {:induction false} AddDaysSucc(d: Date, n: nat)
    requires ValidDate(d)
    ensures AddDays(d, n + 1) == NextDay(AddDays(d, n))
    decreases n
  {
    if n > 0 {
      AddDaysSucc(NextDay(d), n - 1);
    }
  }

  lemma {:induction false} AddDaysAdd(d: Date, a: int, b: int)
    requires ValidDate(d)
    ensures AddDays(AddDays(d, a), b) == AddDays(d, a + b)
    decreases if a < 0 then -a else a
  {
    if a > 0 {
      AddDaysAdd(NextDay(d), a - 1, b);
      AddDaysShift(d, a + b - 1);
    } else if a < 0 {
      AddDaysAdd(PrevDay(d), a + 1, b);
      AddDaysShift(PrevDay(d), a + b);
    }
  }

  // ---------------------------------------------------------------------------
  // The day count identifies the day

  lemma {:induction false} DaysBeforeYearGrows(y: int, z: int)
    requires y < z
    ensures DaysBeforeYear(y) + DaysInYear(y) <= DaysBeforeYear(z)
    decreases z - y
  {
    YearLength(y);
    if y + 1 < z {
      DaysBeforeYearGrows(y + 1, z);
    }
  }

  lemma DayOfYearBounds(d: Date)
    requires ValidDate(d)
    ensures 0 <= DaysBeforeMonth(d.year, d.month) + d.day - 1 < DaysInYear(d.year)
  {
  }

  lemma DayNumberInjective(a: Date, b: Date)
    requires ValidDate(a) && ValidDate(b)
    requires DayNumber(a) == DayNumber(b)
    ensures a == b
  {
    DayOfYearBounds(a);
    DayOfYearBounds(b);
    if a.year < b.year {
      DaysBeforeYearGrows(a.year, b.year);
    } else if b.year < a.year {
      DaysBeforeYearGrows(b.year, a.year);
    }
    assert a.year == b.year;
    assert a.month == b.month;
  }

  /** Two days are the same calendar day exactly when their day counts agree. */
  lemma SameDayIffSameDayNumber(a: Date, b: Date)
    requires ValidDate(a) && ValidDate(b)
    ensures IsSameDay(a, b) <==> DayNumber(a) == DayNumber(b)
  {
    if DayNumber(a) == DayNumber(b) {
      DayNumberInjective(a, b);
    }
  }

  // ---------------------------------------------------------------------------
  // Weeks and months (getWeekDays, getMonthDays, startOfWeek)

  /** (a + k) mod 7 depends only on a mod 7. */
  lemma ModSevenShift(a: int, k: int)
    ensures (a + k) % 7 == (a % 7 + k) % 7
  {
    var q := a / 7;
    assert a == 7 * q + a % 7;
    assert a + k == 7 * q + (a % 7 + k);
  }

  /** The weekday moves on by one per day, wrapping after Saturday. */
  lemma DayOfWeekAfter(d: Date, n: int)
    requires ValidDate(d)
    ensures DayOfWeek(AddDays(d, n)) == (DayOfWeek(d) + n) % 7
  {
    AddDaysNumber(d, n);
    ModSevenShift(DayNumber(d) + 1, n);
  }

  /** date-fns startOfWeek with weekStartsOn 0: the Sunday on or before d. */
  function StartOfWeek(d: Date): (s: Date)
    requires ValidDate(d)
    ensures ValidDate(s) && DayOfWeek(s) == 0
    ensures DayNumber(d) - 6 <= DayNumber(s) <= DayNumber(d)
    ensures AddDays(s, DayOfWeek(d)) == d
  {
    StartOfWeekFacts(d);
    AddDays(d, -DayOfWeek(d))
  }

  lemma StartOfWeekFacts(d: Date)
    requires ValidDate(d)
    ensures var s := AddDays(d, -DayOfWeek(d));
      DayOfWeek(s) == 0 && DayNumber(s) == DayNumber(d) - DayOfWeek(d) && AddDays(s, DayOfWeek(d)) == d
  {
    var w := DayOfWeek(d);
    AddDaysNumber(d, -w);
    DayOfWeekAfter(d, -w);
    assert (w + -w) % 7 == 0;
    AddDaysAdd(d, -w, w);
    assert AddDays(d, 0) == d;
  }

  /** The n consecutive days starting at start (an `Array.from` over addDays). */
  function DayRun(start: Date, n: nat): (r: seq<Date>)
    requires ValidDate(start)
    ensures |r| == n
    ensures forall i :: 0 <= i < n ==> r[i] == AddDays(start, i)
  {
    seq(n, i requires 0 <= i < n => AddDays(start, i))
  }

  /** Each day of a run is one calendar day after the previous one, and the day count
      and weekday advance with the index. */
  lemma DayRunFacts(start: Date, n: nat)
    requires ValidDate(start)
    ensures forall i :: 0 <= i < n ==> ValidDate(DayRun(start, n)[i])
    ensures forall i :: 0 <= i < n ==> DayNumber(DayRun(start, n)[i]) == DayNumber(start) + i
    ensures forall i :: 0 <= i < n ==> DayOfWeek(DayRun(start, n)[i]) == (DayOfWeek(start) + i) % 7
    ensures forall i :: 0 <= i < n - 1 ==> DayRun(start, n)[i + 1] == NextDay(DayRun(start, n)[i])
  {
    var r := DayRun(start, n);
    forall i | 0 <= i < n
      ensures DayNumber(r[i]) == DayNumber(start) + i
      ensures DayOfWeek(r[i]) == (DayOfWeek(start) + i) % 7
    {
      AddDaysNumber(start, i);
      DayOfWeekAfter(start, i);
    }
    forall i | 0 <= i < n - 1
      ensures r[i + 1] == NextDay(r[i])
    {
      AddDaysSucc(start, i);
    }
  }

  /** getWeekDays: the seven days of the Sunday-first week holding d. */
  function WeekDays(d: Date): (r: seq<Date>)
    requires ValidDate(d)
    ensures |r| == 7
    ensures r[0] == StartOfWeek(d)
    ensures forall i :: 0 <= i < 7 ==> ValidDate(r[i]) && DayOfWeek(r[i]) == i
    ensures forall i :: 0 <= i < 6 ==> r[i + 1] == NextDay(r[i])
    ensures r[DayOfWeek(d)] == d
  {
    WeekRunFacts(StartOfWeek(d), DayOfWeek(d));
    DayRun(StartOfWeek(d), 7)
  }

  /** The seven days from a Sunday are Sunday through Saturday, and the one at index w is
      w days after that Sunday. */
  lemma WeekRunFacts(s: Date, w: int)
    requires ValidDate(s) && DayOfWeek(s) == 0 && 0 <= w < 7
    ensures forall i :: 0 <= i < 7 ==> ValidDate(DayRun(s, 7)[i]) && DayOfWeek(DayRun(s, 7)[i]) == i
    ensures forall i :: 0 <= i < 6 ==> DayRun(s, 7)[i + 1] == NextDay(DayRun(s, 7)[i])
    ensures DayRun(s, 7)[w] == AddDays(s, w)
  {
    var r := DayRun(s, 7);
    forall i | 0 <= i < 7
      ensures DayOfWeek(r[i]) == i
    {
      SundayRunWeekday(s, i);
    }
    forall i | 0 <= i < 6
      ensures r[i + 1] == NextDay(r[i])
    {
      AddDaysSucc(s, i);
    }
  }

  lemma SundayRunWeekday(s: Date, i: int)
    requires ValidDate(s) && DayOfWeek(s) == 0 && 0 <= i < 7
    ensures DayOfWeek(AddDays(s, i)) == i
  {
    DayOfWeekAfter(s, i);
  }

  /** getMonthDays: every day of d's month, from the 1st to the last. */
  function MonthDays(d: Date): (r: seq<Date>)
    requires ValidDate(d)
    ensures |r| == DaysInMonth(d.year, d.month)
    ensures r[0] == FirstOfMonth(MonthOf(d))
    ensures forall i :: 0 <= i < |r| ==> ValidDate(r[i]) && MonthOf(r[i]) == MonthOf(d)
    ensures forall i :: 0 <= i < |r| - 1 ==> r[i + 1] == NextDay(r[i])
    ensures forall x :: ValidDate(x) && MonthOf(x) == MonthOf(d) ==> r[x.day - 1] == x
  {
    seq(DaysInMonth(d.year, d.month), i requires 0 <= i < DaysInMonth(d.year, d.month) => Date(d.year, d.month, i + 1))
  }

  /** Walking k days from the 1st of a month stays in that month while k is short of its length. */
  lemma {:induction false} AddDaysWithinMonth(ym: YearMonth, k: nat)
    requires ValidMonth(ym) && k < DaysInMonth(ym.year, ym.month)
    ensures AddDays(FirstOfMonth(ym), k) == Date(ym.year, ym.month, k + 1)
  {
    if k > 0 {
      AddDaysWithinMonth(ym, k - 1);
      AddDaysSucc(FirstOfMonth(ym), k - 1);
    }
  }

  // ---------------------------------------------------------------------------
  // Comparisons (isSameDay, isSameMonth, isToday)

  /** isSameDay: the same year, month and day, so the same calendar day. */
  predicate IsSameDay(a: Date, b: Date): (r: bool)
    ensures r <==> a == b
  {
    a.year == b.year && a.month == b.month && a.day == b.day
  }

  /** isSameMonthDate: both days lie in the same month of the same year, so they share
      the first of their month. */
  predicate IsSameMonthDate(a: Date, b: Date): (r: bool)
    ensures r <==> FirstOfMonth(MonthOf(a)) == FirstOfMonth(MonthOf(b))
  {
    MonthOf(a) == MonthOf(b)
  }

  /** isToday, with the current day passed in. */
  predicate IsToday(d: Date, now: Date): (r: bool)
    ensures r <==> d == now
  {
    IsSameDay(d, now)
  }

  /** isToday holds exactly when d and now have the same day count. */
  lemma IsTodayByDayNumber(d: Date, now: Date)
    requires ValidDate(d) && ValidDate(now)
    ensures IsToday(d, now) <==> DayNumber(d) == DayNumber(now)
  {
    SameDayIffSameDayNumber(d, now);
  }

  /** Days of the same calendar day lie in the same month; same-month is an equivalence. */
  lemma SameMonthFacts(a: Date, b: Date, c: Date)
    ensures IsSameDay(a, b) ==> IsSameMonthDate(a, b)
    ensures IsSameMonthDate(a, a)
    ensures IsSameMonthDate(a, b) ==> IsSameMonthDate(b, a)
    ensures IsSameMonthDate(a, b) && IsSameMonthDate(b, c) ==> IsSameMonthDate(a, c)
  {
  }

  // ---------------------------------------------------------------------------
  // Decimal digits

  predicate IsDigit(c: char) {
    '0' <= c <= '9'
  }

  predicate AllDigits(s: string) {
    forall i :: 0 <= i < |s| ==> IsDigit(s[i])
  }

  function DigitChar(n: int): (c: char)
    requires 0 <= n < 10
    ensures IsDigit(c)
  {
    ('0' as int + n) as char
  }

  function DigitValue(c: char): (n: int)
    requires IsDigit(c)
    ensures 0 <= n < 10
  {
    c as int - '0' as int
  }

  /** The value of a string of decimal digits, as parseInt(s, 10) reads it. */
  function DigitsValue(s: string): nat
    requires AllDigits(s)
  {
    if s == [] then 0 else DigitsValue(s[..|s| - 1]) * 10 + DigitValue(s[|s| - 1])
  }

  /** The decimal text of n, as JavaScript prints a non-negative integer. */
  function DecimalText(n: nat): (s: string)
    ensures |s| >= 1 && AllDigits(s)
    ensures |s| > 1 ==> s[0] != '0'
  {
    if n < 10 then [DigitChar(n)] else DecimalText(n / 10) + [DigitChar(n % 10)]
  }

  function Zeros(k: nat): (s: string)
    ensures |s| == k && AllDigits(s)
  {
    seq(k, _ => '0')
  }

  /** Left-pads s with '0' up to width w, as date-fns pads numeric fields. */
  function PadLeft(s: string, w: nat): string {
    if |s| >= w then s else Zeros(w - |s|) + s
  }

  lemma {:induction false} DecimalTextValue(n: nat)
    ensures DigitsValue(DecimalText(n)) == n
  {
    if n >= 10 {
      var s := DecimalText(n / 10);
      assert (s + [DigitChar(n % 10)])[..|s|] == s;
      DecimalTextValue(n / 10);
    }
  }

  function Pow10(k: nat): nat {
    if k == 0 then 1 else 10 * Pow10(k - 1)
  }

  /** n has at most k digits exactly when it is below 10^k. */
  lemma {:induction false} DecimalTextLength(n: nat, k: nat)
    requires k >= 1
    ensures |DecimalText(n)| <= k <==> n < Pow10(k)
  {
    if n >= 10 {
      if k > 1 {
        DecimalTextLength(n / 10, k - 1);
      } else {
        assert Pow10(1) == 10;
      }
    } else {
      Pow10Positive(k);
    }
  }

  lemma {:induction false} Pow10Positive(k: nat)
    ensures Pow10(k) >= 10 || k == 0
  {
    if k > 1 {
      Pow10Positive(k - 1);
    }
  }

  lemma {:induction false} LeadingZeroValue(s: string)
    requires AllDigits(s)
    ensures DigitsValue(['0'] + s) == DigitsValue(s)
  {
    if s != [] {
      var t := s[..|s| - 1];
      assert (['0'] + s)[..|s|] == ['0'] + t;
      LeadingZeroValue(t);
    }
  }

  lemma {:induction false} ZerosValue(k: nat, s: string)
    requires AllDigits(s)
    ensures DigitsValue(Zeros(k) + s) == DigitsValue(s)
  {
    if k == 0 {
      assert Zeros(k) + s == s;
    } else {
      assert Zeros(k) == ['0'] + Zeros(k - 1);
      assert Zeros(k) + s == ['0'] + (Zeros(k - 1) + s);
      ZerosValue(k - 1, s);
      LeadingZeroValue(Zeros(k - 1) + s);
    }
  }

  /** Padding digits keeps them digits and keeps their value; the result has width w
      unless s was already wider. */
  lemma PadLeftFacts(s: string, w: nat)
    requires AllDigits(s)
    ensures AllDigits(PadLeft(s, w))
    ensures |PadLeft(s, w)| == if |s| >= w then |s| else w
    ensures DigitsValue(PadLeft(s, w)) == DigitsValue(s)
  {
    var r := PadLeft(s, w);
    if |s| < w {
      ZerosValue(w - |s|, s);
      assert r == Zeros(w - |s|) + s;
    } else {
      assert r == s;
    }
  }

  // ---------------------------------------------------------------------------
  // formatDate: "yyyy-MM-dd"

  /** The year of the era that date-fns prints for "yyyy": 1 BC (year 0) is 1. */
  function EraYear(y: int): nat {
    if y > 0 then y else 1 - y
  }

  /** date-fns "yyyy": the year of the era, padded to at least four digits. */
  function YearText(y: int): string {
    PadLeft(DecimalText(EraYear(y)), 4)
  }

  /** The year field is all digits, at least four of them, reads back as a positive year,
      and has exactly four digits for years 1..9999. */
  lemma YearTextFacts(y: int)
    ensures AllDigits(YearText(y)) && |YearText(y)| >= 4
    ensures 1 <= y ==> DigitsValue(YearText(y)) == y
    ensures 1 <= y <= 9999 ==> |YearText(y)| == 4
  {
    var t := DecimalText(EraYear(y));
    DecimalTextValue(EraYear(y));
    PadLeftFacts(t, 4);
    DecimalTextLength(EraYear(y), 4);
    assert Pow10(4) == 10000;
  }

  /** date-fns "MM" and "dd": a month or day number padded to two digits. */
  function TwoDigits(n: nat): string {
    PadLeft(DecimalText(n), 2)
  }

  /** A number below 100 is written as two digits that read back as the number. */
  lemma TwoDigitsFacts(n: nat)
    requires n < 100
    ensures |TwoDigits(n)| == 2 && AllDigits(TwoDigits(n)) && DigitsValue(TwoDigits(n)) == n
  {
    DecimalTextValue(n);
    DecimalTextLength(n, 2);
    assert Pow10(2) == 100;
    PadLeftFacts(DecimalText(n), 2);
  }

  /** formatDate: the "yyyy-MM-dd" text of d. */
  function FormatDate(d: Date): string
    requires ValidDate(d)
  {
    YearText(d.year) + "-" + TwoDigits(d.month) + "-" + TwoDigits(d.day)
  }

  /** The pieces of formatDate's text: the year field, '-', the month field, '-', the day field. */
  lemma FormatDateParts(d: Date)
    requires ValidDate(d)
    ensures var s, y := FormatDate(d), YearText(d.year);
      |s| == |y| + 6 && s[..|y|] == y && s[|y|] == '-' && s[|y| + 3] == '-'
      && s[|y| + 1..|y| + 3] == TwoDigits(d.month) && s[|y| + 4..] == TwoDigits(d.day)
  {
    TwoDigitsFacts(d.month);
    TwoDigitsFacts(d.day);
    JoinedParts(YearText(d.year), TwoDigits(d.month), TwoDigits(d.day));
  }

  /** Where the three fields sit in y + "-" + m + "-" + dd when m has two characters. */
  lemma JoinedParts(y: string, m: string, dd: string)
    requires |m| == 2
    ensures var s := y + "-" + m + "-" + dd;
      |s| == |y| + 4 + |dd| && s[..|y|] == y && s[|y|] == '-' && s[|y| + 3] == '-'
      && s[|y| + 1..|y| + 3] == m && s[|y| + 4..] == dd
  {
    var s := y + "-" + m + "-" + dd;
    assert s == y + ("-" + m + "-" + dd);
    assert s[|y| + 1..] == m + "-" + dd;
  }

  /** For years 1..9999 formatDate writes an RFC 3339 full-date whose fields read back
      as the year, month and day it was given. */
  lemma FormatDateRoundTrip(d: Date)
    requires ValidDate(d) && 1 <= d.year <= 9999
    ensures var s := FormatDate(d); |s| == 10 && IsFullDate(s) && ParseFullDate(s) == d
  {
    var y, m, dd := YearText(d.year), TwoDigits(d.month), TwoDigits(d.day);
    var s := FormatDate(d);
    FormatDateParts(d);
    YearTextFacts(d.year);
    TwoDigitsFacts(d.month);
    TwoDigitsFacts(d.day);
    assert |y| == 4;
    assert s[..4] == y && s[5..7] == m && s[8..] == dd;
    assert DigitsValue(y) == d.year && DigitsValue(m) == d.month && DigitsValue(dd) == d.day;
  }

  /** formatDate writes only digits and '-', whatever the year: no '&' can appear. */
  lemma FormatDateCharacters(d: Date)
    requires ValidDate(d)
    ensures forall i :: 0 <= i < |FormatDate(d)| ==> IsDigit(FormatDate(d)[i]) || FormatDate(d)[i] == '-'
  {
    YearTextFacts(d.year);
    TwoDigitsFacts(d.month);
    TwoDigitsFacts(d.day);
    JoinedCharacters(YearText(d.year), TwoDigits(d.month), TwoDigits(d.day));
  }

  lemma JoinedCharacters(y: string, m: string, dd: string)
    requires AllDigits(y) && AllDigits(m) && AllDigits(dd)
    ensures var s := y + "-" + m + "-" + dd;
      forall i :: 0 <= i < |s| ==> IsDigit(s[i]) || s[i] == '-'
  {
    var s := y + "-" + m + "-" + dd;
    forall i | 0 <= i < |s|
      ensures IsDigit(s[i]) || s[i] == '-'
    {
      if i < |y| {
        assert s[i] == y[i];
      } else if |y| < i < |y| + 1 + |m| {
        assert s[i] == m[i - |y| - 1];
      } else if |y| + 1 + |m| < i {
        assert s[i] == dd[i - |y| - |m| - 2];
      }
    }
  }

  /** The full-date of section 5.6 of RFC 3339: 4DIGIT "-" 2DIGIT "-" 2DIGIT. */
  predicate IsFullDate(s: string) {
    |s| == 10 && s[4] == '-' && s[7] == '-'
    && AllDigits(s[..4]) && AllDigits(s[5..7]) && AllDigits(s[8..])
  }

  /** Reads the year, month and day fields of a full-date back. */
  function ParseFullDate(s: string): Date
    requires IsFullDate(s)
  {
    Date(DigitsValue(s[..4]), DigitsValue(s[5..7]), DigitsValue(s[8..]))
  }

  /** A well-formed full-date naming a real day of years 1..9999 is what formatDate writes for it. */
  lemma FormatParsedFullDate(s: string)
    requires IsFullDate(s) && ValidDate(ParseFullDate(s)) && 1 <= ParseFullDate(s).year
    ensures FormatDate(ParseFullDate(s)) == s
  {
    var d := ParseFullDate(s);
    assert d.year <= 9999 by {
      DigitsBound(s[..4]);
      assert Pow10(4) == 10000;
    }
    YearTextFacts(d.year);
    TwoDigitsFacts(d.month);
    TwoDigitsFacts(d.day);
    var y, m, dd := YearText(d.year), TwoDigits(d.month), TwoDigits(d.day);
    DigitsDetermine(y, s[..4]);
    DigitsDetermine(m, s[5..7]);
    DigitsDetermine(dd, s[8..]);
    FullDateJoin(s);
  }

  /** A full-date is its three fields joined by '-'. */
  lemma FullDateJoin(s: string)
    requires IsFullDate(s)
    ensures s == s[..4] + "-" + s[5..7] + "-" + s[8..]
  {
  }

  lemma {:induction false} DigitsBound(s: string)
    requires AllDigits(s)
    ensures DigitsValue(s) < Pow10(|s|)
  {
    if s != [] {
      DigitsBound(s[..|s| - 1]);
    }
  }

  /** Two digit strings of one length with one value are the same string. */
  lemma {:induction false} DigitsDetermine(a: string, b: string)
    requires AllDigits(a) && AllDigits(b) && |a| == |b|
    requires DigitsValue(a) == DigitsValue(b)
    ensures a == b
  {
    if a != [] {
      var n := |a| - 1;
      assert DigitValue(a[n]) == DigitValue(b[n]);
      DigitsDetermine(a[..n], b[..n]);
      assert a == a[..n] + [a[n]];
      assert b == b[..n] + [b[n]];
    }
  }

  // ---------------------------------------------------------------------------
  // formatDisplayTime: "HH:MM" to "h:MM AM/PM"

  /** A slot time "H:MM" or "HH:MM" whose hour is 0..23. */
  predicate IsSlotTime(t: string) {
    (|t| == 4 || |t| == 5) && t[|t| - 3] == ':'
    && AllDigits(t[..|t| - 3]) && AllDigits(t[|t| - 2..])
    && DigitsValue(t[..|t| - 3]) <= 23
  }

  /** parseInt of the text before the colon. */
  function SlotHour(t: string): (h: int)
    requires IsSlotTime(t)
    ensures 0 <= h <= 23
  {
    DigitsValue(t[..|t| - 3])
  }

  /** The text after the colon. */
  function SlotMinutes(t: string): string
    requires IsSlotTime(t)
  {
    t[|t| - 2..]
  }

  /** formatDisplayTime: the 12-hour clock text of a slot time. */
  function FormatDisplayTime(t: string): (r: string)
    requires IsSlotTime(t)
    ensures |r| == |DecimalText(DisplayHour(SlotHour(t)))| + 6
    ensures r[|r| - 2..] == (if SlotHour(t) >= 12 then "PM" else "AM")
    ensures r[|r| - 6..|r| - 2] == ":" + SlotMinutes(t) + " "
    ensures AllDigits(r[..|r| - 6]) && r[0] != '0'
    ensures 1 <= DigitsValue(r[..|r| - 6]) <= 12
    ensures DigitsValue(r[..|r| - 6]) % 12 == SlotHour(t) % 12
  {
    var hours := t[..|t| - 3];
    var minutes := t[|t| - 2..];
    var hour := DigitsValue(hours);
    var ampm := if hour >= 12 then "PM" else "AM";
    var h := DecimalText(DisplayHour(hour));
    DecimalTextValue(DisplayHour(hour));
    TimeTextParts(h, minutes, ampm);
    h + ":" + minutes + " " + ampm
  }

  /** Where the hour, the minutes and the suffix sit in h + ":" + mm + " " + ampm. */
  lemma TimeTextParts(h: string, mm: string, ampm: string)
    requires |mm| == 2 && |ampm| == 2
    ensures var r := h + ":" + mm + " " + ampm;
      |r| == |h| + 6 && r[..|r| - 6] == h && r[|r| - 6..|r| - 2] == ":" + mm + " "
      && r[|r| - 2..] == ampm && (|h| > 0 ==> r[0] == h[0])
  {
    var r := h + ":" + mm + " " + ampm;
    assert r == h + (":" + mm + " " + ampm);
    assert r == (h + ":" + mm + " ") + ampm;
  }

  /** `hour % 12 || 12`: the hour on a 12-hour clock face. */
  function DisplayHour(hour: int): int
    requires 0 <= hour
  {
    if hour % 12 == 0 then 12 else hour % 12
  }

  /** Reading the 12-hour text back: the hour and the AM/PM suffix give back the 24-hour hour. */
  function TwentyFourHour(h12: int, pm: bool): int {
    h12 % 12 + (if pm then 12 else 0)
  }

  lemma DisplayTimeRoundTrip(t: string)
    requires IsSlotTime(t)
    ensures var r := FormatDisplayTime(t);
      TwentyFourHour(DigitsValue(r[..|r| - 6]), r[|r| - 2..] == "PM") == SlotHour(t)
  {
  }

  lemma TwoDigitValue(s: string)
    requires |s| == 2 && AllDigits(s)
    ensures DigitsValue(s) == 10 * DigitValue(s[0]) + DigitValue(s[1])
  {
    assert s[..1][..0] == [];
    assert DigitsValue(s[..1]) == DigitValue(s[0]);
  }

  /** The display text of a five-character slot time, spelled out. */
  lemma DisplayTimeOfHHMM(t: string, hour: int, text: string)
    requires |t| == 5 && t[2] == ':' && AllDigits(t[..2]) && AllDigits(t[3..])
    requires hour == 10 * DigitValue(t[0]) + DigitValue(t[1]) && hour <= 23
    requires text == DecimalText(DisplayHour(hour)) + ":" + t[3..] + " " + (if hour >= 12 then "PM" else "AM")
    ensures IsSlotTime(t) && FormatDisplayTime(t) == text
  {
    TwoDigitValue(t[..2]);
  }

  /** Midnight reads as 12 AM. */
  lemma DisplayTimeMidnight()
    ensures IsSlotTime("00:00") && FormatDisplayTime("00:00") == "12:00 AM"
  {
    assert DecimalText(12) == "12";
    DisplayTimeOfHHMM("00:00", 0, "12:00 AM");
  }

  /** Noon reads as 12 PM. */
  lemma DisplayTimeNoon()
    ensures IsSlotTime("12:30") && FormatDisplayTime("12:30") == "12:30 PM"
  {
    assert DecimalText(12) == "12";
    DisplayTimeOfHHMM("12:30", 12, "12:30 PM");
  }

  /** Evening hours lose twelve. */
  lemma DisplayTimeEvening()
    ensures IsSlotTime("23:15") && FormatDisplayTime("23:15") == "11:15 PM"
  {
    assert DecimalText(11) == "11";
    DisplayTimeOfHHMM("23:15", 23, "11:15 PM");
  }

  /** A leading zero of the hour is dropped and the minutes are kept as written. */
  lemma DisplayTimeMorning()
    ensures IsSlotTime("09:05") && FormatDisplayTime("09:05") == "9:05 AM"
  {
    assert DecimalText(9) == "9";
    DisplayTimeOfHHMM("09:05", 9, "9:05 AM");
  }
}
