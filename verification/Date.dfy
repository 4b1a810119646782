/** The conversions between Gregorian dates and Julian day numbers (Time/Date.cpp, Time/Date.h).
    Years are astronomical (year 0 exists), as in section 3.2.1 of ISO 8601:2004. */
module Date {
  import opened CInt

  datatype YearMonthDay = YearMonthDay(year: int, month: int, day: int)

  // ---------------------------------------------------------------- the code

  function JulianDayNumber(year: int, month: int, day: int): int {
    var a := Div(14 - month, 12);
    var y := year + 4800 - a;
    var m := month + 12 * a - 3;
    day + Div(153 * m + 2, 5) + y * 365 + Div(y, 4) - Div(y, 100) + Div(y, 400) - 32045
  }

  function FromJulianDayNumber(julianDayNumber: int): YearMonthDay {
    var a := julianDayNumber + 32044;
    var b := Div(4 * a + 3, 146097);
    var c := a - Div(b * 146097, 4);
    var d := Div(4 * c + 3, 1461);
    var e := c - Div(1461 * d, 4);
    var m := Div(5 * e + 2, 153);
    YearMonthDay(b * 100 + d - 4800 + Div(m, 10),
                 m + 3 - 12 * Div(m, 10),
                 e - Div(153 * m + 2, 5) + 1)
  }

  const DAYS_PER_WEEK := 7

  function WeekDay(julianDayNumber: int): int {
    Mod(julianDayNumber + 1, DAYS_PER_WEEK)
  }

  function Number(date: YearMonthDay): int {
    JulianDayNumber(date.year, date.month, date.day)
  }

  // ------------------------------------------------------------ the calendar

  predicate IsLeapYear(year: int) {
    year % 400 == 0 || (year % 4 == 0 && year % 100 != 0)
  }

  function DaysInMonth(year: int, month: int): int {
    if month == 2 then (if IsLeapYear(year) then 29 else 28)
    else if month in {4, 6, 9, 11} then 30
    else 31
  }

  predicate IsDate(date: YearMonthDay) {
    1 <= date.month <= 12 && 1 <= date.day <= DaysInMonth(date.year, date.month)
  }

  /** The conversions' first day: 1 March of year -4800, day number -32044. */
  predicate InRange(date: YearMonthDay) {
    IsDate(date) && (date.year > -4800 || (date.year == -4800 && date.month >= 3))
  }

  function NextDate(date: YearMonthDay): YearMonthDay {
    if date.day < DaysInMonth(date.year, date.month) then date.(day := date.day + 1)
    else if date.month < 12 then YearMonthDay(date.year, date.month + 1, 1)
    else YearMonthDay(date.year + 1, 1, 1)
  }

  /** The date reached by turning the calendar's pages `n` times from the first day. */
  function DateAfter(n: nat): YearMonthDay {
    if n == 0 then YearMonthDay(-4800, 3, 1) else NextDate(DateAfter(n - 1))
  }

  predicate Before(p: YearMonthDay, q: YearMonthDay) {
    p.year < q.year
    || (p.year == q.year && p.month < q.month)
    || (p.year == q.year && p.month == q.month && p.day < q.day)
  }

  // ------------------------------------------------- years beginning in March

  /** Days before March-based year `y`, in the form the forward conversion uses. */
  function DaysBeforeYear(y: int): int {
    365 * y + y / 4 - y / 100 + y / 400
  }

  /** Days before March-based month `m` of its year. */
  function DaysBeforeMonth(m: int): int {
    (153 * m + 2) / 5
  }

  function MarchYear(date: YearMonthDay): int {
    date.year + 4800 - (if date.month <= 2 then 1 else 0)
  }

  function MarchMonth(date: YearMonthDay): int {
    if date.month <= 2 then date.month + 9 else date.month - 3
  }

  function DayOfMarchYear(date: YearMonthDay): int {
    DaysBeforeMonth(MarchMonth(date)) + date.day - 1
  }

  lemma NumberByMarchYear(date: YearMonthDay)
    requires InRange(date)
    ensures MarchYear(date) >= 0 && 0 <= MarchMonth(date) <= 11
    ensures Number(date) + 32044 == DaysBeforeYear(MarchYear(date)) + DayOfMarchYear(date)
  {
    assert Div(14 - date.month, 12) == if date.month <= 2 then 1 else 0;
  }

  lemma MonthLengths(date: YearMonthDay)
    requires InRange(date)
    ensures 0 <= DayOfMarchYear(date) <= 365
    ensures DayOfMarchYear(date) == 365 ==> IsLeapYear(MarchYear(date) - 4799)
    ensures MarchMonth(date) < 11
            ==> DaysBeforeMonth(MarchMonth(date)) + DaysInMonth(date.year, date.month)
                == DaysBeforeMonth(MarchMonth(date) + 1)
  {
  }

  lemma MonthOfDay(m: int, d: int)
    requires 0 <= m <= 11 && 1 <= d
    requires if m < 11 then DaysBeforeMonth(m) + d <= DaysBeforeMonth(m + 1) else d <= 29
    ensures (5 * (DaysBeforeMonth(m) + d - 1) + 2) / 153 == m
  {
    QuotientIs(5 * (DaysBeforeMonth(m) + d - 1) + 2, 153, m);
  }

  lemma QuotientOfNext(y: int, n: int)
    requires n > 0
    ensures (y + 1) / n == y / n + (if (y + 1) % n == 0 then 1 else 0)
  {
    var q, r := (y + 1) / n, (y + 1) % n;
    assert y + 1 == n * q + r;
    if r == 0 {
      assert n * (q - 1) == n * q - n;
      QuotientIs(y, n, q - 1);
    } else {
      QuotientIs(y, n, q);
    }
  }

  lemma RemainderIs(x: int, n: int, q: int, r: int)
    requires 0 <= r < n && x == n * q + r
    ensures x % n == r
  {
    QuotientIs(x, n, q);
  }

  /** Subtracting 4800 changes no remainder of the leap rule. */
  lemma LeapByMarchYear(y: int)
    ensures IsLeapYear(y - 4799)
            <==> (y + 1) % 4 == 0 && ((y + 1) % 100 == 0 ==> (y + 1) % 400 == 0)
    ensures (y + 1) % 400 == 0 ==> (y + 1) % 100 == 0
    ensures (y + 1) % 100 == 0 ==> (y + 1) % 4 == 0
  {
    var z := y + 1;
    RemainderIs(z - 4800, 4, z / 4 - 1200, z % 4);
    RemainderIs(z - 4800, 100, z / 100 - 48, z % 100);
    RemainderIs(z - 4800, 400, z / 400 - 12, z % 400);
    if z % 400 == 0 {
      RemainderIs(z, 100, 4 * (z / 400), 0);
    }
    if z % 100 == 0 {
      RemainderIs(z, 4, 25 * (z / 100), 0);
    }
  }

  lemma LeapYearDays(y: int)
    requires y >= 0
    ensures DaysBeforeYear(y + 1) == DaysBeforeYear(y) + (if IsLeapYear(y - 4799) then 366 else 365)
  {
    LeapByMarchYear(y);
    QuotientOfNext(y, 4);
    QuotientOfNext(y, 100);
    QuotientOfNext(y, 400);
  }

  lemma CenturyDays(k: int, r: int)
    requires k >= 0 && 0 <= r < 100
    ensures DaysBeforeYear(100 * k + r) == (146097 * k) / 4 + (1461 * r) / 4
  {
    var y := 100 * k + r;
    QuotientIs(y, 4, 25 * k + r / 4);
    QuotientIs(y, 100, k);
    QuotientIs(y, 400, k / 4);
    QuotientIs(146097 * k, 4, 36524 * k + k / 4);
    QuotientIs(1461 * r, 4, 365 * r + r / 4);
  }

  /** The last day of a leap year falls in the right place of its century. */
  lemma LeapDayInCentury(k: int, r: int)
    requires k >= 0 && 0 <= r < 100 && IsLeapYear(100 * k + r - 4799)
    ensures r % 4 == 3 && (r == 99 ==> k % 4 == 3)
  {
    var y := 100 * k + r;
    LeapByMarchYear(y);
    assert (y + 1) % 4 == (r + 1) % 4;
    if r == 99 {
      assert y + 1 == 100 * (k + 1);
      assert (y + 1) % 100 == 0;
    }
  }

  /** Splitting a day count into century, year of century and day of year recovers all three. */
  lemma SplitDays(k: int, r: int, e: int)
    requires k >= 0 && 0 <= r < 100 && 0 <= e <= 365
    requires e == 365 ==> IsLeapYear(100 * k + r - 4799)
    ensures var a := DaysBeforeYear(100 * k + r) + e;
            var b := (4 * a + 3) / 146097;
            var c := a - (b * 146097) / 4;
            b == k && c >= 0 && (4 * c + 3) / 1461 == r && c - (1461 * r) / 4 == e
  {
    CenturyDays(k, r);
    var x := (1461 * r) / 4 + e;
    var a := DaysBeforeYear(100 * k + r) + e;
    if e == 365 {
      LeapDayInCentury(k, r);
    }
    QuotientIs(1461 * r, 4, 365 * r + r / 4);
    QuotientIs(146097 * k, 4, 36524 * k + k / 4);
    assert 0 <= x <= 36524 && (x == 36524 ==> k % 4 == 3);
    QuotientIs(4 * a + 3, 146097, k);
    QuotientIs(4 * x + 3, 1461, r);
  }

  // ------------------------------------------------------------ main results

  /** The intermediate values of the inverse conversion are the parts of the date. */
  lemma SplitOf(date: YearMonthDay) returns (k: int, r: int, e: int, m: int)
    requires InRange(date)
    ensures k >= 0 && 0 <= r < 100 && 0 <= e <= 365 && 0 <= m <= 11
    ensures var a := Number(date) + 32044;
            var c := a - (k * 146097) / 4;
            a >= 0 && (4 * a + 3) / 146097 == k
            && 0 <= c <= 36524 && (4 * c + 3) / 1461 == r && c - (1461 * r) / 4 == e
    ensures (5 * e + 2) / 153 == m
    ensures 100 * k + r == MarchYear(date) && m == MarchMonth(date) && e == DayOfMarchYear(date)
  {
    NumberByMarchYear(date);
    MonthLengths(date);
    var y := MarchYear(date);
    m, e := MarchMonth(date), DayOfMarchYear(date);
    k, r := y / 100, y % 100;
    assert y == 100 * k + r;
    SplitDays(k, r, e);
    MonthOfDay(m, date.day);
  }

  /** Every date of the calendar survives the round trip through its day number. */
  lemma DateRoundTrip(date: YearMonthDay)
    requires InRange(date)
    ensures FromJulianDayNumber(Number(date)) == date
    ensures Number(date) >= -32044
  {
    var k, r, e, m := SplitOf(date);
    InverseOfSplit(Number(date), k, r, e, m);
    DateOfParts(date);
  }

  lemma DateOfParts(date: YearMonthDay)
    requires InRange(date)
    ensures var y, m, e := MarchYear(date), MarchMonth(date), DayOfMarchYear(date);
            date == YearMonthDay(y - 4800 + (if m >= 10 then 1 else 0),
                                 if m >= 10 then m - 9 else m + 3,
                                 e - DaysBeforeMonth(m) + 1)
  {
  }

  lemma InverseOfSplit(julianDayNumber: int, k: int, r: int, e: int, m: int)
    requires julianDayNumber >= -32044 && k >= 0 && 0 <= r < 100 && e >= 0 && 0 <= m <= 11
    requires (4 * (julianDayNumber + 32044) + 3) / 146097 == k
    requires var c := julianDayNumber + 32044 - (k * 146097) / 4;
             c >= 0 && (4 * c + 3) / 1461 == r && c - (1461 * r) / 4 == e
    requires (5 * e + 2) / 153 == m
    ensures FromJulianDayNumber(julianDayNumber)
            == YearMonthDay(100 * k + r - 4800 + (if m >= 10 then 1 else 0),
                            if m >= 10 then m - 9 else m + 3,
                            e - DaysBeforeMonth(m) + 1)
  {
    QuotientIs(m, 10, if m >= 10 then 1 else 0);
  }

  lemma MonthOfNextDate(date: YearMonthDay)
    requires InRange(date)
    ensures InRange(NextDate(date))
    ensures var y, m := MarchYear(date), MarchMonth(date);
            if date.day < DaysInMonth(date.year, date.month) then
              MarchYear(NextDate(date)) == y && DayOfMarchYear(NextDate(date)) == DayOfMarchYear(date) + 1
            else if m < 11 then
              MarchYear(NextDate(date)) == y && DayOfMarchYear(NextDate(date)) == DayOfMarchYear(date) + 1
            else
              MarchYear(NextDate(date)) == y + 1 && DayOfMarchYear(NextDate(date)) == 0
              && DayOfMarchYear(date) == (if IsLeapYear(y - 4799) then 365 else 364)
  {
    MonthLengths(date);
  }

  /** Turning one page of the calendar adds one to the day number. */
  lemma NextDateIsNextNumber(date: YearMonthDay)
    requires InRange(date)
    ensures InRange(NextDate(date))
    ensures Number(NextDate(date)) == Number(date) + 1
  {
    MonthOfNextDate(date);
    NumberByMarchYear(date);
    NumberByMarchYear(NextDate(date));
    LeapYearDays(MarchYear(date));
  }

  /** The day number counts the pages turned since the first day. */
  lemma {:induction false} NumberCountsPages(n: nat)
    ensures InRange(DateAfter(n))
    ensures Number(DateAfter(n)) == n - 32044
  {
    if n == 0 {
      assert Number(YearMonthDay(-4800, 3, 1)) == -32044;
    } else {
      NumberCountsPages(n - 1);
      NextDateIsNextNumber(DateAfter(n - 1));
    }
  }

  /** The inverse conversion is the calendar itself: it yields the date that many pages on, which is
      valid and has the day number it was computed from. */
  lemma NumberRoundTrip(julianDayNumber: int)
    requires julianDayNumber >= -32044
    ensures InRange(FromJulianDayNumber(julianDayNumber))
    ensures FromJulianDayNumber(julianDayNumber) == DateAfter(julianDayNumber + 32044)
    ensures Number(FromJulianDayNumber(julianDayNumber)) == julianDayNumber
  {
    NumberCountsPages(julianDayNumber + 32044);
    DateRoundTrip(DateAfter(julianDayNumber + 32044));
  }

  lemma InverseNearZero(a: int)
    requires a == -1
    ensures FromJulianDayNumber(a - 32044) == YearMonthDay(-4800, 3, 0)
  {
    var b := Div(4 * a + 3, 146097);
    assert b == 0;
    var c := a - Div(b * 146097, 4);
    assert c == -1;
    var d := Div(4 * c + 3, 1461);
    assert d == 0;
    var e := c - Div(1461 * d, 4);
    assert e == -1;
    var m := Div(5 * e + 2, 153);
    assert m == 0 && Div(153 * m + 2, 5) == 0 && Div(m, 10) == 0;
  }

  /** One day before the first day the inverse fails: it yields day 0. */
  lemma InverseFailsBelowRange()
    ensures FromJulianDayNumber(-32045) == YearMonthDay(-4800, 3, 0)
  {
    InverseNearZero(-1);
  }

  /** Truncation rounds negative quotients up: what is split off a negative count leaves one. */
  lemma SplitOfNegative(a: int, n: int)
    requires a < 0 && n > 0
    ensures a - Div(Div(4 * a + 3, n) * n, 4) < 0
  {
    var x := -(4 * a + 3);
    var q := x / n;
    assert Div(4 * a + 3, n) == -q && q * n <= x;
    assert (-q) * n == -(q * n);
  }

  lemma DayOfNegative(e: int)
    requires e < 0
    ensures e - Div(153 * Div(5 * e + 2, 153) + 2, 5) + 1 <= 0
  {
    var x := -(5 * e + 2);
    var q := x / 153;
    assert Div(5 * e + 2, 153) == -q && 153 * q <= x;
  }

  lemma InverseBelowRange(julianDayNumber: int)
    requires julianDayNumber < -32044
    ensures FromJulianDayNumber(julianDayNumber).day <= 0
  {
    var a := julianDayNumber + 32044;
    var b := Div(4 * a + 3, 146097);
    var c := a - Div(b * 146097, 4);
    SplitOfNegative(a, 146097);
    var d := Div(4 * c + 3, 1461);
    var e := c - Div(1461 * d, 4);
    SplitOfNegative(c, 1461);
    DayOfNegative(e);
  }

  /** The inverse conversion is right exactly from the first day on: for every other day number it
      yields no date at all. */
  lemma InverseIsExact(julianDayNumber: int)
    ensures var date := FromJulianDayNumber(julianDayNumber);
            && (IsDate(date) <==> julianDayNumber >= -32044)
            && (InRange(date) && Number(date) == julianDayNumber <==> julianDayNumber >= -32044)
  {
    if julianDayNumber >= -32044 {
      NumberRoundTrip(julianDayNumber);
    } else {
      InverseBelowRange(julianDayNumber);
    }
  }

  lemma {:induction false} LaterPageIsLater(n: nat, k: nat)
    ensures k > 0 ==> Before(DateAfter(n), DateAfter(n + k))
  {
    if k > 0 {
      LaterPageIsLater(n, k - 1);
      NumberCountsPages(n + k - 1);
    }
  }

  /** Comparing dates by day number (as `operator<` does) is comparing them by year, month, day. */
  lemma NumberOrdersDates(p: YearMonthDay, q: YearMonthDay)
    requires InRange(p) && InRange(q)
    ensures Number(p) < Number(q) <==> Before(p, q)
    ensures Number(p) == Number(q) <==> p == q
  {
    var i := PageOf(p);
    var j := PageOf(q);
    if i < j {
      LaterPageIsLater(i, j - i);
    } else if j < i {
      LaterPageIsLater(j, i - j);
    }
  }

  lemma PageOf(date: YearMonthDay) returns (n: nat)
    requires InRange(date)
    ensures Number(date) == n - 32044 && date == DateAfter(n)
  {
    DateRoundTrip(date);
    n := Number(date) + 32044;
    NumberRoundTrip(Number(date));
  }

  /** No value computed by the inverse conversion leaves the range of a 32-bit `int`. */
  predicate InverseFits(julianDayNumber: int) {
    var a := julianDayNumber + 32044;
    var b := Div(4 * a + 3, 146097);
    var c := a - Div(b * 146097, 4);
    var d := Div(4 * c + 3, 1461);
    var e := c - Div(1461 * d, 4);
    var m := Div(5 * e + 2, 153);
    && IsInt32(a) && IsInt32(4 * a) && IsInt32(4 * a + 3)
    && IsInt32(b) && IsInt32(b * 146097) && IsInt32(Div(b * 146097, 4))
    && IsInt32(c) && IsInt32(4 * c) && IsInt32(4 * c + 3)
    && IsInt32(d) && IsInt32(1461 * d) && IsInt32(Div(1461 * d, 4))
    && IsInt32(e) && IsInt32(5 * e) && IsInt32(5 * e + 2)
    && IsInt32(m) && IsInt32(153 * m) && IsInt32(153 * m + 2) && IsInt32(Div(153 * m + 2, 5))
    && IsInt32(e - Div(153 * m + 2, 5)) && IsInt32(e - Div(153 * m + 2, 5) + 1)
    && IsInt32(Div(m, 10)) && IsInt32(m + 3) && IsInt32(12 * Div(m, 10))
    && IsInt32(m + 3 - 12 * Div(m, 10))
    && IsInt32(b * 100) && IsInt32(b * 100 + d) && IsInt32(b * 100 + d - 4800)
    && IsInt32(b * 100 + d - 4800 + Div(m, 10))
  }

  /** From the first day on, the inverse conversion overflows exactly above day number 536838867. */
  lemma InverseFitsInt32(julianDayNumber: int)
    requires julianDayNumber >= -32044
    ensures InverseFits(julianDayNumber) <==> julianDayNumber <= 536838867
  {
    if julianDayNumber <= 536838867 {
      NumberRoundTrip(julianDayNumber);
      var k, r, e, m := SplitOf(FromJulianDayNumber(julianDayNumber));
      FitsOfSplit(julianDayNumber, k, r, e, m);
    } else {
      assert !IsInt32(4 * (julianDayNumber + 32044) + 3);
    }
  }

  lemma FitsOfSplit(julianDayNumber: int, k: int, r: int, e: int, m: int)
    requires -32044 <= julianDayNumber <= 536838867
    requires k >= 0 && 0 <= r < 100 && 0 <= e <= 365 && 0 <= m <= 11
    requires Div(4 * (julianDayNumber + 32044) + 3, 146097) == k
    requires var c := julianDayNumber + 32044 - Div(k * 146097, 4);
             0 <= c <= 36524 && Div(4 * c + 3, 1461) == r && c - Div(1461 * r, 4) == e
    requires Div(5 * e + 2, 153) == m
    ensures InverseFits(julianDayNumber)
  {
    assert k <= 14700;
    assert 0 <= Div(m, 10) <= 1;
    assert 0 <= Div(153 * m + 2, 5) <= 337;
  }

  /** No value computed by the forward conversion leaves the range of a 32-bit `int`. */
  predicate ForwardFits(year: int, month: int, day: int) {
    var a := Div(14 - month, 12);
    && IsInt32(14 - month) && IsInt32(a) && IsInt32(year + 4800) && IsInt32(year + 4800 - a)
    && IsInt32(12 * a) && IsInt32(month + 12 * a) && IsInt32(month + 12 * a - 3)
    && SumsFit(day, year + 4800 - a, month + 12 * a - 3)
  }

  predicate SumsFit(day: int, y: int, m: int) {
    var t := day + Div(153 * m + 2, 5);
    && IsInt32(153 * m) && IsInt32(153 * m + 2) && IsInt32(t)
    && IsInt32(y * 365) && IsInt32(t + y * 365)
    && IsInt32(t + y * 365 + Div(y, 4))
    && IsInt32(t + y * 365 + Div(y, 4) - Div(y, 100))
    && IsInt32(t + y * 365 + Div(y, 4) - Div(y, 100) + Div(y, 400))
    && IsInt32(t + y * 365 + Div(y, 4) - Div(y, 100) + Div(y, 400) - 32045)
  }

  lemma SumsOfYearFit(day: int, y: int, m: int)
    requires 1 <= day <= 31 && 0 <= m <= 11 && 0 <= y <= 1471000
    ensures SumsFit(day, y, m)
  {
    assert 0 <= Div(153 * m + 2, 5) <= 337;
    assert 0 <= Div(y, 4) <= y && 0 <= Div(y, 100) <= y && 0 <= Div(y, 400) <= y;
  }

  /** The forward conversion overflows for no date the inverse can deliver. */
  lemma ForwardFitsInt32(date: YearMonthDay)
    requires InRange(date) && Number(date) <= 536838867
    ensures ForwardFits(date.year, date.month, date.day)
  {
    NumberByMarchYear(date);
    YearBound(MarchYear(date), DayOfMarchYear(date), Number(date) + 32044);
    ForwardFitsSmallYear(date.year, date.month, date.day);
  }

  lemma ForwardFitsSmallYear(year: int, month: int, day: int)
    requires 1 <= month <= 12 && 1 <= day <= 31
    requires 0 <= year + 4800 - (if month <= 2 then 1 else 0) <= 1471000
    ensures ForwardFits(year, month, day)
  {
    var a := if month <= 2 then 1 else 0;
    assert Div(14 - month, 12) == a;
    SumsOfYearFit(day, year + 4800 - a, month + 12 * a - 3);
  }

  lemma YearBound(y: int, e: int, n: int)
    requires y >= 0 && e >= -400 && n == DaysBeforeYear(y) + e && n <= 536870911
    ensures y <= 1471000
  {
  }

  /** Weekdays advance by one modulo 7 from each day to the next. */
  lemma WeekDayAdvances(date: YearMonthDay)
    requires InRange(date) && Number(date) >= 0
    ensures 0 <= WeekDay(Number(date)) < DAYS_PER_WEEK
    ensures WeekDay(Number(NextDate(date))) == (WeekDay(Number(date)) + 1) % DAYS_PER_WEEK
  {
    NextDateIsNextNumber(date);
    WeekDayOfNext(Number(date));
  }

  lemma WeekDayOfNext(julianDayNumber: int)
    requires julianDayNumber >= 0
    ensures 0 <= WeekDay(julianDayNumber) < DAYS_PER_WEEK
    ensures WeekDay(julianDayNumber + 1) == (WeekDay(julianDayNumber) + 1) % DAYS_PER_WEEK
  {
  }

  /** 1 January 1970 has day number 2440588, a Thursday. */
  lemma Epoch()
    ensures Number(YearMonthDay(1970, 1, 1)) == 2440588
    ensures WeekDay(Number(YearMonthDay(1970, 1, 1))) == 4
  {
    assert Div(13, 12) == 1 && Div(153 * 10 + 2, 5) == 306;
    assert Div(6769, 4) == 1692 && Div(6769, 100) == 67 && Div(6769, 400) == 16;
  }

  /** A weekday is one of 0..6 exactly for day numbers from -1 on and for one earlier day in seven:
      below that the truncating remainder is negative. */
  lemma WeekDayRange(julianDayNumber: int)
    ensures 0 <= WeekDay(julianDayNumber) < DAYS_PER_WEEK
            <==> julianDayNumber >= -1 || (julianDayNumber + 1) % DAYS_PER_WEEK == 0
  {
  }
}
