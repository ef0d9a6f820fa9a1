/** deps/common/time/datetime.h and datetime.cpp: Julian day numbers, Gregorian dates, durations. */
module Calendar {

  /** `/` and `%` on ints in C++: they truncate towards zero. */
  function Quot(a: int, b: int): int
    requires b > 0
  {
    if a >= 0 then a / b else -((-a) / b)
  }

  function Rem(a: int, b: int): int
    requires b > 0
  {
    a - b * Quot(a, b)
  }

  lemma RemBounds(a: int, b: int)
    requires b > 0
    ensures -b < Rem(a, b) < b && (a >= 0 ==> 0 <= Rem(a, b)) && (a <= 0 ==> Rem(a, b) <= 0)
    ensures a == b * Quot(a, b) + Rem(a, b)
  {
  }

  // ----- The reference: months counted one by one

  predicate Leap(year: int) {
    year % 4 == 0 && (year % 100 != 0 || year % 400 == 0)
  }

  /** The number of days in month `month`, 1 to 12, of a year. */
  function DaysIn(year: int, month: int): (n: int)
    ensures 28 <= n <= 31
  {
    if month == 2 then (if Leap(year) then 29 else 28)
    else if month == 4 || month == 6 || month == 9 || month == 11 then 30
    else 31
  }

  /** Months are numbered through all years: January of year 0 is 0. */
  function MonthNumber(year: int, month: int): int {
    12 * year + month - 1
  }

  function Days(k: int): (n: int)
    ensures 28 <= n <= 31
  {
    DaysIn(k / 12, k % 12 + 1)
  }

  const EPOCH := 23640  // January 1970

  /** The Julian day number of the first of a month: 1 January 1970 is day 2440588, and every month
      starts when the one before is over. */
  function MonthStart(k: int): int
    decreases if k >= EPOCH then k - EPOCH else EPOCH - k
  {
    if k == EPOCH then 2440588
    else if k > EPOCH then MonthStart(k - 1) + Days(k - 1)
    else MonthStart(k + 1) - Days(k)
  }

  lemma NextMonth(k: int)
    ensures MonthStart(k + 1) == MonthStart(k) + Days(k)
  {
  }

  lemma {:induction false} MonthsInOrder(j: int, k: int)
    requires j <= k
    ensures MonthStart(j) + 28 * (k - j) <= MonthStart(k)
    decreases k - j
  {
    if j < k {
      MonthsInOrder(j, k - 1);
      NextMonth(k - 1);
    }
  }

  predicate ValidDate(year: int, month: int, day: int) {
    1 <= month <= 12 && 1 <= day <= DaysIn(year, month)
  }

  // ----- julian_date and get_ymd

  function JulianDate(year: int, month: int, day: int): int {
    var a := Quot(14 - month, 12);
    var y := year + 4800 - a;
    var m := month + 12 * a - 3;
    day + Quot(153 * m + 2, 5) + y * 365 + Quot(y, 4) - Quot(y, 100) + Quot(y, 400) - 32045
  }

  function GetYmd(jday: int): (int, int, int) {
    var a := jday + 32044;
    var b := Quot(4 * a + 3, 146097);
    var c := a - Quot(b * 146097, 4);
    var d := Quot(4 * c + 3, 1461);
    var e := c - Quot(1461 * d, 4);
    var m := Quot(5 * e + 2, 153);
    (b * 100 + d - 4800 + Quot(m, 10), m + 3 - 12 * Quot(m, 10), e - Quot(153 * m + 2, 5) + 1)
  }

  /** The year of `julian_date` starts in March, 4801 BC; `y` counts such years, `m` their months. */
  predicate InRange(year: int, month: int) {
    month <= 14 && year + 4800 - Quot(14 - month, 12) >= 0
  }

  /** The formula with floors, on years and months that start in March. */
  function MarchStart(y: int, m: int): int {
    (153 * m + 2) / 5 + y * 365 + y / 4 - y / 100 + y / 400 - 32044
  }

  /** Month number of month `m` of the March year `y`. */
  function MarchMonth(y: int, m: int): int {
    12 * (y - 4800) + m + 2
  }

  lemma MarchStep(y: int, m: int)
    requires 0 <= m < 11
    ensures MarchStart(y, m + 1) == MarchStart(y, m) + Days(MarchMonth(y, m))
  {
    var k := MarchMonth(y, m);
    assert k % 12 == (m + 2) % 12 && (m < 10 ==> k / 12 == y - 4800) && (m == 10 ==> k / 12 == y - 4799);
  }

  lemma MarchYearStep(y: int)
    ensures MarchStart(y + 1, 0) == MarchStart(y, 11) + Days(MarchMonth(y, 11))
  {
    var k := MarchMonth(y, 11);
    assert k == 12 * (y - 4799) + 1;
    assert k % 12 == 1 && k / 12 == y - 4799;
    LeapShift(y + 1);
    hide Leap;
    assert Days(k) == if Leap(y + 1) then 29 else 28;
    LeapCount(y);
  }

  /** The leap days up to year y, by the rule. */
  lemma LeapCount(y: int)
    ensures ((y + 1) / 4 - (y + 1) / 100 + (y + 1) / 400) - (y / 4 - y / 100 + y / 400) == if Leap(y + 1) then 1 else 0
  {
    Leaps(y);
    Hundreds(y + 1);
    var a, b, c := (y + 1) % 4 == 0, (y + 1) % 100 == 0, (y + 1) % 400 == 0;
    assert Leap(y + 1) <==> a && (!b || c);
  }

  lemma Hundreds(n: int)
    ensures n % 400 == 0 ==> n % 100 == 0
    ensures n % 100 == 0 ==> n % 4 == 0
  {
    var q, r := n / 400, n / 100;
    TimesFour(q);
    TimesFour(r);
    assert n % 400 == 0 ==> n == 400 * q;
    assert n % 100 == 0 ==> n == 100 * r;
  }

  lemma TimesFour(q: int)
    ensures 400 * q % 100 == 0 && 100 * q % 4 == 0
  {
    assert 400 * q == 100 * (4 * q) && 100 * q == 4 * (25 * q);
  }

  lemma LeapShift(y: int)
    ensures Leap(y - 4800) <==> Leap(y)
  {
    assert (y - 4800) % 4 == y % 4;
    assert (y - 4800) % 100 == y % 100;
    assert (y - 4800) % 400 == y % 400;
  }

  lemma Leaps(y: int)
    ensures (y + 1) / 4 - y / 4 == if (y + 1) % 4 == 0 then 1 else 0
    ensures (y + 1) / 100 - y / 100 == if (y + 1) % 100 == 0 then 1 else 0
    ensures (y + 1) / 400 - y / 400 == if (y + 1) % 400 == 0 then 1 else 0
  {
  }

  lemma MarchEpoch(y: int, m: int)
    requires 0 <= m <= 11 && MarchMonth(y, m) == EPOCH
    ensures MarchStart(y, m) == MonthStart(EPOCH)
  {
    assert y == 6769 && m == 10;
  }

  lemma {:induction false} MarchIsMonthStart(y: int, m: int)
    requires 0 <= m <= 11
    ensures MarchStart(y, m) == MonthStart(MarchMonth(y, m))
    decreases if MarchMonth(y, m) >= EPOCH then MarchMonth(y, m) - EPOCH else EPOCH - MarchMonth(y, m)
  {
    hide MarchStart, MonthStart, Days;
    var k := MarchMonth(y, m);
    if k > EPOCH {
      NextMonth(k - 1);
      if m > 0 {
        MarchIsMonthStart(y, m - 1);
        MarchStep(y, m - 1);
      } else {
        MarchIsMonthStart(y - 1, 11);
        MarchYearStep(y - 1);
      }
    } else if k < EPOCH {
      NextMonth(k);
      if m < 11 {
        MarchIsMonthStart(y, m + 1);
        MarchStep(y, m);
      } else {
        MarchIsMonthStart(y + 1, 0);
        MarchYearStep(y);
      }
    } else {
      MarchEpoch(y, m);
    }
  }

  /** `julian_date` counts days, also for the months 0, -1 and so on of a year and for days outside
      the month. */
  lemma JulianDateCounts(year: int, month: int, day: int)
    requires InRange(year, month)
    ensures JulianDate(year, month, day) == MonthStart(MonthNumber(year, month)) + day - 1
  {
    var a := Quot(14 - month, 12);
    var y, m := year + 4800 - a, month + 12 * a - 3;
    assert 0 <= m <= 11;
    assert JulianDate(year, month, day) == MarchStart(y, m) + day - 1;
    MarchIsMonthStart(y, m);
    assert MarchMonth(y, m) == MonthNumber(year, month);
  }

  /** The three divisions of `get_ymd`, given the century, year and day they are to find. */
  lemma CenturyFound(b: int, c: int)
    requires 0 <= b && 0 <= c && (c < 36524 || (c == 36524 && b % 4 == 3))
    ensures var a := 36524 * b + b / 4 + c;
      (4 * a + 3) / 146097 == b && a - b * 146097 / 4 == c
  {
    assert b * 146097 / 4 == 36524 * b + b / 4;
    assert 4 * (36524 * b + b / 4 + c) + 3 == 146097 * b + (4 * c + 3 - b % 4);
  }

  lemma YearFound(d: int, e: int)
    requires 0 <= d && 0 <= e && (e < 365 || (e == 365 && d % 4 == 3))
    ensures var c := 365 * d + d / 4 + e;
      (4 * c + 3) / 1461 == d && c - 1461 * d / 4 == e
  {
    assert 1461 * d / 4 == 365 * d + d / 4;
    assert 4 * (365 * d + d / 4 + e) + 3 == 1461 * d + (4 * e + 3 - d % 4);
  }

  lemma MonthFound(m: int, day: int)
    requires 0 <= m <= 11 && 1 <= day <= 31
    requires m == 1 || m == 3 || m == 6 || m == 8 ==> day <= 30
    requires m == 11 ==> day <= 29
    ensures var e := (153 * m + 2) / 5 + day - 1; 0 <= e <= 365 && (5 * e + 2) / 153 == m
  {
  }

  /** Days since 1 March 4801 BC of a date given by its March century, year, month and day. */
  function MarchDay(b: int, d: int, m: int, day: int): int {
    36524 * b + b / 4 + 365 * d + d / 4 + (153 * m + 2) / 5 + day - 1
  }

  /** Month `m`, counted from March 0, of the March year 100 * b + d has such a day. */
  predicate MarchValid(b: int, d: int, m: int, day: int) {
    0 <= b && 0 <= d <= 99 && 0 <= m <= 11 && 1 <= day <= DaysIn(100 * b + d - 4800 + m / 10, m + 3 - 12 * (m / 10))
  }

  lemma LeapAfter(b: int, d: int)
    requires 0 <= d <= 99
    ensures Leap(100 * b + d - 4799) <==> d % 4 == 3 && (d == 99 ==> b % 4 == 3)
  {
    LeapShift(100 * b + d + 1);
    FourHundred(b, d + 1);
  }

  lemma FourHundred(b: int, n: int)
    requires 1 <= n <= 100
    ensures (100 * b + n) % 4 == n % 4
    ensures (100 * b + n) % 100 == 0 <==> n == 100
    ensures n == 100 ==> ((100 * b + n) % 400 == 0 <==> (b + 1) % 4 == 0)
  {
    QuarterRemainder(b, n);
    if n == 100 {
      Centuries(b + 1);
      assert 100 * b + n == 100 * (b + 1);
    }
  }

  lemma QuarterRemainder(b: int, n: int)
    ensures (100 * b + n) % 4 == n % 4
  {
    assert 100 * b + n == 4 * (25 * b) + n;
  }

  lemma Centuries(b: int)
    ensures 100 * b % 400 == 100 * (b % 4) && 100 * b % 100 == 0
  {
    assert 100 * b == 400 * (b / 4) + 100 * (b % 4);
  }

  function FromParts(b: int, d: int, m: int, day: int): (int, int, int) {
    (100 * b + d - 4800 + m / 10, m + 3 - 12 * (m / 10), day)
  }

  lemma JulianOfParts(b: int, d: int, m: int, day: int)
    requires 0 <= b && 0 <= d <= 99 && 0 <= m <= 11
    ensures var (year, month, _) := FromParts(b, d, m, day);
      InRange(year, month) && JulianDate(year, month, day) == MarchDay(b, d, m, day) - 32044
  {
    var y := 100 * b + d;
    var (year, month, _) := FromParts(b, d, m, day);
    assert Quot(14 - month, 12) == m / 10;
    assert y / 4 == 25 * b + d / 4 && y / 100 == b && y / 400 == b / 4;
  }

  /** The last day of a leap February is the only one that can be day 365 of its March year. */
  lemma DayOfMarchYear(b: int, d: int, m: int, day: int)
    requires MarchValid(b, d, m, day)
    ensures var e := (153 * m + 2) / 5 + day - 1;
      && 0 <= e <= 365 && (5 * e + 2) / 153 == m
      && (e == 365 ==> d % 4 == 3 && (d == 99 ==> b % 4 == 3))
  {
    MonthFound(m, day);
    LeapAfter(b, d);
    hide Leap;
    assert m == 11 ==>
      DaysIn(100 * b + d - 4800 + m / 10, m + 3 - 12 * (m / 10)) == if Leap(100 * b + d - 4799) then 29 else 28;
  }

  lemma DayOfCentury(d: int, e: int, b: int)
    requires 0 <= d <= 99 && 0 <= e <= 365 && (e == 365 ==> d % 4 == 3 && (d == 99 ==> b % 4 == 3))
    ensures var c := 365 * d + d / 4 + e; 0 <= c && (c < 36524 || (c == 36524 && b % 4 == 3))
  {
  }

  lemma YmdOfParts(b: int, d: int, m: int, day: int)
    requires MarchValid(b, d, m, day)
    ensures GetYmd(MarchDay(b, d, m, day) - 32044) == FromParts(b, d, m, day)
  {
    DayOfMarchYear(b, d, m, day);
    hide Leap, DaysIn, GetYmd, Quot, FromParts;
    var e := (153 * m + 2) / 5 + day - 1;
    var c := 365 * d + d / 4 + e;
    YearFound(d, e);
    DayOfCentury(d, e, b);
    CenturyFound(b, c);
    YmdSteps(36524 * b + b / 4 + c, b, c, d, e, m);
  }

  lemma YmdSteps(a: int, b: int, c: int, d: int, e: int, m: int)
    requires a >= 0 && b >= 0 && c >= 0 && d >= 0 && e >= 0 && m >= 0
    requires (4 * a + 3) / 146097 == b && a - b * 146097 / 4 == c
    requires (4 * c + 3) / 1461 == d && c - 1461 * d / 4 == e
    requires (5 * e + 2) / 153 == m
    ensures GetYmd(a - 32044) == FromParts(b, d, m, e - (153 * m + 2) / 5 + 1)
  {
  }

  /** Every date from 1 March 4801 BC on is found again. */
  lemma YmdOfJulian(year: int, month: int, day: int)
    requires ValidDate(year, month, day) && InRange(year, month)
    ensures JulianDate(year, month, day) >= -32044
    ensures GetYmd(JulianDate(year, month, day)) == (year, month, day)
  {
    var y, m := if month >= 3 then year + 4800 else year + 4799, if month >= 3 then month - 3 else month + 9;
    var b, d := y / 100, y % 100;
    assert y == 100 * b + d && FromParts(b, d, m, day) == (year, month, day);
    hide JulianDate, GetYmd, MarchDay, Leap, DaysIn;
    assert MarchValid(b, d, m, day);
    YmdOfParts(b, d, m, day);
    JulianOfParts(b, d, m, day);
    NotBefore(b, d, m, day);
  }

  lemma NotBefore(b: int, d: int, m: int, day: int)
    requires 0 <= b && 0 <= d && 0 <= m && 1 <= day
    ensures MarchDay(b, d, m, day) >= 0
  {
  }

  /** Every day number from -32044 on is that of the date it is taken for. */
  lemma JulianOfYmd(jday: int)
    requires jday >= -32044
    ensures var (year, month, day) := GetYmd(jday);
      ValidDate(year, month, day) && InRange(year, month) && JulianDate(year, month, day) == jday
  {
    hide JulianDate, GetYmd, MarchDay, MarchValid, InRange, ValidDate, Quot;
    var b, d, m, day := Parts(jday + 32044);
    MarchRanges(b, d, m, day);
    assert jday == MarchDay(b, d, m, day) - 32044;
    PartsAreValid(b, d, m, day);
    YmdOfParts(b, d, m, day);
    JulianOfParts(b, d, m, day);
  }

  lemma MarchRanges(b: int, d: int, m: int, day: int)
    requires MarchValid(b, d, m, day)
    ensures 0 <= b && 0 <= d <= 99 && 0 <= m <= 11
  {
  }

  lemma PartsAreValid(b: int, d: int, m: int, day: int)
    requires MarchValid(b, d, m, day)
    ensures var (year, month, _) := FromParts(b, d, m, day); ValidDate(year, month, day)
  {
    hide Leap, DaysIn;
    assert 1 <= m + 3 - 12 * (m / 10) <= 12;
  }

  lemma Parts(a: int) returns (b: int, d: int, m: int, day: int)
    requires a >= 0
    ensures MarchValid(b, d, m, day) && MarchDay(b, d, m, day) == a
  {
    b := (4 * a + 3) / 146097;
    var c := a - b * 146097 / 4;
    CenturyBounds(a);
    d := (4 * c + 3) / 1461;
    var e := c - 1461 * d / 4;
    YearBounds(c);
    m := (5 * e + 2) / 153;
    day := e - (153 * m + 2) / 5 + 1;
    MonthBounds(e);
    LeapAfter(b, d);
    hide Leap;
    assert d == 99 && e == 365 ==> c == 36524;
  }

  lemma CenturyBounds(a: int)
    requires a >= 0
    ensures var b := (4 * a + 3) / 146097; var c := a - b * 146097 / 4;
      b >= 0 && 0 <= c <= 36524 && (c == 36524 ==> b % 4 == 3) && a == 36524 * b + b / 4 + c
  {
    var b := (4 * a + 3) / 146097;
    assert b * 146097 / 4 == 36524 * b + b / 4;
    assert 146097 * b <= 4 * a + 3 < 146097 * b + 146097;
  }

  lemma YearBounds(c: int)
    requires 0 <= c
    ensures var d := (4 * c + 3) / 1461; var e := c - 1461 * d / 4;
      d >= 0 && 0 <= e <= 365 && (e == 365 ==> d % 4 == 3) && c == 365 * d + d / 4 + e
  {
    var d := (4 * c + 3) / 1461;
    assert 1461 * d / 4 == 365 * d + d / 4;
    assert 1461 * d <= 4 * c + 3 < 1461 * d + 1461;
  }

  lemma MonthBounds(e: int)
    requires 0 <= e <= 365
    ensures var m := (5 * e + 2) / 153; var day := e - (153 * m + 2) / 5 + 1;
      && 0 <= m <= 11 && 1 <= day <= 31
      && (m == 1 || m == 3 || m == 6 || m == 8 ==> day <= 30)
      && (m == 11 ==> day <= if e == 365 then 29 else 28)
  {
  }

  // ----- max_day_in_month_for and the loop that carries days

  /** `max_day_in_month_for`. */
  function MaxDayInMonthFor(year: int, month: int): (n: int)
    ensures 28 <= n <= 31
  {
    var tmpMonth := Rem(month - 1, 12) + 1;
    var tmpYear := year + Quot(tmpMonth - 1, 12);
    if tmpMonth == 1 || tmpMonth == 3 || tmpMonth == 5 || tmpMonth == 7 || tmpMonth == 8 || tmpMonth == 10
       || tmpMonth == 12 then 31
    else if tmpMonth == 4 || tmpMonth == 6 || tmpMonth == 9 || tmpMonth == 11 then 30
    else if tmpMonth == 2 && (Rem(tmpYear, 400) == 0 || (Rem(tmpYear, 100) != 0 && Rem(tmpYear, 4) == 0)) then 29
    else 28
  }

  lemma RemZero(a: int)
    ensures Rem(a, 4) == 0 <==> a % 4 == 0
    ensures Rem(a, 100) == 0 <==> a % 100 == 0
    ensures Rem(a, 400) == 0 <==> a % 400 == 0
  {
  }

  lemma FourDivides(a: int)
    ensures a % 400 == 0 ==> a % 4 == 0
  {
    if a % 400 == 0 {
      assert a == 4 * (100 * (a / 400));
    }
  }

  /** The two tests of leap years agree, for years before 0 as well. */
  lemma LeapByRem(year: int)
    ensures Leap(year) <==> Rem(year, 400) == 0 || (Rem(year, 100) != 0 && Rem(year, 4) == 0)
  {
    RemZero(year);
    hide Rem;
    FourDivides(year);
  }

  /** The month is counted with its true length: months 1 to 12 are; of the months 0 down to -10,
      which stand for December to February of the year before, only a February of 28 days is; and
      -11, which stands for January of the year before, is. */
  predicate TrueLength(year: int, month: int) {
    month >= 1 || (month == -10 && !Leap(year - 1)) || month == -11
  }

  lemma LengthExact(year: int, month: int)
    requires -11 <= month <= 12
    ensures MaxDayInMonthFor(year, month) <= Days(MonthNumber(year, month))
    ensures MaxDayInMonthFor(year, month) == Days(MonthNumber(year, month)) <==> TrueLength(year, month)
    ensures !TrueLength(year, month) ==> MaxDayInMonthFor(year, month) == 28
  {
    var k := MonthNumber(year, month);
    LeapByRem(year);
    hide Leap;
    if month >= 1 {
      assert k / 12 == year && k % 12 == month - 1;
    } else {
      assert k / 12 == year - 1 && k % 12 == month + 11;
    }
  }

  /** The code's step from a month to the next or the previous one: `Rem(month - 1, 12) + 1` with the
      matching year. */
  lemma MonthCarry(year: int, tmpMonth: int)
    ensures var m, y := Rem(tmpMonth - 1, 12) + 1, year + Quot(tmpMonth - 1, 12);
      -10 <= m <= 12 && MonthNumber(y, m) == MonthNumber(year, tmpMonth) && (tmpMonth >= 1 ==> m >= 1)
  {
    RemBounds(tmpMonth - 1, 12);
  }

  lemma SameLength(year: int, month: int)
    requires -11 <= month <= 12
    ensures MaxDayInMonthFor(year, month) == MaxDayInMonthFor(year + Quot(month - 1, 12), Rem(month - 1, 12) + 1)
  {
    hide Leap;
    if month >= -10 {
      assert Quot(month - 1, 12) == 0 && Rem(month - 1, 12) + 1 == month;
    }
  }

  /** Going from month `start` to the day `target`, the loop passes month `k`: backwards, when the day
      is before its end; forwards, when the day is after its 28th. */
  predicate Passed(start: int, target: int, k: int) {
    (k < start && target < MonthStart(k + 1)) || (start <= k && MonthStart(k) + 28 <= target)
  }

  /** Month number `k` has its true length when the loop starts in `year`. */
  predicate Honest(year: int, k: int) {
    k >= 12 * year || (k == 12 * year - 11 && !Leap(year - 1)) || k == 12 * year - 12
  }

  ghost predicate PassesHonestly(year: int, start: int, target: int) {
    forall k :: Passed(start, target, k) ==> Honest(year, k)
  }

  /** From a month of the year itself, the loop passes months of wrong length exactly if it goes back
      over 1 January. */
  lemma HonestWithinYear(year: int, month: int, target: int)
    requires 1 <= month <= 12
    ensures PassesHonestly(year, MonthNumber(year, month), target) <==> MonthStart(12 * year) <= target
  {
    var start := MonthNumber(year, month);
    if MonthStart(12 * year) <= target {
      forall k | Passed(start, target, k) ensures Honest(year, k) {
        if k < 12 * year {
          MonthsInOrder(k + 1, 12 * year);
          assert false;
        }
      }
    } else {
      assert Passed(start, target, 12 * year - 1);
      assert !Honest(year, 12 * year - 1);
    }
  }

  function Counted(year: int, month: int, day: int): int {
    MonthStart(MonthNumber(year, month)) + day - 1
  }

  /** On the way back, at month number `k` and day `v`: `exact` while every month passed was honest,
      else `bad` was not. */
  ghost predicate BackAt(year: int, start: int, target: int, k: int, v: int, near: bool, exact: bool, bad: int) {
    && k <= start && target < MonthStart(start)
    && if exact then v == target && near && forall j :: k <= j < start ==> Honest(year, j)
       else v < target && Passed(start, target, bad) && !Honest(year, bad)
  }

  ghost predicate Back(year: int, start: int, target: int, y: int, m: int, d: int, exact: bool, bad: int) {
    && -10 <= m <= 12
    && BackAt(year, start, target, MonthNumber(y, m), Counted(y, m, d),
              y == year || (y == year - 1 && m == 1), exact, bad)
  }

  lemma BackAtStep(year: int, start: int, target: int, k: int, v: int, near: bool, exact: bool, bad: int,
                   gap: nat, near': bool) returns (exact': bool, bad': int)
    requires BackAt(year, start, target, k, v, near, exact, bad) && v < MonthStart(k)
    requires exact ==> (gap == 0 <==> Honest(year, k - 1)) && (Honest(year, k - 1) ==> near')
    ensures BackAt(year, start, target, k - 1, v - gap, near', exact', bad')
  {
    hide Honest, MonthStart;
    exact', bad' := exact && Honest(year, k - 1), if exact then k - 1 else bad;
    assert exact ==> Passed(start, target, k - 1);
  }

  ghost predicate ForthAt(year: int, start: int, target: int, k: int, v: int, near: bool, exact: bool, bad: int) {
    && start <= k && MonthStart(start) <= target
    && if exact then v == target && near && forall j :: start <= j < k ==> Honest(year, j)
       else v > target && Passed(start, target, bad) && !Honest(year, bad)
  }

  ghost predicate Forth(year: int, start: int, target: int, y: int, m: int, d: int, exact: bool, bad: int) {
    && -10 <= m <= 12
    && ForthAt(year, start, target, MonthNumber(y, m), Counted(y, m, d), y == year || (y > year && m >= 1), exact, bad)
  }

  lemma ForthAtStep(year: int, start: int, target: int, k: int, v: int, near: bool, exact: bool, bad: int,
                    gap: nat, near': bool) returns (exact': bool, bad': int)
    requires ForthAt(year, start, target, k, v, near, exact, bad) && MonthStart(k) + 28 <= v
    requires exact ==> (gap == 0 <==> Honest(year, k)) && near'
    ensures ForthAt(year, start, target, k + 1, v + gap, near', exact', bad')
  {
    hide Honest, MonthStart;
    exact', bad' := exact && Honest(year, k), if exact then k else bad;
    assert exact ==> Passed(start, target, k);
  }

  /** What a step back does to the month number and the day, and how much it is off. */
  lemma CountedBack(y: int, m: int, d: int) returns (gap: nat)
    requires -10 <= m <= 12
    ensures var y', m', d' := y + Quot(m - 2, 12), Rem(m - 2, 12) + 1, d + MaxDayInMonthFor(y, m - 1);
      && -10 <= m' <= 12 && MonthNumber(y', m') == MonthNumber(y, m) - 1
      && Counted(y', m', d') == Counted(y, m, d) - gap
    ensures gap == 0 <==> TrueLength(y, m - 1)
    ensures d < 1 ==> Counted(y, m, d) < MonthStart(MonthNumber(y, m))
  {
    MonthCarry(y, m - 1);
    LengthExact(y, m - 1);
    NextMonth(MonthNumber(y, m) - 1);
    hide Leap, Days, MaxDayInMonthFor, MonthStart, TrueLength, Quot, Rem;
    assert MonthNumber(y, m - 1) == MonthNumber(y, m) - 1;
    gap := Days(MonthNumber(y, m) - 1) - MaxDayInMonthFor(y, m - 1);
  }

  lemma StepBack(year: int, start: int, target: int, y: int, m: int, d: int, exact: bool, bad: int)
    returns (exact': bool, bad': int)
    requires Back(year, start, target, y, m, d, exact, bad) && d < 1
    ensures var y', m' := y + Quot(m - 2, 12), Rem(m - 2, 12) + 1;
      Back(year, start, target, y', m', d + MaxDayInMonthFor(y, m - 1), exact', bad')
  {
    HonestBack(year, y, m);
    var gap := CountedBack(y, m, d);
    BackIsNear(year, start, target, y, m, d, exact, bad);
    hide Leap, MaxDayInMonthFor, MonthStart, MonthNumber, Counted, Honest, TrueLength, Quot, Rem, BackAt;
    var y', m' := y + Quot(m - 2, 12), Rem(m - 2, 12) + 1;
    exact', bad' := BackAtStep(year, start, target, MonthNumber(y, m), Counted(y, m, d),
      y == year || (y == year - 1 && m == 1), exact, bad, gap, y' == year || (y' == year - 1 && m' == 1));
  }

  lemma BackIsNear(year: int, start: int, target: int, y: int, m: int, d: int, exact: bool, bad: int)
    requires Back(year, start, target, y, m, d, exact, bad)
    ensures exact ==> y == year || (y == year - 1 && m == 1)
  {
  }

  lemma HonestBack(year: int, y: int, m: int)
    requires -10 <= m <= 12
    ensures var y', m' := y + Quot(m - 2, 12), Rem(m - 2, 12) + 1;
      y == year || (y == year - 1 && m == 1) ==>
        && (TrueLength(y, m - 1) <==> Honest(year, MonthNumber(y, m) - 1))
        && (TrueLength(y, m - 1) ==> y' == year || (y' == year - 1 && m' == 1))
  {
    hide Leap;
    assert Quot(m - 2, 12) == if m == -10 then -1 else 0;
  }

  /** What a step forward does, and how much it is off. */
  lemma CountedForth(y: int, m: int, d: int) returns (gap: nat)
    requires -10 <= m <= 12
    ensures var y', m', d' := y + Quot(m, 12), Rem(m, 12) + 1, d - MaxDayInMonthFor(y, m);
      && -10 <= m' <= 12 && MonthNumber(y', m') == MonthNumber(y, m) + 1
      && Counted(y', m', d') == Counted(y, m, d) + gap
    ensures gap == 0 <==> TrueLength(y, m)
    ensures d > MaxDayInMonthFor(y, m) ==> MonthStart(MonthNumber(y, m)) + 28 <= Counted(y, m, d)
  {
    MonthCarry(y, m + 1);
    LengthExact(y, m);
    NextMonth(MonthNumber(y, m));
    hide Leap, Days, MaxDayInMonthFor, MonthStart, TrueLength, Quot, Rem;
    gap := Days(MonthNumber(y, m)) - MaxDayInMonthFor(y, m);
  }

  lemma HonestForth(year: int, y: int, m: int)
    requires -10 <= m <= 12 && (y == year || (y > year && m >= 1))
    ensures TrueLength(y, m) <==> Honest(year, MonthNumber(y, m))
    ensures var y', m' := y + Quot(m, 12), Rem(m, 12) + 1; y' == year || (y' > year && m' >= 1)
  {
    hide Leap;
    assert Quot(m, 12) == if m == 12 then 1 else 0;
  }

  lemma StepForth(year: int, start: int, target: int, y: int, m: int, d: int, exact: bool, bad: int)
    returns (exact': bool, bad': int)
    requires Forth(year, start, target, y, m, d, exact, bad) && d > MaxDayInMonthFor(y, m)
    ensures var y', m' := y + Quot(m, 12), Rem(m, 12) + 1;
      Forth(year, start, target, y', m', d - MaxDayInMonthFor(y, m), exact', bad')
  {
    ForthIsNear(year, start, target, y, m, d, exact, bad);
    if exact {
      HonestForth(year, y, m);
    }
    var gap := CountedForth(y, m, d);
    hide Leap, MaxDayInMonthFor, MonthStart, MonthNumber, Counted, Honest, TrueLength, Quot, Rem, ForthAt;
    var y', m' := y + Quot(m, 12), Rem(m, 12) + 1;
    exact', bad' := ForthAtStep(year, start, target, MonthNumber(y, m), Counted(y, m, d),
      y == year || (y > year && m >= 1), exact, bad, gap, y' == year || (y' > year && m' >= 1));
  }

  lemma ForthIsNear(year: int, start: int, target: int, y: int, m: int, d: int, exact: bool, bad: int)
    requires Forth(year, start, target, y, m, d, exact, bad)
    ensures exact ==> y == year || (y > year && m >= 1)
  {
  }

  lemma BackDone(year: int, start: int, target: int, y: int, m: int, d: int, exact: bool, bad: int)
    requires Back(year, start, target, y, m, d, exact, bad) && 1 <= d <= MaxDayInMonthFor(y, m)
    ensures Counted(y, m, d) == target <==> PassesHonestly(year, start, target)
    ensures Counted(y, m, d) <= target
  {
    hide MaxDayInMonthFor, MonthStart, Days, Leap;
    if exact {
      var k := MonthNumber(y, m);
      forall j | Passed(start, target, j) ensures Honest(year, j) {
        if j < k {
          MonthsInOrder(j + 1, k);
        } else if j >= start {
          MonthsInOrder(start, j);
        }
      }
    }
  }

  lemma HonestHere(year: int, y: int, m: int)
    requires -10 <= m <= 12 && (y == year || (y > year && m >= 1))
    ensures TrueLength(y, m) <==> Honest(year, MonthNumber(y, m))
  {
  }

  lemma ForthDone(year: int, start: int, target: int, y: int, m: int, d: int, exact: bool, bad: int)
    requires Forth(year, start, target, y, m, d, exact, bad) && 1 <= d <= MaxDayInMonthFor(y, m)
    ensures Counted(y, m, d) == target <==> PassesHonestly(year, start, target)
    ensures target <= Counted(y, m, d)
  {
    if exact {
      var k := MonthNumber(y, m);
      LengthExact(y, m);
      NextMonth(k);
      HonestHere(year, y, m);
      hide MaxDayInMonthFor, MonthStart, Days, Leap, Honest, TrueLength;
      forall j | Passed(start, target, j) ensures Honest(year, j) {
        if j > k {
          MonthsInOrder(k + 1, j);
        } else if j < start {
          MonthsInOrder(j + 1, start);
        }
      }
    }
  }

  /** Where the loop of `add_duration_date_time` ends: a day before the first is counted from the end of
      the month before, one after the last from the start of the month after. */
  function Carry(year: int, month: int, day: int): (int, int, int)
    decreases if day < 1 then 100 - day else day
  {
    if day < 1 then
      Carry(year + Quot(month - 2, 12), Rem(month - 2, 12) + 1, day + MaxDayInMonthFor(year, month - 1))
    else if day > MaxDayInMonthFor(year, month) then
      Carry(year + Quot(month, 12), Rem(month, 12) + 1, day - MaxDayInMonthFor(year, month))
    else (year, month, day)
  }

  /** The day number on which the loop ends. */
  function CarriedTo(year: int, month: int, day: int): int {
    var (y, m, d) := Carry(year, month, day);
    Counted(y, m, d)
  }

  /** The loop of `add_duration_date_time`. */
  method CarryDays(year: int, month: int, day: int) returns (eYear: int, eMonth: int, eDay: int)
    ensures (eYear, eMonth, eDay) == Carry(year, month, day)
  {
    hide MaxDayInMonthFor, Rem, Quot;
    eYear, eMonth, eDay := year, month, day;
    var carryDay := 0;
    while true
      invariant Carry(eYear, eMonth, eDay) == Carry(year, month, day)
      decreases if eDay < 1 then 100 - eDay else eDay
    {
      if eDay < 1 {
        eDay := eDay + MaxDayInMonthFor(eYear, eMonth - 1);
        carryDay := -1;
      } else {
        if eDay > MaxDayInMonthFor(eYear, eMonth) {
          eDay := eDay - MaxDayInMonthFor(eYear, eMonth);
          carryDay := 1;
        } else {
          break;
        }
      }
      var tmpMonth := eMonth + carryDay;
      eMonth := Rem(tmpMonth - 1, 12) + 1;
      eYear := eYear + Quot(tmpMonth - 1, 12);
    }
  }

  lemma {:induction false} CarryBack(year: int, start: int, target: int, y: int, m: int, d: int, exact: bool, bad: int)
    requires Back(year, start, target, y, m, d, exact, bad) && d <= MaxDayInMonthFor(y, m)
    ensures CarriedTo(y, m, d) == target <==> PassesHonestly(year, start, target)
    ensures CarriedTo(y, m, d) <= target
    decreases 100 - d
  {
    hide MonthStart, MaxDayInMonthFor, Counted, Rem, Quot, Back, PassesHonestly;
    Bounds(year, start, target, y, m, d, exact, bad);
    if d < 1 {
      var exact', bad' := StepBack(year, start, target, y, m, d, exact, bad);
      SameLength(y, m - 1);
      var len := MaxDayInMonthFor(y, m - 1);
      CarryBack(year, start, target, y + Quot(m - 2, 12), Rem(m - 2, 12) + 1, d + len, exact', bad');
    } else {
      BackDone(year, start, target, y, m, d, exact, bad);
    }
  }

  lemma {:induction false} CarryForth(year: int, start: int, target: int, y: int, m: int, d: int, exact: bool, bad: int)
    requires Forth(year, start, target, y, m, d, exact, bad) && d >= 1
    ensures CarriedTo(y, m, d) == target <==> PassesHonestly(year, start, target)
    ensures CarriedTo(y, m, d) >= target
    decreases d
  {
    hide MonthStart, MaxDayInMonthFor, Counted, Rem, Quot, Forth, PassesHonestly;
    if d > MaxDayInMonthFor(y, m) {
      var exact', bad' := StepForth(year, start, target, y, m, d, exact, bad);
      CarryForth(year, start, target, y + Quot(m, 12), Rem(m, 12) + 1, d - MaxDayInMonthFor(y, m), exact', bad');
    } else {
      ForthDone(year, start, target, y, m, d, exact, bad);
    }
  }

  /** The loop ends on the day it is given exactly if it passes no month of wrong length on the way
      there; otherwise it has gone too far. */
  lemma CarryExact(year: int, month: int, day: int)
    requires -10 <= month <= 12
    ensures CarriedTo(year, month, day) == Counted(year, month, day)
            <==> PassesHonestly(year, MonthNumber(year, month), Counted(year, month, day))
    ensures if day < 1 then CarriedTo(year, month, day) <= Counted(year, month, day)
            else CarriedTo(year, month, day) >= Counted(year, month, day)
  {
    StartOut(year, month, day);
    hide CarriedTo, Counted, Back, Forth, MonthStart, PassesHonestly;
    if day < 1 {
      CarryBack(year, MonthNumber(year, month), Counted(year, month, day), year, month, day, true, 0);
    } else {
      CarryForth(year, MonthNumber(year, month), Counted(year, month, day), year, month, day, true, 0);
    }
  }

  /** The loop ends on a day of its month, as the code counts them. */
  lemma {:induction false} CarryEnds(year: int, month: int, day: int)
    requires -10 <= month <= 12
    ensures var (y, m, d) := Carry(year, month, day); -10 <= m <= 12 && 1 <= d <= MaxDayInMonthFor(y, m)
    decreases if day < 1 then 100 - day else day
  {
    hide MaxDayInMonthFor, Rem, Quot;
    MonthCarry(year, month - 1);
    MonthCarry(year, month + 1);
    if day < 1 {
      CarryEnds(year + Quot(month - 2, 12), Rem(month - 2, 12) + 1, day + MaxDayInMonthFor(year, month - 1));
    } else if day > MaxDayInMonthFor(year, month) {
      CarryEnds(year + Quot(month, 12), Rem(month, 12) + 1, day - MaxDayInMonthFor(year, month));
    }
  }

  lemma StartOut(year: int, month: int, day: int)
    requires -10 <= month <= 12
    ensures day < 1 ==> Back(year, MonthNumber(year, month), Counted(year, month, day), year, month, day, true, 0)
    ensures day >= 1 ==> Forth(year, MonthNumber(year, month), Counted(year, month, day), year, month, day, true, 0)
  {
  }

  lemma Bounds(year: int, start: int, target: int, y: int, m: int, d: int, exact: bool, bad: int)
    ensures Back(year, start, target, y, m, d, exact, bad) || Forth(year, start, target, y, m, d, exact, bad)
            ==> -10 <= m <= 12
  {
  }

  /** The day before 1 January 1970 is asked for: month 0 counts 28 days, and the loop ends on
      28 December 1969. */
  lemma NewYearExample()
    ensures MaxDayInMonthFor(1970, 0) == 28 && 1 <= 0 + 28 <= MaxDayInMonthFor(1970, 0)
    ensures JulianDate(1970, 0, 28) == JulianDate(1969, 12, 28) == JulianDate(1969, 12, 31) - 3
    ensures JulianDate(1969, 12, 31) == Counted(1970, 1, 0)
    ensures !PassesHonestly(1970, MonthNumber(1970, 1), Counted(1970, 1, 0))
  {
    JulianDateCounts(1970, 1, 0);
    HonestWithinYear(1970, 1, Counted(1970, 1, 0));
  }
}
