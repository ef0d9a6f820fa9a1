/** deps/common/time/datetime.h and datetime.cpp: the DateTime class. */
module DateTimes {
  import opened Calendar

  const SECONDS_PER_DAY := 86400
  const MILLIS_PER_DAY := 86400000
  const JULIAN_19700101 := 2440588

  datatype Hms = Hms(hour: int, minute: int, second: int, millis: int)

  /** `get_hms` of a time in milliseconds. */
  function GetHms(time: int): Hms {
    var ticks := Quot(time, 1000);
    Hms(Quot(ticks, 3600), Rem(Quot(ticks, 60), 60), Rem(ticks, 60), Rem(time, 1000))
  }

  function MakeHms(hour: int, minute: int, second: int, millis: int): int {
    1000 * (3600 * hour + 60 * minute + second) + millis
  }

  predicate ClockTime(h: Hms) {
    0 <= h.hour < 24 && 0 <= h.minute < 60 && 0 <= h.second < 60 && 0 <= h.millis < 1000
  }

  /** The split into hours, minutes, seconds and milliseconds loses nothing, for negative times
      neither, and it is the only split of a time of day into a clock time. */
  lemma HmsRoundTrip(time: int, h: Hms)
    ensures var g := GetHms(time); MakeHms(g.hour, g.minute, g.second, g.millis) == time
    ensures 0 <= time < MILLIS_PER_DAY ==> ClockTime(GetHms(time))
    ensures ClockTime(h) && MakeHms(h.hour, h.minute, h.second, h.millis) == time
            ==> 0 <= time < MILLIS_PER_DAY && GetHms(time) == h
  {
    TicksSplit(time);
    if ClockTime(h) && MakeHms(h.hour, h.minute, h.second, h.millis) == time {
      ClockIsFound(time, h);
    }
  }

  lemma TicksSplit(time: int)
    ensures var g := GetHms(time); MakeHms(g.hour, g.minute, g.second, g.millis) == time
    ensures 0 <= time < MILLIS_PER_DAY ==> ClockTime(GetHms(time))
  {
    var ticks := Quot(time, 1000);
    var minutes := Quot(ticks, 60);
    RemBounds(time, 1000);
    RemBounds(ticks, 60);
    RemBounds(minutes, 60);
    HoursOfTicks(ticks);
    hide Rem;
  }

  lemma HoursOfTicks(ticks: int)
    ensures Quot(ticks, 3600) == Quot(Quot(ticks, 60), 60)
  {
  }

  lemma ClockIsFound(time: int, h: Hms)
    requires ClockTime(h) && MakeHms(h.hour, h.minute, h.second, h.millis) == time
    ensures 0 <= time < MILLIS_PER_DAY && GetHms(time) == h
  {
    var ticks := 3600 * h.hour + 60 * h.minute + h.second;
    assert time / 1000 == ticks && time % 1000 == h.millis;
    assert ticks / 60 == 60 * h.hour + h.minute && ticks % 60 == h.second;
    assert ticks / 3600 == h.hour;
  }

  /** The fields of the `tm` that `parse_duration` fills in. */
  datatype Duration = Duration(years: int, months: int, days: int, hours: int, minutes: int, seconds: int)

  predicate NonNegative(d: Duration) {
    d.years >= 0 && d.months >= 0 && d.days >= 0 && d.hours >= 0 && d.minutes >= 0 && d.seconds >= 0
  }

  function Clamp(day: int, limit: int): int {
    if day > limit then limit else if day < 1 then 1 else day
  }

  /** The day from 1 to the limit that is nearest to `day`. */
  lemma ClampIsNearest(day: int, limit: int, x: int)
    requires 1 <= x <= limit
    ensures 1 <= Clamp(day, limit) <= limit
    ensures if day <= Clamp(day, limit) then Clamp(day, limit) - day <= if x > day then x - day else day - x
            else day - Clamp(day, limit) <= if x > day then x - day else day - x
  {
  }

  /** Whole seconds of the time of day, with the clock part of a duration added. */
  function ClockTotal(time: int, dur: Duration): int {
    Quot(time, 1000) + 3600 * dur.hours + 60 * dur.minutes + dur.seconds
  }

  function DayOf(date: int): int {
    GetYmd(date).2
  }

  /** The month asked for: years and months are added to the year and month of the date. */
  function MonthAsked(date: int, dur: Duration): int {
    var (year, month, _) := GetYmd(date);
    MonthNumber(year + dur.years, month + dur.months)
  }

  /** The year and the month of the year in which the code starts to count days. */
  function YearAsked(date: int, dur: Duration): int {
    var (year, month, _) := GetYmd(date);
    year + dur.years + Quot(month + dur.months - 1, 12)
  }

  function MonthOfYear(date: int, dur: Duration): int {
    Rem(GetYmd(date).1 + dur.months - 1, 12) + 1
  }

  /** The day asked for: in the month asked for, the day of the month, cut to the length of that month,
      plus the days of the duration and those its clock part carries over. */
  function DayAsked(date: int, dur: Duration, carried: int): int {
    var m := MonthAsked(date, dur);
    MonthStart(m) + Clamp(DayOf(date), Days(m)) + dur.days + carried - 1
  }

  /** The date that the code comes to. */
  function DateReached(date: int, dur: Duration, carried: int): (int, int, int) {
    var y, m := YearAsked(date, dur), MonthOfYear(date, dur);
    Carry(y, m, Clamp(DayOf(date), MaxDayInMonthFor(y, m)) + dur.days + carried)
  }

  function DayReached(date: int, dur: Duration, carried: int): int {
    var (y, m, d) := DateReached(date, dur, carried);
    Counted(y, m, d)
  }

  /** When the code comes to the day asked for. In general: when it passes no month of wrong length. But if
      the day of the month is cut to 28 although the month asked for is longer, the date is too early,
      unless that month is then passed as if it had 28 days, which makes up for it when the day had to be
      cut to its last one at least. */
  ghost predicate ComesRight(date: int, dur: Duration, target: int) {
    var year, m := YearAsked(date, dur), MonthAsked(date, dur);
    if Honest(year, m) || DayOf(date) <= 28 then PassesHonestly(year, m, target)
    else Days(m) <= DayOf(date) && MonthStart(m + 1) <= target && PassesHonestly(year, m + 1, target)
  }

  /** For every date and duration. */
  lemma ReachedIffRight(date: int, dur: Duration, carried: int)
    ensures DayReached(date, dur, carried) == DayAsked(date, dur, carried)
            <==> ComesRight(date, dur, DayAsked(date, dur, carried))
  {
    var year, m, month := YearAsked(date, dur), MonthAsked(date, dur), MonthOfYear(date, dur);
    var (sYear, sMonth, day) := GetYmd(date);
    MonthCarry(sYear + dur.years, sMonth + dur.months);
    var rest := dur.days + carried;
    hide GetYmd, Quot, Rem, MaxDayInMonthFor, MonthStart, Days, Honest, PassesHonestly, Carry;
    if Honest(year, m) || day <= 28 {
      NotCut(year, month, day);
      CarryExact(year, month, Clamp(day, MaxDayInMonthFor(year, month)) + rest);
    } else {
      CutTooEarly(year, month, day, rest);
      assert Clamp(day, MaxDayInMonthFor(year, month)) == 28;
    }
  }

  lemma NotCut(year: int, month: int, day: int)
    requires -10 <= month <= 12 && (Honest(year, MonthNumber(year, month)) || day <= 28)
    ensures Clamp(day, MaxDayInMonthFor(year, month)) == Clamp(day, Days(MonthNumber(year, month)))
  {
    LengthExact(year, month);
    HonestHere(year, year, month);
  }

  /** The day of the month was cut to 28 in a longer month. */
  lemma CutTooEarly(year: int, month: int, day: int, rest: int)
    requires -10 <= month <= 12 && day > 28 && !Honest(year, MonthNumber(year, month))
    ensures MaxDayInMonthFor(year, month) == 28
    ensures var m := MonthNumber(year, month);
      var target := MonthStart(m) + Clamp(day, Days(m)) + rest - 1;
      CarriedTo(year, month, 28 + rest) == target
      <==> Days(m) <= day && MonthStart(m + 1) <= target && PassesHonestly(year, m + 1, target)
  {
    WrongLength(year, month);
    if rest >= 1 {
      CutAndPassed(year, month, day, rest);
    } else {
      CarryExact(year, month, 28 + rest);
      hide MaxDayInMonthFor, MonthStart, Days, Honest, PassesHonestly, Carry;
      if rest > -28 {
        Stays(year, month, 28 + rest);
      }
    }
  }

  /** The month is passed as if it had 28 days. */
  lemma CutAndPassed(year: int, month: int, day: int, rest: int)
    requires -10 <= month <= 0 && day > 28 && rest >= 1 && MaxDayInMonthFor(year, month) == 28
    requires var m := MonthNumber(year, month); 28 < Days(m) && MonthStart(m + 1) == MonthStart(m) + Days(m)
    ensures var m := MonthNumber(year, month);
      var target := MonthStart(m) + Clamp(day, Days(m)) + rest - 1;
      CarriedTo(year, month, 28 + rest) == target
      <==> Days(m) <= day && MonthStart(m + 1) <= target && PassesHonestly(year, m + 1, target)
  {
    var m, over := MonthNumber(year, month), Counted(year, month + 1, rest);
    PastTheCut(year, month, rest);
    CarryExact(year, month + 1, rest);
    assert over == MonthStart(m + 1) + rest - 1 && MonthNumber(year, month + 1) == m + 1;
    var reached := CarriedTo(year, month, 28 + rest);
    assert reached == CarriedTo(year, month + 1, rest) >= over;
    assert reached == over <==> PassesHonestly(year, m + 1, over);
    hide MaxDayInMonthFor, MonthStart, Days, Honest, PassesHonestly, Carry, CarriedTo, Counted, MonthNumber;
  }

  lemma WrongLength(year: int, month: int)
    requires -10 <= month <= 12 && !Honest(year, MonthNumber(year, month))
    ensures var m := MonthNumber(year, month);
      month <= 0 && MaxDayInMonthFor(year, month) == 28 < Days(m) && MonthStart(m + 1) == MonthStart(m) + Days(m)
  {
    LengthExact(year, month);
    HonestHere(year, year, month);
    NextMonth(MonthNumber(year, month));
  }

  lemma PastTheCut(year: int, month: int, rest: int)
    requires -10 <= month <= 0 && MaxDayInMonthFor(year, month) == 28 && rest >= 1
    ensures Carry(year, month, 28 + rest) == Carry(year, month + 1, rest)
  {
    Within(month);
    hide MaxDayInMonthFor, Quot, Rem;
  }

  lemma Stays(year: int, month: int, day: int)
    requires 1 <= day <= 28
    ensures Carry(year, month, day) == (year, month, day)
  {
    hide Quot, Rem;
  }

  /** From a date on or after 1 March 4801 BC, a duration without negative parts asks for a later day, and
      no month of wrong length lies on the way. */
  lemma NothingNegative(date: int, dur: Duration, carried: int)
    requires date >= -32044 && NonNegative(dur) && carried >= 0
    ensures DayReached(date, dur, carried) == DayAsked(date, dur, carried) >= -32044
  {
    JulianOfYmd(date);
    ReachedIffRight(date, dur, carried);
    var (year, month, day) := GetYmd(date);
    MonthCarry(year + dur.years, month + dur.months);
    var m := MonthOfYear(date, dur);
    hide GetYmd, JulianDate, Rem, Quot, MonthStart, MaxDayInMonthFor, Days, Carry;
    HonestWithinYear(YearAsked(date, dur), m, DayAsked(date, dur, carried));
    MonthsInOrder(12 * YearAsked(date, dur), MonthAsked(date, dur));
    JulianDateCounts(year, month, day);
    FirstMonth(year, month);
    MonthsInOrder(-57598, MonthAsked(date, dur));
  }

  /** From 31 March some months back, still in that year as the code counts. */
  lemma FromMarch31(year: int, date: int, dur: Duration)
    requires GetYmd(date) == (year, 3, 31) && -13 <= dur.months <= -3 && dur.years == 0
    ensures DayOf(date) == 31 && YearAsked(date, dur) == year
    ensures MonthOfYear(date, dur) == 3 + dur.months && MonthAsked(date, dur) == 12 * year + 2 + dur.months
  {
    Within(dur.months + 2);
    hide Quot, Rem, GetYmd;
  }

  lemma Within(months: int)
    requires -12 < months < 12
    ensures Quot(months, 12) == 0 && Rem(months, 12) == months
  {
  }

  /** 31 March of any year and four months back: the code gives 28 November, a month of 30 days, without
      passing any month. */
  lemma CutExample(year: int, date: int)
    requires GetYmd(date) == (year, 3, 31)
    ensures var back := Duration(0, -4, 0, 0, 0, 0);
      && DayAsked(date, back, 0) == Counted(year - 1, 11, 30)
      && DateReached(date, back, 0) == (year, -1, 28) && DayReached(date, back, 0) == Counted(year - 1, 11, 28)
  {
    FromMarch31(year, date, Duration(0, -4, 0, 0, 0, 0));
    LengthExact(year, -1);
    assert Days(12 * year - 2) == 30;
    hide GetYmd, YearAsked, MonthAsked, MonthOfYear, DayOf, MonthStart, Days, MaxDayInMonthFor, Quot, Rem;
  }

  /** 31 March of any year, three months back and five days forward: December is passed with 28 days, and
      that makes up for cutting the day to 28. */
  lemma MadeUpExample(year: int, date: int)
    requires GetYmd(date) == (year, 3, 31)
    ensures var dur := Duration(0, -3, 5, 0, 0, 0);
      DayAsked(date, dur, 0) == Counted(year, 1, 5) == DayReached(date, dur, 0)
  {
    MadeUpAsked(year, date, Duration(0, -3, 5, 0, 0, 0));
    MadeUpReached(year, date, Duration(0, -3, 5, 0, 0, 0));
    hide DayAsked, DateReached;
  }

  lemma MadeUpAsked(year: int, date: int, dur: Duration)
    requires GetYmd(date) == (year, 3, 31) && dur == Duration(0, -3, 5, 0, 0, 0)
    ensures DayAsked(date, dur, 0) == Counted(year, 1, 5)
  {
    FromMarch31(year, date, dur);
    assert Days(12 * year - 1) == 31;
    NextMonth(12 * year - 1);
    hide GetYmd, MonthAsked, DayOf, MonthStart, Days;
  }

  lemma MadeUpReached(year: int, date: int, dur: Duration)
    requires GetYmd(date) == (year, 3, 31) && dur == Duration(0, -3, 5, 0, 0, 0)
    ensures DateReached(date, dur, 0) == (year, 1, 5)
  {
    FromMarch31(year, date, dur);
    LengthExact(year, 0);
    PastTheCut(year, 0, 5);
    Stays(year, 1, 5);
    hide GetYmd, YearAsked, MonthOfYear, DayOf, MaxDayInMonthFor, Carry;
  }

  /** March of the year -4800 starts on day -32044. */
  lemma FirstMonth(year: int, month: int)
    ensures MonthStart(-57598) == -32044
    ensures InRange(year, month) ==> MonthNumber(year, month) >= -57598
  {
    MarchIsMonthStart(0, 0);
  }

  class DateTime {
    var date: int
    var time: int

    constructor (date: int, time: int)
      ensures this.date == date && this.time == time
    {
      this.date, this.time := date, time;
    }

    function ToTimeT(): int
      reads this
    {
      SECONDS_PER_DAY * (date - JULIAN_19700101) + Quot(time, 1000)
    }

    /** `operator+=`. The total is right unless two days or more would have to be carried, which no
        time within a day comes to; but a time of exactly one day is left as it is. */
    method AddSeconds(seconds: int)
      modifies this
      ensures old(time) + 1000 * Rem(seconds, SECONDS_PER_DAY) < 2 * MILLIS_PER_DAY
              <==> MILLIS_PER_DAY * date + time == old(MILLIS_PER_DAY * date + time) + 1000 * seconds
      ensures 0 <= old(time) < MILLIS_PER_DAY ==>
        && ToTimeT() == old(ToTimeT()) + seconds
        && 0 <= time <= MILLIS_PER_DAY
        && (time == MILLIS_PER_DAY <==> old(time) + 1000 * Rem(seconds, SECONDS_PER_DAY) == MILLIS_PER_DAY)
    {
      var d := Quot(seconds, SECONDS_PER_DAY);
      var s := Rem(seconds, SECONDS_PER_DAY);
      RemBounds(seconds, SECONDS_PER_DAY);
      hide Rem;
      date := date + d;
      time := time + s * 1000;
      ghost var sum := time;
      if time > MILLIS_PER_DAY {
        date := date + 1;
        time := time % MILLIS_PER_DAY;
        WholeDays(sum);
      } else if time < 0 {
        date := date - 1;
        time := time + MILLIS_PER_DAY;
      }
      if 0 <= old(time) < MILLIS_PER_DAY {
        assert MILLIS_PER_DAY * date + time == old(MILLIS_PER_DAY * date + time) + 1000 * seconds;
        SecondsOfTotal(date, time, old(date), old(time), seconds);
      }
    }

    /** `add_duration_date_time`. The date is the day asked for exactly under the condition, and always when
        nothing is negative; milliseconds are dropped. `carried` is what the clock carries over. */
    method AddDurationDateTime(dur: Duration) returns (ghost carried: int)
      modifies this
      ensures time + MILLIS_PER_DAY * carried == 1000 * ClockTotal(old(time), dur)
      ensures -MILLIS_PER_DAY < time < MILLIS_PER_DAY
      ensures var (y, m, d) := DateReached(old(date), dur, carried); date == JulianDate(y, m, d)
      ensures DayReached(old(date), dur, carried) >= -32044 ==>
        && date == DayReached(old(date), dur, carried)
        && (date == DayAsked(old(date), dur, carried)
            <==> ComesRight(old(date), dur, DayAsked(old(date), dur, carried)))
      ensures NonNegative(dur) && old(time) >= 0 && old(date) >= -32044 ==>
        carried >= 0 && 0 <= time && date == DayAsked(old(date), dur, carried)
    {
      hide GetYmd, Quot, Rem, MaxDayInMonthFor, JulianDate, MonthStart, Days, Carry, ComesRight;
      var (sYear, sMonth, sDay) := GetYmd(date);
      var hms := GetHms(time);
      var eSec, eMin, eHour, carryHr := AddClock(time, hms, dur);
      var tmpMonth := sMonth + dur.months;
      var eMonth := Rem(tmpMonth - 1, 12) + 1;
      var carryMonth := Quot(tmpMonth - 1, 12);
      var eYear := sYear + dur.years + carryMonth;
      var limit := MaxDayInMonthFor(eYear, eMonth);
      var tmpDay := if sDay > limit then limit else if sDay < 1 then 1 else sDay;
      var y, m, d := CarryDays(eYear, eMonth, tmpDay + dur.days + carryHr);
      carried := carryHr;
      MonthCarry(sYear + dur.years, tmpMonth);
      CarryEnds(eYear, eMonth, tmpDay + dur.days + carryHr);
      ReachedIffRight(date, dur, carried);
      if DayReached(date, dur, carried) >= -32044 {
        CountedInRange(y, m, d);
      }
      if NonNegative(dur) && time >= 0 && date >= -32044 {
        NothingNegative(date, dur, carried);
      }
      date := JulianDate(y, m, d);
      time := MakeHms(eHour, eMin, eSec, 0);
    }
  }

  lemma WholeDays(sum: int)
    requires sum > MILLIS_PER_DAY
    ensures sum < 2 * MILLIS_PER_DAY <==> sum % MILLIS_PER_DAY == sum - MILLIS_PER_DAY
    ensures 0 <= sum % MILLIS_PER_DAY < MILLIS_PER_DAY
  {
  }

  lemma SecondsOfTotal(date: int, time: int, date0: int, time0: int, seconds: int)
    requires 0 <= time && 0 <= time0
    requires MILLIS_PER_DAY * date + time == MILLIS_PER_DAY * date0 + time0 + 1000 * seconds
    ensures SECONDS_PER_DAY * date + Quot(time, 1000) == SECONDS_PER_DAY * date0 + Quot(time0, 1000) + seconds
  {
    var q, q0 := time / 1000, time0 / 1000;
    assert time == 1000 * q + time % 1000 && time0 == 1000 * q0 + time0 % 1000;
  }

  lemma CountedInRange(year: int, month: int, day: int)
    requires -10 <= month <= 12 && 1 <= day <= MaxDayInMonthFor(year, month) && Counted(year, month, day) >= -32044
    ensures JulianDate(year, month, day) == Counted(year, month, day)
  {
    var k := MonthNumber(year, month);
    LengthExact(year, month);
    NextMonth(k);
    FirstMonth(year, month);
    if k < -57598 {
      MonthsInOrder(k + 1, -57598);
    }
    hide MonthStart, Days, JulianDate, Leap, MaxDayInMonthFor;
    InRangeFrom(year, month);
    JulianDateCounts(year, month, day);
  }

  lemma InRangeFrom(year: int, month: int)
    requires -10 <= month <= 12 && MonthNumber(year, month) >= -57598
    ensures InRange(year, month)
  {
  }

  /** Seconds, minutes and hours with their carries: the new clock time and the days carried make the
      clock total. */
  method AddClock(time: int, hms: Hms, dur: Duration) returns (eSec: int, eMin: int, eHour: int, carryHr: int)
    requires hms == GetHms(time)
    ensures MakeHms(eHour, eMin, eSec, 0) + MILLIS_PER_DAY * carryHr == 1000 * ClockTotal(time, dur)
    ensures -60 < eSec < 60 && -60 < eMin < 60 && -24 < eHour < 24
    ensures NonNegative(dur) && time >= 0 ==> eSec >= 0 && eMin >= 0 && eHour >= 0 && carryHr >= 0
  {
    TicksSplit(time);
    RemBounds(time, 1000);
    SplitSigns(time);
    hide GetHms, Rem;
    var tmpSec := hms.second + dur.seconds;
    eSec := Rem(tmpSec, 60);
    var carrySec := Quot(tmpSec, 60);
    RemBounds(tmpSec, 60);
    var tmpMin := hms.minute + dur.minutes + carrySec;
    eMin := Rem(tmpMin, 60);
    var carryMin := Quot(tmpMin, 60);
    RemBounds(tmpMin, 60);
    var tmpHour := hms.hour + dur.hours + carryMin;
    eHour := Rem(tmpHour, 24);
    carryHr := Quot(tmpHour, 24);
    RemBounds(tmpHour, 24);
  }

  lemma SplitSigns(time: int)
    ensures GetHms(time).millis == Rem(time, 1000)
    ensures time >= 0 ==> GetHms(time).hour >= 0 && GetHms(time).minute >= 0 && GetHms(time).second >= 0
  {
    RemBounds(Quot(time, 1000), 60);
    RemBounds(Quot(Quot(time, 1000), 60), 60);
    hide Rem;
  }

  /** `to_time_t` counts the seconds since 1 January 1970, 0:00. */
  lemma TimeTCounts(dt: DateTime)
    ensures var h := GetHms(dt.time);
      dt.ToTimeT() == 86400 * (dt.date - JulianDate(1970, 1, 1)) + 3600 * h.hour + 60 * h.minute + h.second
  {
    TicksSplit(dt.time);
    RemBounds(dt.time, 1000);
    JulianDateCounts(1970, 1, 1);
    hide Rem, Quot, JulianDate;
  }
}
