/**
 The real-time clock's conversion of a civil date to a day count without loops,
 against the calendar counted year by year and month by month ("Seconds Since
 the Epoch", section 4.16 of the POSIX.1-2017 Base Definitions).
 */
module Calendar {

  /** Division as C has it, towards zero. */
  function CDiv(a: int, b: int): int
    requires b > 0
  {
    if a >= 0 then a / b else -(-a / b)
  }

  /** Days before 1 March of `year`, counted from 1 March of year 0. */
  function MarchBase(year: int): int
  {
    var era := CDiv(if year >= 0 then year else year - 399, 400);
    var yoe := year - era * 400;
    era * 146097 + yoe * 365 + CDiv(yoe, 4) - CDiv(yoe, 100)
  }

  function DayOfMarchYear(month: nat, day: nat): int
  {
    CDiv(153 * (month + (if month > 2 then -3 else 9)) + 2, 5) + day - 1
  }

  /** __rtc_days_from_civil. */
  function DaysFromCivil(year: int, month: nat, day: nat): int
  {
    MarchBase(if month <= 2 then year - 1 else year) + DayOfMarchYear(month, day) - 719468
  }

  // ---------------------------------------------------------------- the calendar

  predicate Leap(year: int) { year % 4 == 0 && (year % 100 != 0 || year % 400 == 0) }

  function YearDays(year: int): int { if Leap(year) then 366 else 365 }

  function MonthDays(year: int, month: nat): nat
  {
    if month == 2 then (if Leap(year) then 29 else 28)
    else if month == 4 || month == 6 || month == 9 || month == 11 then 30 else 31
  }

  /** Days from 1 January 1970 to 1 January of `year`. */
  function DaysBeforeYear(year: int): int
    decreases if year >= 1970 then year - 1970 else 1970 - year
  {
    if year == 1970 then 0
    else if year > 1970 then DaysBeforeYear(year - 1) + YearDays(year - 1)
    else DaysBeforeYear(year + 1) - YearDays(year)
  }

  function DaysBeforeMonth(year: int, month: nat): nat
  {
    if month <= 1 then 0 else DaysBeforeMonth(year, month - 1) + MonthDays(year, month - 1)
  }

  datatype Date = Date(year: int, month: nat, day: nat)

  /** The day's number in the calendar, 1 January 1970 being 0. */
  function CalendarDay(d: Date): int
  {
    DaysBeforeYear(d.year) + DaysBeforeMonth(d.year, d.month) + d.day - 1
  }

  predicate IsDate(d: Date)
  {
    1 <= d.month <= 12 && 1 <= d.day <= MonthDays(d.year, d.month)
  }

  function Next(d: Date): Date
  {
    if d.day < MonthDays(d.year, d.month) then Date(d.year, d.month, d.day + 1)
    else if d.month < 12 then Date(d.year, d.month + 1, 1)
    else Date(d.year + 1, 1, 1)
  }

  // ---------------------------------------------------------------- the loop-free form is the calendar

  /** The era is the floor of the year over 400, whatever its sign. */
  lemma EraIsFloor(year: int)
    ensures CDiv(if year >= 0 then year else year - 399, 400) == year / 400
  {
    if year < 0 {
      var q, r := year / 400, year % 400;
      assert 399 - year == 400 * -q + (399 - r);
    }
  }

  /** Days before 1 March of year `r` of era `e`. */
  function EraDays(e: int, r: int): int { e * 146097 + r * 365 + r / 4 - r / 100 }

  lemma BaseOf(year: int)
    ensures MarchBase(year) == EraDays(year / 400, year % 400)
  {
    EraIsFloor(year);
  }

  /** From one 1 March to the next there is a 29 February exactly when the later year is leap. */
  lemma BaseStep(year: int)
    ensures MarchBase(year + 1) == MarchBase(year) + YearDays(year + 1)
  {
    BaseOf(year);
    BaseOf(year + 1);
    EraDaysStep(year);
  }

  lemma EraDaysStep(year: int)
    ensures EraDays((year + 1) / 400, (year + 1) % 400) == EraDays(year / 400, year % 400) + YearDays(year + 1)
  {
    EraStep(year);
    LeapOfEra((year + 1) / 400, (year + 1) % 400);
    if year % 400 < 399 { EraYear(year % 400); }
  }

  /** Within an era. */
  lemma EraYear(r: int)
    requires 0 <= r < 399
    ensures (r + 1) * 365 + (r + 1) / 4 - (r + 1) / 100 == r * 365 + r / 4 - r / 100 + YearDays(r + 1)
  {
    QuotientStep(r);
  }

  lemma EraStep(year: int)
    ensures year % 400 < 399 ==> (year + 1) / 400 == year / 400 && (year + 1) % 400 == year % 400 + 1
    ensures year % 400 == 399 ==> (year + 1) / 400 == year / 400 + 1 && (year + 1) % 400 == 0
  {
  }

  lemma LeapOfEra(e: int, r: int)
    requires 0 <= r < 400
    ensures Leap(400 * e + r) <==> Leap(r)
  {
    Modulo4(100 * e, r);
    Modulo100(4 * e, r);
  }

  lemma Modulo4(k: int, r: int)
    ensures (4 * k + r) % 4 == r % 4
  {
  }

  lemma Modulo100(k: int, r: int)
    ensures (100 * k + r) % 100 == r % 100
  {
  }

  lemma QuotientStep(r: int)
    requires 0 <= r
    ensures (r + 1) / 4 == r / 4 + (if (r + 1) % 4 == 0 then 1 else 0)
    ensures (r + 1) / 100 == r / 100 + (if (r + 1) % 100 == 0 then 1 else 0)
  {
  }

  /** Within a year the month formula counts the months. */
  lemma MonthFormula(year: int, month: nat, day: nat)
    requires 1 <= month <= 12
    ensures DaysFromCivil(year, month, day) == DaysFromCivil(year, 1, 1) + DaysBeforeMonth(year, month) + day - 1
  {
    BaseStep(year - 1);
    MonthSums(year);
  }

  lemma MonthSums(year: int)
    ensures var f := YearDays(year) - 365;
      && DaysBeforeMonth(year, 1) == 0 && DaysBeforeMonth(year, 2) == 31 && DaysBeforeMonth(year, 3) == 59 + f
      && DaysBeforeMonth(year, 4) == 90 + f && DaysBeforeMonth(year, 5) == 120 + f && DaysBeforeMonth(year, 6) == 151 + f
      && DaysBeforeMonth(year, 7) == 181 + f && DaysBeforeMonth(year, 8) == 212 + f && DaysBeforeMonth(year, 9) == 243 + f
      && DaysBeforeMonth(year, 10) == 273 + f && DaysBeforeMonth(year, 11) == 304 + f && DaysBeforeMonth(year, 12) == 334 + f
  {
    var f := YearDays(year) - 365;
    assert DaysBeforeMonth(year, 2) == 31;
    assert DaysBeforeMonth(year, 3) == 59 + f;
    assert DaysBeforeMonth(year, 4) == 90 + f;
    assert DaysBeforeMonth(year, 5) == 120 + f;
    assert DaysBeforeMonth(year, 6) == 151 + f;
    assert DaysBeforeMonth(year, 7) == 181 + f;
    assert DaysBeforeMonth(year, 8) == 212 + f;
    assert DaysBeforeMonth(year, 9) == 243 + f;
    assert DaysBeforeMonth(year, 10) == 273 + f;
    assert DaysBeforeMonth(year, 11) == 304 + f;
  }

  lemma FirstOfYear(year: int)
    ensures DaysFromCivil(year + 1, 1, 1) == DaysFromCivil(year, 1, 1) + YearDays(year)
  {
    BaseStep(year - 1);
  }

  lemma {:induction false} YearCount(year: int)
    ensures DaysFromCivil(year, 1, 1) == DaysBeforeYear(year)
    decreases if year >= 1970 then year - 1970 else 1970 - year
  {
    if year > 1970 {
      YearCount(year - 1);
      FirstOfYear(year - 1);
    } else if year < 1970 {
      YearCount(year + 1);
      FirstOfYear(year);
    }
  }

  /** For every date, of every year, the loop-free count is the calendar's. */
  lemma CivilIsCalendar(d: Date)
    requires IsDate(d)
    ensures DaysFromCivil(d.year, d.month, d.day) == CalendarDay(d)
  {
    MonthFormula(d.year, d.month, d.day);
    YearCount(d.year);
  }

  lemma EpochIsZero()
    ensures DaysFromCivil(1970, 1, 1) == 0
  {
    YearCount(1970);
  }

  /** Each day is one more than the day before. */
  lemma NextDay(d: Date)
    requires IsDate(d)
    ensures IsDate(Next(d))
    ensures DaysFromCivil(Next(d).year, Next(d).month, Next(d).day) == DaysFromCivil(d.year, d.month, d.day) + 1
  {
    CalendarNext(d);
    CivilIsCalendar(d);
    CivilIsCalendar(Next(d));
  }

  lemma CalendarNext(d: Date)
    requires IsDate(d)
    ensures IsDate(Next(d)) && CalendarDay(Next(d)) == CalendarDay(d) + 1
  {
    NextIsDate(d);
    if d.day == MonthDays(d.year, d.month) && d.month == 12 {
      YearEnd(d.year);
      YearStep(d.year);
      assert DaysBeforeMonth(d.year + 1, 1) == 0;
    }
  }

  lemma YearStep(year: int)
    ensures DaysBeforeYear(year + 1) == DaysBeforeYear(year) + YearDays(year)
  {
  }

  lemma NextIsDate(d: Date)
    requires IsDate(d)
    ensures IsDate(Next(d))
  {
  }

  lemma YearEnd(year: int)
    ensures DaysBeforeMonth(year, 12) + 31 == YearDays(year)
  {
    MonthSums(year);
  }

  // ---------------------------------------------------------------- order

  predicate Earlier(a: Date, b: Date)
  {
    a.year < b.year || (a.year == b.year && (a.month < b.month || (a.month == b.month && a.day < b.day)))
  }

  lemma {:induction false} MonthsGrow(year: int, m: nat, n: nat)
    requires 1 <= m < n
    ensures DaysBeforeMonth(year, m) + MonthDays(year, m) <= DaysBeforeMonth(year, n)
  {
    if m < n - 1 { MonthsGrow(year, m, n - 1); }
  }

  lemma {:induction false} YearsGrow(a: int, b: int)
    requires a < b
    ensures DaysFromCivil(a, 1, 1) + YearDays(a) <= DaysFromCivil(b, 1, 1)
    decreases b - a
  {
    FirstOfYear(b - 1);
    if a < b - 1 { YearsGrow(a, b - 1); }
  }

  lemma WithinYear(d: Date)
    requires IsDate(d)
    ensures 0 <= DaysBeforeMonth(d.year, d.month) + d.day - 1 < YearDays(d.year)
  {
    MonthSums(d.year);
  }

  lemma DateOrder(a: Date, b: Date)
    requires IsDate(a) && IsDate(b) && Earlier(a, b)
    ensures DaysFromCivil(a.year, a.month, a.day) < DaysFromCivil(b.year, b.month, b.day)
  {
    MonthFormula(a.year, a.month, a.day);
    MonthFormula(b.year, b.month, b.day);
    if a.year < b.year {
      YearsGrow(a.year, b.year);
      WithinYear(a);
      WithinYear(b);
    } else if a.month < b.month {
      MonthsGrow(a.year, a.month, b.month);
    }
  }

  datatype Moment = Moment(date: Date, hour: nat, minute: nat, second: nat)

  predicate IsMoment(t: Moment) { IsDate(t.date) && t.hour < 24 && t.minute < 60 && t.second < 60 }

  /** __rtc_to_epoch. */
  function ToEpoch(t: Moment): int
  {
    DaysFromCivil(t.date.year, t.date.month, t.date.day) * 86400 + t.hour * 3600 + t.minute * 60 + t.second
  }

  predicate Sooner(s: Moment, t: Moment)
  {
    || Earlier(s.date, t.date)
    || (s.date == t.date && (s.hour < t.hour || (s.hour == t.hour && (s.minute < t.minute || (s.minute == t.minute && s.second < t.second)))))
  }

  /** The epoch orders moments as the calendar and the clock do, and tells any two apart. */
  lemma MomentOrder(s: Moment, t: Moment)
    requires IsMoment(s) && IsMoment(t)
    ensures ToEpoch(s) < ToEpoch(t) <==> Sooner(s, t)
    ensures ToEpoch(s) == ToEpoch(t) <==> s == t
  {
    if Earlier(s.date, t.date) {
      DateOrder(s.date, t.date);
    } else if Earlier(t.date, s.date) {
      DateOrder(t.date, s.date);
    }
  }

  // ---------------------------------------------------------------- readings

  /** What the decoder lets through: 31 days in every month and 61 seconds in every minute. */
  predicate IsReading(t: Moment)
  {
    1 <= t.date.month <= 12 && 1 <= t.date.day <= 31 && t.hour < 24 && t.minute < 60 && t.second <= 60
  }

  /** The first second of the minute after that of `t`. */
  function NextMinute(t: Moment): Moment
  {
    if t.minute < 59 then Moment(t.date, t.hour, t.minute + 1, 0)
    else if t.hour < 23 then Moment(t.date, t.hour + 1, 0, 0)
    else Moment(Next(t.date), 0, 0, 0)
  }

  /** Days past the end of a month are days of the next one. */
  function Rolled(d: Date): Date
  {
    if d.day <= MonthDays(d.year, d.month) then d else Date(d.year, d.month + 1, d.day - MonthDays(d.year, d.month))
  }

  /** The moment a reading stands for. */
  function Meant(t: Moment): Moment
  {
    var u := t.(date := Rolled(t.date));
    if t.second == 60 then NextMinute(u) else u
  }

  lemma RolledDay(d: Date)
    requires 1 <= d.month <= 12 && 1 <= d.day <= 31
    ensures IsDate(Rolled(d))
    ensures var r := Rolled(d); DaysFromCivil(r.year, r.month, r.day) == DaysFromCivil(d.year, d.month, d.day)
  {
    var r := Rolled(d);
    MonthFormula(d.year, d.month, d.day);
    MonthFormula(r.year, r.month, r.day);
  }

  lemma MinuteLater(t: Moment)
    requires IsDate(t.date) && t.hour < 24 && t.minute < 60 && t.second == 60
    ensures IsMoment(NextMinute(t)) && ToEpoch(NextMinute(t)) == ToEpoch(t)
  {
    NextDay(t.date);
  }

  function NextSecond(t: Moment): Moment
  {
    if t.second < 59 then t.(second := t.second + 1) else NextMinute(t)
  }

  /** The epoch counts the seconds since the beginning of 1970. */
  lemma EpochCounts(t: Moment)
    requires IsMoment(t)
    ensures IsMoment(NextSecond(t)) && ToEpoch(NextSecond(t)) == ToEpoch(t) + 1
    ensures ToEpoch(Moment(Date(1970, 1, 1), 0, 0, 0)) == 0
  {
    EpochIsZero();
    if t.second == 59 { MinuteLater(t.(second := 60)); }
  }

  /** Every reading has the epoch of the moment it stands for. */
  lemma ReadingEpoch(t: Moment)
    requires IsReading(t)
    ensures IsMoment(Meant(t)) && ToEpoch(t) == ToEpoch(Meant(t))
  {
    RolledDay(t.date);
    if t.second == 60 { MinuteLater(t.(date := Rolled(t.date))); }
  }

  /** The epoch orders readings as the moments they stand for, and cannot tell apart exactly those that stand for the same. */
  lemma EpochOrder(s: Moment, t: Moment)
    requires IsReading(s) && IsReading(t)
    ensures ToEpoch(s) < ToEpoch(t) <==> Sooner(Meant(s), Meant(t))
    ensures ToEpoch(s) == ToEpoch(t) <==> Meant(s) == Meant(t)
  {
    ReadingEpoch(s);
    ReadingEpoch(t);
    MomentOrder(Meant(s), Meant(t));
  }

  /** Nothing is between a leap second and the first second of the next minute. */
  lemma NothingBetween(s: Moment, t: Moment)
    requires IsDate(s.date) && IsDate(t.date) && IsReading(s) && IsReading(t) && s.second == 60 && Sooner(s, t)
    ensures t == NextMinute(s) || Sooner(NextMinute(s), t)
  {
    NextDay(s.date);
    if Earlier(s.date, t.date) && t.date != Next(s.date) {
      DateOrder(s.date, t.date);
      if Earlier(t.date, Next(s.date)) { DateOrder(t.date, Next(s.date)); }
    }
  }

  /** On days that exist the epoch grows with the reading, except from a leap second to the second after it. */
  lemma LeapSecondClash(s: Moment, t: Moment)
    requires IsDate(s.date) && IsDate(t.date) && IsReading(s) && IsReading(t) && Sooner(s, t)
    ensures ToEpoch(s) < ToEpoch(t) <==> !(s.second == 60 && t == NextMinute(s))
    ensures ToEpoch(s) <= ToEpoch(t)
  {
    EpochOrder(s, t);
    if s.second == 60 {
      NothingBetween(s, t);
      MinuteLater(s);
    }
    if t.second == 60 { MinuteLater(t); }
    if Earlier(s.date, t.date) { DateOrder(s.date, t.date); }
  }

  lemma NextLater(d: Date)
    requires IsDate(d)
    ensures Earlier(d, Next(d)) && 1 <= Next(d).month <= 12 && 1 <= Next(d).day <= 31
  {
  }

  /** Every leap second has its clash. */
  lemma EveryLeapSecond(s: Moment)
    requires IsDate(s.date) && IsReading(s) && s.second == 60
    ensures var t := NextMinute(s); IsReading(t) && Sooner(s, t) && ToEpoch(s) == ToEpoch(t)
  {
    MinuteLater(s);
    NextLater(s.date);
  }

  /** 31 February is read as 3 March. */
  lemma NoSuchDay(hour: nat, minute: nat, second: nat)
    requires hour < 24 && minute < 60 && second <= 60
    ensures var s := Moment(Date(2026, 2, 31), hour, minute, second);
            var t := Moment(Date(2026, 3, 3), hour, minute, second);
            IsReading(s) && !IsDate(s.date) && Sooner(s, t) && ToEpoch(s) == ToEpoch(t)
  {
    RolledDay(Date(2026, 2, 31));
  }
}
