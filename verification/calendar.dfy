/** Calendar arithmetic: date and time normalisation and the weekday of a date. */
module Calendar {
  import opened Prelude

  const SECONDS_PER_DAY := 86400
  const SECONDS_PER_HOUR := 3600
  const SECONDS_PER_MINUTE := 60
  const MINUTES_PER_HOUR := 60
  const HOURS_PER_DAY := 24
  const MONTHS_PER_YEAR := 12
  const JANUARY := 1
  const FEBRUARY := 2
  const DECEMBER := 12

  /** `/` and `%` of the source language: towards zero. */
  function TruncDiv(a: int, b: int): int
    requires b > 0
  {
    if a >= 0 then a / b else -((-a) / b)
  }

  function TruncMod(a: int, b: int): int
    requires b > 0
  {
    if a >= 0 then a % b else -((-a) % b)
  }

  predicate IsLeapYear(year: int) {
    TruncMod(year, 4) == 0 && (TruncMod(year, 100) == 0 ==> TruncMod(year, 400) == 0)
  }

  function DaysInYear(year: int): int {
    if IsLeapYear(year) then 366 else 365
  }

  function DaysInMonth(year: int, month: int): (days: int)
    requires 1 <= month <= 12
    ensures 28 <= days <= 31
  {
    if month == FEBRUARY && IsLeapYear(year) then 29
    else [31, 28, 31, 30, 31, 30, 31, 31, 30, 31, 30, 31][month - 1]
  }

  /** The date and time fields, without the weekday that is computed from them. */
  datatype Stamp = Stamp(year: int, month: int, mday: int, hours: int, minutes: int, seconds: int)

  const MINIMUM := Stamp(0, JANUARY, 1, 0, 0, 0)

  predicate TimeInRange(s: Stamp) {
    0 <= s.seconds < SECONDS_PER_MINUTE && 0 <= s.minutes < MINUTES_PER_HOUR && 0 <= s.hours < HOURS_PER_DAY
  }

  /** `is_date_time_valid`, but for the weekday. */
  predicate InRange(s: Stamp) {
    && TimeInRange(s) && s.year >= 0 && JANUARY <= s.month <= MONTHS_PER_YEAR
    && 1 <= s.mday <= DaysInMonth(s.year, s.month)
  }

  // ---------------------------------------------------------------- absolute time, by counting

  /** Days in the years from 0 up to `year`. */
  function DaysBeforeYear(year: nat): int {
    if year == 0 then 0 else DaysBeforeYear(year - 1) + DaysInYear(year - 1)
  }

  function DaysBeforeMonth(year: int, month: int): int
    requires 1 <= month <= 12
    decreases month
  {
    if month == 1 then 0 else DaysBeforeMonth(year, month - 1) + DaysInMonth(year, month - 1)
  }

  /** Days since 0000-01-01, for any day count relative to the month. */
  function DayNumber(year: nat, month: int, mday: int): int
    requires 1 <= month <= 12
  {
    DaysBeforeYear(year) + DaysBeforeMonth(year, month) + mday - 1
  }

  function SecondOfDay(s: Stamp): int {
    s.hours * SECONDS_PER_HOUR + s.minutes * SECONDS_PER_MINUTE + s.seconds
  }

  /** Seconds since 0000-01-01 00:00:00; the day and time fields may be out of range. */
  function Seconds(s: Stamp): int
    requires s.year >= 0 && 1 <= s.month <= 12
  {
    DayNumber(s.year, s.month, s.mday) * SECONDS_PER_DAY + SecondOfDay(s)
  }

  lemma YearIsItsMonths(year: nat)
    ensures DaysBeforeMonth(year, 12) + DaysInMonth(year, 12) == DaysInYear(year)
    ensures DaysBeforeMonth(year, 3) == (if IsLeapYear(year) then 60 else 59)
  {
    hide IsLeapYear;
    assert DaysBeforeMonth(year, 2) == 31;
    assert DaysBeforeMonth(year, 4) == DaysBeforeMonth(year, 3) + 31;
    assert DaysBeforeMonth(year, 5) == DaysBeforeMonth(year, 4) + 30;
    assert DaysBeforeMonth(year, 6) == DaysBeforeMonth(year, 5) + 31;
    assert DaysBeforeMonth(year, 7) == DaysBeforeMonth(year, 6) + 30;
    assert DaysBeforeMonth(year, 8) == DaysBeforeMonth(year, 7) + 31;
    assert DaysBeforeMonth(year, 9) == DaysBeforeMonth(year, 8) + 31;
    assert DaysBeforeMonth(year, 10) == DaysBeforeMonth(year, 9) + 30;
    assert DaysBeforeMonth(year, 11) == DaysBeforeMonth(year, 10) + 31;
  }

  /** The month after, counting its days from the end of this one. */
  lemma NextMonth(year: nat, month: int, mday: int)
    requires 1 <= month <= 12
    ensures
      DayNumber(year, month, mday) ==
      if month < 12 then DayNumber(year, month + 1, mday - DaysInMonth(year, month))
      else DayNumber(year + 1, 1, mday - DaysInMonth(year, month))
  {
    hide IsLeapYear, DaysInMonth;
    YearIsItsMonths(year);
  }

  lemma {:induction false} MonthsPositive(year: int, month: int)
    requires 1 <= month <= 12
    ensures DaysBeforeMonth(year, month) >= 0
    decreases month
  {
    if month > 1 {
      MonthsPositive(year, month - 1);
    }
  }

  lemma {:induction false} YearsPositive(year: nat)
    ensures DaysBeforeYear(year) >= 0
  {
    if year > 0 {
      YearsPositive(year - 1);
    }
  }

  // ---------------------------------------------------------------- normalisation

  /**
   What the first corrections make of the year and month: a negative year, or a month before January of
   year 0, is the minimum; any month after December is the next January, any before January the previous
   December.
   */
  function Folded(s: Stamp): (r: Stamp)
    ensures r.year >= 0 && 1 <= r.month <= 12
    ensures s.year >= 0 && 1 <= s.month <= 12 ==> r == s
  {
    if s.year < 0 then MINIMUM
    else if s.month > MONTHS_PER_YEAR then s.(month := JANUARY, year := s.year + 1)
    else if s.month >= JANUARY then s
    else if s.year == 0 then MINIMUM
    else s.(month := DECEMBER, year := s.year - 1)
  }

  /** The same month when months are carried into years arithmetically. */
  function CarriedMonths(s: Stamp): Stamp {
    s.(year := s.year + (s.month - 1) / 12, month := (s.month - 1) % 12 + 1)
  }

  /**
   A month out of range is carried arithmetically exactly when it is off by no more than one, and in year 0 not
   below January.  A negative year is the minimum, which the carried date is too only if it is January of year 0
   written with that year, and the other fields are the least.
   */
  lemma FoldCarriesOneMonth(s: Stamp)
    ensures Folded(s) == CarriedMonths(s) <==>
            if s.year >= 1 then 0 <= s.month <= 13
            else if s.year == 0 then 1 <= s.month <= 13
            else s.month == 1 - 12 * s.year && s.(year := 0, month := JANUARY) == MINIMUM
  {
    var q, r := (s.month - 1) / 12, (s.month - 1) % 12;
    assert s.month - 1 == 12 * q + r && 0 <= r < 12;
  }

  class DateTime {
    var year: int
    var month: int
    var mday: int
    var hours: int
    var minutes: int
    var seconds: int
    var wday: int

    function Value(): Stamp
      reads this
    {
      Stamp(year, month, mday, hours, minutes, seconds)
    }

    constructor (s: Stamp)
      ensures Value() == s
    {
      year, month, mday := s.year, s.month, s.mday;
      hours, minutes, seconds := s.hours, s.minutes, s.seconds;
      wday := 3;
    }

    method ClampToMinimum()
      modifies this
      ensures Value() == MINIMUM && wday == old(wday)
    {
      year := 0;
      month := JANUARY;
      mday := 1;
      hours := 0;
      minutes := 0;
      seconds := 0;
    }

    method FixMonth()
      requires year >= 0
      modifies this
      ensures Value() == Folded(old(Value())) && wday == old(wday)
    {
      if month > MONTHS_PER_YEAR {
        month := JANUARY;
        year := year + 1;
      } else if month < JANUARY {
        if year == 0 {
          ClampToMinimum();
          return;
        }
        month := DECEMBER;
        year := year - 1;
      }
    }

    /** Carries between seconds, minutes, hours and days. */
    method CarryTime()
      modifies this`seconds, this`minutes, this`hours, this`mday
      ensures TimeInRange(Value())
      ensures mday * SECONDS_PER_DAY + SecondOfDay(Value()) == old(mday * SECONDS_PER_DAY + SecondOfDay(Value()))
    {
      while seconds >= SECONDS_PER_MINUTE
        invariant hours == old(hours) && mday == old(mday)
        invariant SecondOfDay(Value()) == old(SecondOfDay(Value()))
      {
        seconds := seconds - SECONDS_PER_MINUTE;
        minutes := minutes + 1;
      }
      while seconds < 0
        invariant hours == old(hours) && mday == old(mday) && seconds < SECONDS_PER_MINUTE
        invariant SecondOfDay(Value()) == old(SecondOfDay(Value()))
      {
        seconds := seconds + SECONDS_PER_MINUTE;
        minutes := minutes - 1;
      }
      while minutes >= MINUTES_PER_HOUR
        invariant mday == old(mday) && 0 <= seconds < SECONDS_PER_MINUTE
        invariant SecondOfDay(Value()) == old(SecondOfDay(Value()))
      {
        minutes := minutes - MINUTES_PER_HOUR;
        hours := hours + 1;
      }
      while minutes < 0
        invariant mday == old(mday) && 0 <= seconds < SECONDS_PER_MINUTE && minutes < MINUTES_PER_HOUR
        invariant SecondOfDay(Value()) == old(SecondOfDay(Value()))
      {
        minutes := minutes + MINUTES_PER_HOUR;
        hours := hours - 1;
      }
      while hours >= HOURS_PER_DAY
        invariant 0 <= seconds < SECONDS_PER_MINUTE && 0 <= minutes < MINUTES_PER_HOUR
        invariant mday * SECONDS_PER_DAY + SecondOfDay(Value()) == old(mday * SECONDS_PER_DAY + SecondOfDay(Value()))
      {
        hours := hours - HOURS_PER_DAY;
        mday := mday + 1;
      }
      while hours < 0
        invariant 0 <= seconds < SECONDS_PER_MINUTE && 0 <= minutes < MINUTES_PER_HOUR && hours < HOURS_PER_DAY
        invariant mday * SECONDS_PER_DAY + SecondOfDay(Value()) == old(mday * SECONDS_PER_DAY + SecondOfDay(Value()))
      {
        hours := hours + HOURS_PER_DAY;
        mday := mday - 1;
      }
    }

    /** The days of the month, with a month's length borrowed or given at a time. */
    method CarryDays()
      requires year >= 0 && 1 <= month <= 12 && TimeInRange(Value())
      modifies this
      ensures InRange(Value()) && Seconds(Value()) == Max(0, old(Seconds(Value()))) && wday == old(wday)
    {
      hide DaysInMonth, DayNumber, SecondOfDay;
      while mday > DaysInMonth(year, month)
        invariant year >= 0 && 1 <= month <= 12 && TimeInRange(Value()) && wday == old(wday)
        invariant Seconds(Value()) == old(Seconds(Value()))
        decreases mday
      {
        NextMonth(year, month, mday);
        ghost var before := Value();
        mday := mday - DaysInMonth(year, month);
        month := month + 1;
        SameTime(before, Value());
        FixMonth();
        SameTime(before, Value());
      }
      while mday < 1
        invariant year >= 0 && 1 <= month <= 12 && TimeInRange(Value()) && wday == old(wday)
        invariant mday <= DaysInMonth(year, month)
        invariant Seconds(Value()) == old(Seconds(Value())) || (Value() == MINIMUM && old(Seconds(Value())) < 0)
        decreases 1 - mday
      {
        if year == 0 && month == JANUARY {
          BeforeTheBeginning(Value());
          ClampToMinimum();
          break;
        }
        ghost var before := Value();
        month := month - 1;
        FixMonth();
        mday := mday + DaysInMonth(year, month);
        NextMonth(year, month, mday);
        SameTime(before, Value());
      }
      assert MINIMUM.mday <= DaysInMonth(0, 1);
      SecondsOfMinimum();
      if Value() != MINIMUM {
        NotNegative(Value());
      }
    }

    /** `normalize_date_time` */
    method NormalizeDateTime()
      modifies this
      ensures InRange(Value()) && 1 <= wday <= 7
      ensures Seconds(Value()) == Max(0, Seconds(Folded(old(Value()))))
      ensures wday == WeekdayFromDate(mday, month, year)
    {
      hide SecondOfDay, DayNumber, DaysInMonth, WeekdayFromDate;
      CarryTime();
      ghost var carried := Value();
      if year < 0 {
        ClampToMinimum();
      }
      FixMonth();
      assert Value() == Folded(carried);
      CarryIsNeutral(old(Value()), carried);
      CarryDays();
      wday := WeekdayFromDate(mday, month, year);
    }
  }

  function Max(a: int, b: int): int {
    if a >= b then a else b
  }

  lemma SameTime(a: Stamp, b: Stamp)
    ensures (a.hours, a.minutes, a.seconds) == (b.hours, b.minutes, b.seconds) ==> SecondOfDay(a) == SecondOfDay(b)
  {
  }

  lemma SecondsOfMinimum()
    ensures Seconds(MINIMUM) == 0 && InRange(MINIMUM)
  {
  }

  lemma BeforeTheBeginning(s: Stamp)
    requires s.year == 0 && s.month == 1 && s.mday < 1 && TimeInRange(s)
    ensures Seconds(s) < 0
  {
  }

  lemma NotNegative(s: Stamp)
    requires s.year >= 0 && 1 <= s.month <= 12 && s.mday >= 1 && TimeInRange(s)
    ensures Seconds(s) >= 0
  {
    YearsPositive(s.year);
    MonthsPositive(s.year, s.month);
  }

  /** Carrying the time first and folding the month afterwards, or only folding: the same second. */
  lemma CarryIsNeutral(before: Stamp, carried: Stamp)
    requires carried.year == before.year && carried.month == before.month && TimeInRange(carried)
    requires carried.mday * SECONDS_PER_DAY + SecondOfDay(carried) ==
      before.mday * SECONDS_PER_DAY + SecondOfDay(before)
    ensures Seconds(Folded(carried)) == Seconds(Folded(before)) && TimeInRange(Folded(carried))
  {
    hide SecondOfDay, DaysBeforeMonth, DaysBeforeYear;
    var a, b := Folded(carried), Folded(before);
    assert a.year == b.year && a.month == b.month;
    if before.year >= 0 && (before.year > 0 || before.month >= 1) {
      SameTime(a, carried);
      SameTime(b, before);
      var start := DaysBeforeYear(a.year) + DaysBeforeMonth(a.year, a.month) - 1;
    }
  }

  // ---------------------------------------------------------------- weekdays

  /** The weekday lambda of `normalize_date_time`: Zeller's congruence, Monday as 1. */
  function WeekdayFromDate(dayOfMonth: int, month: int, year: int): (wday: int)
    ensures 1 <= wday <= 7
  {
    var early := month == JANUARY || month == FEBRUARY;
    var m := if early then month + MONTHS_PER_YEAR else month;
    var y := if early then year - 1 else year;
    var yearOfCentury := TruncMod(y, 100);
    var century := TruncDiv(y, 100);
    var zeller := dayOfMonth + TruncDiv(13 * (m + 1), 5) + yearOfCentury + TruncDiv(yearOfCentury, 4) +
                  TruncDiv(century, 4) - 2 * century;
    [6, 7, 1, 2, 3, 4, 5][TruncMod(TruncMod(zeller, 7) + 7, 7)]
  }

  /** The weekday by counting: 0000-01-01 is a Saturday. */
  function Weekday(days: int): (wday: int)
    ensures 1 <= wday <= 7
  {
    (days + 5) % 7 + 1
  }

  lemma QuotientStep(y: nat, k: nat)
    requires k > 0
    ensures (y + 1) / k - y / k == if (y + 1) % k == 0 then 1 else 0
  {
    var q, r := y / k, y % k;
    assert y == k * q + r;
    if r + 1 == k {
      assert y + 1 == k * (q + 1);
      Division(y + 1, k, q + 1, 0);
    } else {
      Division(y + 1, k, q, r + 1);
    }
  }

  lemma Division(x: nat, k: nat, q: nat, r: nat)
    requires k > 0 && r < k && x == k * q + r
    ensures x / k == q && x % k == r
  {
    var d := x / k;
    assert k * (q - d) == x % k - r;
    if q > d {
      ProductMonotone(1, q - d, k);
    } else if q < d {
      ProductMonotone(1, d - q, k);
    }
  }

  /** The leap days up to and including `y`, by the Gregorian rules. */
  function LeapDays(y: nat): int {
    y / 4 - y / 100 + y / 400
  }

  /** Counting the days of the years agrees with the Gregorian closed form. */
  lemma {:induction false} ClosedYears(y: nat)
    ensures DaysBeforeYear(y + 1) == 365 * (y + 1) + LeapDays(y) + 1
  {
    if y == 0 {
      assert DaysBeforeYear(1) == DaysBeforeYear(0) + DaysInYear(0);
    } else {
      hide LeapDays, IsLeapYear;
      ClosedYears(y - 1);
      LeapStep(y);
    }
  }

  /** A leap year adds one to the leap days counted. */
  lemma LeapStep(y: nat)
    requires y >= 1
    ensures LeapDays(y) == LeapDays(y - 1) + if IsLeapYear(y) then 1 else 0
  {
    QuotientStep(y - 1, 4);
    QuotientStep(y - 1, 100);
    QuotientStep(y - 1, 400);
    Multiples(y);
  }

  lemma Multiples(y: nat)
    ensures y % 100 == 0 ==> y % 4 == 0
    ensures y % 400 == 0 ==> y % 100 == 0
  {
    if y % 100 == 0 {
      Division(y, 4, 25 * (y / 100), 0);
    }
    if y % 400 == 0 {
      Division(y, 100, 4 * (y / 400), 0);
    }
  }

  /** What the congruence makes of a year and century, against the closed form: a multiple of seven apart. */
  lemma ZellerYear(y: nat)
    ensures y + LeapDays(y) == y % 100 + (y % 100) / 4 + (y / 100) / 4 - 2 * (y / 100) + 7 * (18 * (y / 100))
  {
    var c, r := y / 100, y % 100;
    assert y == 100 * c + r;
    assert y / 4 == 25 * c + r / 4;
    assert y / 400 == c / 4;
  }

  /** The remapped remainder is the weekday of any day count in the same class modulo seven. */
  lemma Remap(zeller: int, days: int)
    requires zeller % 7 == days % 7
    ensures [6, 7, 1, 2, 3, 4, 5][TruncMod(TruncMod(zeller, 7) + 7, 7)] == Weekday(days)
  {
    hide TruncMod;
    RemainderOfAny(zeller);
    FiveOn(days);
  }

  lemma RemainderOfAny(z: int)
    ensures TruncMod(TruncMod(z, 7) + 7, 7) == z % 7
  {
  }

  lemma FiveOn(days: int)
    ensures (days + 5) % 7 == (days % 7 + 5) % 7
  {
  }

  function PlainStart(month: int): int
    requires 1 <= month <= 12
  {
    [0, 31, 59, 90, 120, 151, 181, 212, 243, 273, 304, 334][month - 1]
  }

  lemma {:induction false} StartsByTable(year: int, month: int)
    requires 1 <= month <= 12
    ensures DaysBeforeMonth(year, month) == PlainStart(month) + if month >= 3 && IsLeapYear(year) then 1 else 0
    decreases month
  {
    hide IsLeapYear;
    if month > 1 {
      StartsByTable(year, month - 1);
    }
  }

  /** Months counted from March, as the congruence does: January and February are months 13 and 14. */
  lemma PlainMonths(month: int)
    requires 1 <= month <= 12
    ensures
      var m := if month >= 3 then month else month + 12;
      PlainStart(month) + (if month >= 3 then 0 else 365) == (13 * (m + 1)) / 5 + 7 * (4 * m - 5)
  {
    if month <= 6 {
      assert month == 1 || month == 2 || month == 3 || month == 4 || month == 5 || month == 6;
    } else {
      assert month == 7 || month == 8 || month == 9 || month == 10 || month == 11 || month == 12;
    }
  }

  lemma MonthStart(year: nat, month: int)
    requires 1 <= month <= 12
    ensures
      if month >= 3
      then DaysBeforeMonth(year, month) - DaysInYear(year) + 365 == (13 * (month + 1)) / 5 + 7 * (4 * month - 5)
      else DaysBeforeMonth(year, month) + 365 == (13 * (month + 13)) / 5 + 7 * (4 * (month + 12) - 5)
  {
    hide IsLeapYear, PlainStart, DaysBeforeMonth;
    StartsByTable(year, month);
    PlainMonths(month);
  }

  /** The day count of a date in the terms of the congruence. */
  lemma DayNumberByMarch(year: nat, month: int, mday: int)
    requires 1 <= month <= 12 && (year > 0 || month >= 3)
    ensures
      var m := if month >= 3 then month else month + 12;
      var y := if month >= 3 then year else year - 1;
      DayNumber(year, month, mday) == mday + (13 * (m + 1)) / 5 + (y + LeapDays(y)) + 7 * (4 * m - 5 + 52 * y)
  {
    hide LeapDays, DaysBeforeMonth, IsLeapYear;
    MonthStart(year, month);
    if month >= 3 {
      ClosedYears(year);
      assert DaysBeforeYear(year + 1) == DaysBeforeYear(year) + DaysInYear(year);
    } else {
      ClosedYears(year - 1);
    }
  }

  /** From March of year 0 on, every operand of the congruence but its sum is non-negative. */
  lemma ZellerByMarch(year: nat, month: int, mday: nat)
    requires 1 <= month <= 12 && (year > 0 || month >= 3)
    ensures
      var m := if month >= 3 then month else month + 12;
      var y := if month >= 3 then year else year - 1;
      var zeller := mday + (13 * (m + 1)) / 5 + y % 100 + (y % 100) / 4 + (y / 100) / 4 - 2 * (y / 100);
      WeekdayFromDate(mday, month, year) == [6, 7, 1, 2, 3, 4, 5][TruncMod(TruncMod(zeller, 7) + 7, 7)]
  {
    hide TruncMod;
    var y := if month >= 3 then year else year - 1;
    assert TruncMod(y, 100) == y % 100 by {
      NonNegative(y, 100);
    }
  }

  lemma NonNegative(a: nat, b: nat)
    requires b > 0
    ensures TruncMod(a, b) == a % b
  {
  }

  /**
   The computed weekday is the day count modulo seven, Monday first, exactly for the dates from
   0000-03-01 on: in the January and February of year 0 the century of year -1 is truncated towards zero.
   */
  lemma WeekdayIffFromMarch(year: nat, month: int, mday: nat)
    requires 1 <= month <= 12 && 1 <= mday
    ensures WeekdayFromDate(mday, month, year) == Weekday(DayNumber(year, month, mday)) <==> (year > 0 || month >= 3)
  {
    hide LeapDays, DayNumber, WeekdayFromDate, Weekday, TruncMod;
    if year > 0 || month >= 3 {
      ZellerByMarch(year, month, mday);
      var m := if month >= 3 then month else month + 12;
      var y := if month >= 3 then year else year - 1;
      DayNumberByMarch(year, month, mday);
      ZellerYear(y);
      var zeller := mday + (13 * (m + 1)) / 5 + y % 100 + (y % 100) / 4 + (y / 100) / 4 - 2 * (y / 100);
      Remap(zeller, DayNumber(year, month, mday));
    } else {
      FirstTwoMonths(month, mday);
    }
  }

  lemma FirstTwoMonths(month: int, mday: nat)
    requires 1 <= month <= 2 && 1 <= mday
    ensures WeekdayFromDate(mday, month, 0) == Weekday(DayNumber(0, month, mday) + 1)
    ensures WeekdayFromDate(mday, month, 0) != Weekday(DayNumber(0, month, mday))
  {
    hide WeekdayFromDate, TruncMod, Weekday, IsLeapYear;
    var days := DayNumber(0, month, mday) + 1;
    var zeller: int := mday + (if month == 1 then 36 else 39) - 1;
    StartsByTable(0, month);
    ZellerBeforeMarch(month, mday);
    Remap(zeller, days);
    NextWeekday(days - 1);
  }

  lemma NextWeekday(days: int)
    ensures Weekday(days) != Weekday(days + 1)
  {
  }

  lemma ZellerBeforeMarch(month: int, mday: nat)
    requires 1 <= month <= 2
    ensures
      var zeller: int := mday + (if month == 1 then 36 else 39) - 1;
      WeekdayFromDate(mday, month, 0) == [6, 7, 1, 2, 3, 4, 5][TruncMod(TruncMod(zeller, 7) + 7, 7)]
  {
    hide TruncMod;
    assert TruncMod(-1, 100) == -1 by {
      MinusOne();
    }
  }

  lemma MinusOne()
    ensures TruncMod(-1, 100) == -1
  {
  }

  /** Two dates by name: the first of January 2000 was a Saturday, the last of February 2024 a Thursday. */
  lemma KnownWeekdays()
    ensures WeekdayFromDate(1, 1, 2000) == 6 && WeekdayFromDate(29, 2, 2024) == 4
    ensures DaysInMonth(2000, 2) == 29 && DaysInMonth(1900, 2) == 28 && DaysInMonth(2024, 2) == 29
  {
  }

  // ---------------------------------------------------------------- normal forms are unique

  lemma {:induction false} LaterMonth(year: int, a: int, b: int)
    requires 1 <= a < b <= 12
    ensures DaysBeforeMonth(year, a) + DaysInMonth(year, a) <= DaysBeforeMonth(year, b)
    decreases b
  {
    hide IsLeapYear, DaysInMonth;
    if a + 1 < b {
      LaterMonth(year, a, b - 1);
    }
  }

  lemma {:induction false} LaterYear(a: nat, b: nat)
    requires a < b
    ensures DaysBeforeYear(a) + DaysInYear(a) <= DaysBeforeYear(b)
    decreases b
  {
    hide IsLeapYear;
    if a + 1 < b {
      LaterYear(a, b - 1);
    }
  }

  lemma WithinYear(s: Stamp)
    requires InRange(s)
    ensures
      DaysBeforeYear(s.year) <= DayNumber(s.year, s.month, s.mday) < DaysBeforeYear(s.year) + DaysInYear(s.year)
  {
    hide IsLeapYear;
    MonthsPositive(s.year, s.month);
    YearIsItsMonths(s.year);
    if s.month < 12 {
      LaterMonth(s.year, s.month, 12);
    }
  }

  lemma SameDate(a: Stamp, b: Stamp)
    requires InRange(a) && InRange(b) && DayNumber(a.year, a.month, a.mday) == DayNumber(b.year, b.month, b.mday)
    ensures a.year == b.year && a.month == b.month && a.mday == b.mday
  {
    hide IsLeapYear;
    WithinYear(a);
    WithinYear(b);
    if a.year < b.year {
      LaterYear(a.year, b.year);
    } else if b.year < a.year {
      LaterYear(b.year, a.year);
    } else if a.month < b.month {
      LaterMonth(a.year, a.month, b.month);
    } else if b.month < a.month {
      LaterMonth(a.year, b.month, a.month);
    }
  }

  /** A second has only one date and time, so normalisation has only one possible result. */
  lemma NormalFormUnique(a: Stamp, b: Stamp)
    requires InRange(a) && InRange(b) && Seconds(a) == Seconds(b)
    ensures a == b
  {
    hide IsLeapYear, DayNumber, DaysInMonth;
    SameDate(a, b);
  }

  // ---------------------------------------------------------------- times of day

  datatype Time = Time(hours: int, minutes: int, seconds: int)

  /** `seconds_to_time`: the parts add up again, and are a time of day for the seconds of one. */
  function SecondsToTime(seconds: int): (t: Time)
    ensures t.hours * SECONDS_PER_HOUR + t.minutes * SECONDS_PER_MINUTE + t.seconds == seconds
    ensures 0 <= seconds < SECONDS_PER_DAY ==> 0 <= t.hours < 24 && 0 <= t.minutes < 60 && 0 <= t.seconds < 60
  {
    Time(TruncDiv(seconds, SECONDS_PER_HOUR),
         TruncDiv(TruncMod(seconds, SECONDS_PER_HOUR), SECONDS_PER_MINUTE),
         TruncMod(seconds, SECONDS_PER_MINUTE))
  }
}
