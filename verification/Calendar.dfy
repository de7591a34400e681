/** The time-zone roll-over of the shell's date command, against the Gregorian calendar. */
module Calendar {

  const TWO_32: nat := 0x1_0000_0000

  datatype Time = Time(year: nat, month: nat, day: nat, hour: nat)

  predicate IsLeapYear(year: nat) { (year % 4 == 0 && year % 100 != 0) || year % 400 == 0 }

  function DaysInMonth(month: nat, year: nat): (d: nat)
    requires 1 <= month <= 12
    ensures 28 <= d <= 31
  {
    if month == 2 && IsLeapYear(year) then 29
    else [0, 31, 28, 31, 30, 31, 30, 31, 31, 30, 31, 30, 31][month]
  }

  ghost predicate Valid(t: Time) {
    t.year < TWO_32 && 1 <= t.month <= 12 && 1 <= t.day <= DaysInMonth(t.month, t.year) && t.hour < 24
  }

  // ----- counting days ---------------------------------------------------------------------

  /** Leap years before `year`, in closed form. */
  function LeapsBefore(year: nat): int { Fours(year) - Hundreds(year) + FourHundreds(year) }

  function DaysBeforeYear(year: nat): int { 365 * year + LeapsBefore(year) }

  function DaysBeforeMonth(month: nat, year: nat): nat
    requires 1 <= month <= 13
  {
    if month == 1 then 0 else DaysBeforeMonth(month - 1, year) + DaysInMonth(month - 1, year)
  }

  /** Days since the start of year 0. */
  function DayNumber(year: nat, month: nat, day: nat): int
    requires 1 <= month <= 12 && day >= 1
  {
    DaysBeforeYear(year) + DaysBeforeMonth(month, year) + day - 1
  }

  /** Hours since the start of year 0. */
  function HourNumber(t: Time): int
    requires 1 <= t.month <= 12 && t.day >= 1
  {
    24 * DayNumber(t.year, t.month, t.day) + t.hour
  }

  /** Multiples of 4, 100 and 400 below `year`. */
  function Fours(year: nat): nat { (year + 3) / 4 }
  function Hundreds(year: nat): nat { (year + 99) / 100 }
  function FourHundreds(year: nat): nat { (year + 399) / 400 }

  lemma CountMultiples(year: nat)
    ensures Fours(year + 1) == Fours(year) + (if year % 4 == 0 then 1 else 0)
    ensures Hundreds(year + 1) == Hundreds(year) + (if year % 100 == 0 then 1 else 0)
    ensures FourHundreds(year + 1) == FourHundreds(year) + (if year % 400 == 0 then 1 else 0)
  {
  }

  lemma Divisibility(year: nat)
    ensures year % 400 == 0 ==> year % 100 == 0
    ensures year % 100 == 0 ==> year % 4 == 0
  {
    if year % 400 == 0 {
      assert year == 100 * (4 * (year / 400));
    }
    if year % 100 == 0 {
      assert year == 4 * (25 * (year / 100));
    }
  }

  lemma LeapsCount(year: nat)
    ensures LeapsBefore(year + 1) == LeapsBefore(year) + (if IsLeapYear(year) then 1 else 0)
  {
    hide Fours, Hundreds, FourHundreds;
    CountMultiples(year);
    Divisibility(year);
  }

  lemma YearLength(year: nat)
    ensures DaysBeforeMonth(13, year) == (if IsLeapYear(year) then 366 else 365)
    ensures DaysBeforeYear(year + 1) == DaysBeforeYear(year) + DaysBeforeMonth(13, year)
  {
    LeapsCount(year);
    var feb := DaysInMonth(2, year);
    assert DaysBeforeMonth(2, year) == DaysBeforeMonth(1, year) + 31 == 31;
    assert DaysBeforeMonth(3, year) == 31 + feb;
    assert DaysBeforeMonth(5, year) == 31 + feb + 61;
    assert DaysBeforeMonth(7, year) == 31 + feb + 122;
    assert DaysBeforeMonth(9, year) == 31 + feb + 184;
    assert DaysBeforeMonth(11, year) == 31 + feb + 245;
    assert DaysBeforeMonth(13, year) == 31 + feb + 306;
  }

  /** Days from 1 March to the start of a month, counting from March. */
  function FromMarch(k: nat): nat { (153 * k + 2) / 5 }

  lemma MonthStarts(month: nat, year: nat)
    requires 1 <= month <= 12
    ensures DaysBeforeMonth(month, year) ==
            if month <= 2 then FromMarch(month + 9) - 306
            else FromMarch(month - 3) + 59 + (if IsLeapYear(year) then 1 else 0)
  {
    if month > 1 {
      MonthStarts(month - 1, year);
    }
  }

  /** Leap days in the years from 1 to `y`. */
  function LeapDays(y: int): int { y / 4 - y / 100 + y / 400 }

  /** The day number in closed form, by years that begin in March: no table of months, no leap years. */
  lemma DayNumberClosed(year: nat, month: nat, day: nat)
    requires 1 <= month <= 12 && day >= 1
    ensures var y: int := if month <= 2 then year - 1 else year;
            DayNumber(year, month, day) == 365 * y + LeapDays(y) + FromMarch((month + 9) % 12) + 59 + day
  {
    hide FromMarch, DaysBeforeMonth, IsLeapYear, LeapsBefore, LeapDays;
    MonthStarts(month, year);
    LeapsCount(year);
    if month <= 2 {
      LeapsThrough(year - 1);
    } else {
      LeapsThrough(year);
      assert (month + 9) % 12 == month - 3;
    }
  }

  lemma LeapsThrough(y: int)
    requires y >= -1
    ensures LeapsBefore(y + 1) == LeapDays(y) + 1
  {
  }

  /** Months within a year, by days. */
  lemma {:induction false} MonthsGrow(year: nat, m: nat, m': nat)
    requires 1 <= m < m' <= 13
    ensures DaysBeforeMonth(m, year) + DaysInMonth(m, year) <= DaysBeforeMonth(m', year)
    decreases m'
  {
    if m < m' - 1 {
      MonthsGrow(year, m, m' - 1);
    }
  }

  lemma {:induction false} YearsGrow(y: nat, y': nat)
    requires y < y'
    ensures DaysBeforeYear(y) + DaysBeforeMonth(13, y) <= DaysBeforeYear(y')
    decreases y'
  {
    YearLength(y' - 1);
    if y < y' - 1 {
      YearsGrow(y, y' - 1);
    }
  }

  /** Day numbers determine dates: no two valid times have the same hour number. */
  lemma SameHourSameTime(t: Time, t': Time)
    requires Valid(t) && Valid(t') && HourNumber(t) == HourNumber(t')
    ensures t == t'
  {
    hide HourNumber;
    if Before(t, t') {
      LaterIsMore(t, t');
    } else if Before(t', t) {
      LaterIsMore(t', t);
    } else {
      SameDay(t, t');
    }
  }

  /** Time `t` is in an earlier month than `t'`. */
  ghost predicate Before(t: Time, t': Time) { t.year < t'.year || (t.year == t'.year && t.month < t'.month) }

  lemma SameDay(t: Time, t': Time)
    requires Valid(t) && Valid(t') && t.year == t'.year && t.month == t'.month && HourNumber(t) == HourNumber(t')
    ensures t == t'
  {
    hide DaysBeforeYear, DaysBeforeMonth;
  }

  lemma LaterIsMore(t: Time, t': Time)
    requires Valid(t) && Valid(t') && Before(t, t')
    ensures HourNumber(t) < HourNumber(t')
  {
    hide DaysBeforeYear, DaysBeforeMonth;
    if t.year < t'.year {
      MonthsGrow(t.year, t.month, 13);
      YearsGrow(t.year, t'.year);
    } else {
      MonthsGrow(t.year, t.month, t'.month);
    }
  }

  // ----- the roll-over ---------------------------------------------------------------------

  /** The 32-bit year counter would wrap: midnight before year 0, or after the last year. */
  predicate YearWraps(t: Time, offset: int) {
    || (t.hour + offset < 0 && t.day == 1 && t.month == 1 && t.year == 0)
    || (t.hour + offset >= 24 && t.day == 31 && t.month == 12 && t.year == TWO_32 - 1)
  }

  lemma NextMonth(year: nat, month: nat, day: nat)
    requires 1 <= month < 12 && day == DaysInMonth(month, year)
    ensures DayNumber(year, month + 1, 1) == DayNumber(year, month, day) + 1
  {
  }

  lemma NextYear(year: nat)
    ensures DayNumber(year + 1, 1, 1) == DayNumber(year, 12, 31) + 1
  {
    YearLength(year);
  }

  /** A wrapped year is off by far more than any offset. */
  lemma WrapIsFar(m: nat, d: nat)
    requires 1 <= m <= 12 && 1 <= d <= 31
    ensures DayNumber(TWO_32 - 1, m, d) > 1000 && DayNumber(0, m, d) < 400
  {
    LateDay(TWO_32 - 1, m, d);
    EarlyDay(0, m, d);
  }

  lemma LateDay(year: nat, m: nat, d: nat)
    requires 1 <= m <= 12 && d >= 1 && year > 100
    ensures DayNumber(year, m, d) > 1000
  {
    hide DaysBeforeMonth;
    assert Hundreds(year) <= Fours(year);
  }

  lemma EarlyDay(year: nat, m: nat, d: nat)
    requires 1 <= m <= 12 && 1 <= d <= 31 && year == 0
    ensures DayNumber(year, m, d) < 400
  {
    hide DaysBeforeMonth, DaysBeforeYear;
    MonthsBelow(m, year);
    NothingBefore(year);
  }

  lemma MonthsBelow(m: nat, year: nat)
    requires 1 <= m <= 12
    ensures DaysBeforeMonth(m, year) <= 366 - 28
  {
    MonthsGrow(year, m, 13);
    YearLength(year);
  }

  /** Where the clock stands after the year wrapped. */
  function WrappedTime(t: Time, offset: int): Time
    requires YearWraps(t, offset) && -14 <= offset <= 14
  {
    if t.hour + offset < 0 then Time(TWO_32 - 1, 12, 31, t.hour + offset + 24)
    else Time(0, 1, 1, t.hour + offset - 24)
  }

  /** The local time is a valid date, and it lies exactly `offset` hours from the given one unless
      the 32-bit year wraps; then the calendar goes round from its last hour to its first. */
  method RollOver(t: Time, offset: int) returns (r: Time)
    requires Valid(t) && -14 <= offset <= 14
    ensures Valid(r)
    ensures HourNumber(r) == HourNumber(t) + offset <==> !YearWraps(t, offset)
    ensures YearWraps(t, offset) ==> r == WrappedTime(t, offset)
  {
    hide DaysBeforeYear, DaysBeforeMonth, IsLeapYear, DayNumber;
    var hour, day, month, year := t.hour + offset, t.day, t.month, t.year;
    if hour >= 24 {
      hour := hour - 24;
      day := day + 1;
      if day > DaysInMonth(month, year) {
        day := 1;
        month := month + 1;
        if month > 12 {
          month := 1;
          NextYear(year);
          WrapIsFar(1, 1);
          WrapIsFar(12, 31);
          year := (year + 1) % TWO_32;
        } else {
          NextMonth(t.year, t.month, t.day);
        }
      } else {
        NextDay(t.year, t.month, t.day);
      }
    } else if hour < 0 {
      hour := hour + 24;
      day := day - 1;
      if day < 1 {
        month := month - 1;
        if month < 1 {
          month := 12;
          if year > 0 {
            NextYear(year - 1);
          }
          WrapIsFar(1, 1);
          WrapIsFar(12, 31);
          year := (year - 1) % TWO_32;
        } else {
          NextMonth(t.year, month, DaysInMonth(month, t.year));
        }
        day := DaysInMonth(month, year);
      } else {
        NextDay(t.year, t.month, day);
      }
    }
    r := Time(year, month, day, hour);
  }

  lemma NextDay(year: nat, month: nat, day: nat)
    requires 1 <= month <= 12 && day >= 1
    ensures DayNumber(year, month, day + 1) == DayNumber(year, month, day) + 1
  {
  }

  /** The way back never wraps. */
  lemma BackDoesNotWrap(t: Time, local: Time, offset: int)
    requires Valid(t) && Valid(local) && -14 <= offset <= 14 && HourNumber(local) == HourNumber(t) + offset
    ensures !YearWraps(local, -offset)
  {
    hide DaysBeforeYear, DaysBeforeMonth, DayNumber, IsLeapYear;
    NextYear(TWO_32 - 1);
    DayInYear(t);
    YearZero(0);
    NoNegativeDays(t.year, t.month, t.day);
    assert DayNumber(t.year, t.month, t.day) <= DayNumber(TWO_32 - 1, 12, 31);
  }

  lemma NoNegativeDays(year: nat, month: nat, day: nat)
    requires 1 <= month <= 12 && day >= 1
    ensures DayNumber(year, month, day) >= 0
  {
    assert Hundreds(year) <= Fours(year);
  }

  lemma YearZero(year: nat)
    requires year == 0
    ensures DayNumber(year, 1, 1) == 0
  {
    hide DaysBeforeMonth, IsLeapYear, DaysBeforeYear;
    FirstMonth(year);
    NothingBefore(year);
  }

  lemma NothingBefore(year: nat)
    requires year == 0
    ensures DaysBeforeYear(year) == 0
  {
    assert Fours(year) == Hundreds(year) == FourHundreds(year) == 0;
  }

  lemma FirstMonth(year: nat)
    ensures DaysBeforeMonth(1, year) == 0
  {
  }

  lemma DayInYear(t: Time)
    requires Valid(t)
    ensures DayNumber(t.year, t.month, t.day) < DayNumber(TWO_32, 1, 1)
  {
    MonthsGrow(t.year, t.month, 13);
    YearsGrow(t.year, TWO_32);
  }

  /** Rolling over and back is the identity. */
  method RoundTrip(t: Time, offset: int) returns (back: Time)
    requires Valid(t) && -14 <= offset <= 14
    ensures back == t
  {
    hide HourNumber;
    var local := RollOver(t, offset);
    back := RollOver(local, -offset);
    if !YearWraps(t, offset) {
      BackDoesNotWrap(t, local, offset);
      SameHourSameTime(t, back);
    }
  }
}
