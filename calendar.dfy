/** The recurrence arithmetic of index.js (addMinutes ... addToDate) over a
    JavaScript Date read in UTC.

    A Date is modelled as its civil record: proleptic Gregorian year, month
    1..12, day of month and milliseconds since midnight. `TimeValue` is the
    ECMAScript time value (milliseconds since 1970-01-01T00:00Z), and Dates
    compare by it, as `<=` on two Dates does. `setDate` and `setMonth` follow
    MakeDay of ECMA-262 section 21.4: a day or month index out of range carries
    into the neighbouring month or year. */
module Calendar {
  import opened Wrappers

  const MsPerMinute: int := 60000
  const MsPerHour: int := 3600000
  const MsPerDay: int := 86400000

  /** The unit names addToDate recognises; every other string means days. */
  const Minutes: string := "minutes"
  const Hours: string := "hours"
  const Weeks: string := "weeks"
  const Months: string := "months"
  const Years: string := "years"

  datatype Timestamp = Timestamp(year: int, month: int, day: int, ms: int)

  predicate IsLeapYear(y: int) {
    y % 4 == 0 && (y % 100 != 0 || y % 400 == 0)
  }

  function DaysInYear(y: int): int {
    if IsLeapYear(y) then 366 else 365
  }

  function DaysInMonth(y: int, m: int): int {
    if m == 2 then (if IsLeapYear(y) then 29 else 28)
    else if m == 4 || m == 6 || m == 9 || m == 11 then 30
    else 31
  }

  predicate ValidDate(t: Timestamp) {
    && 1 <= t.month <= 12
    && 1 <= t.day <= DaysInMonth(t.year, t.month)
    && 0 <= t.ms < MsPerDay
  }

  function Min(a: int, b: int): int {
    if a <= b then a else b
  }

  // ---------------------------------------------------------------------------
  // Day numbers and time values

  /** Days from 1970-01-01 to January 1 of year `y` (negative before 1970). */
  function DaysBeforeYear(y: int): int
    decreases if y < 1970 then 1970 - y else y - 1970
  {
    if y == 1970 then 0
    else if y > 1970 then DaysBeforeYear(y - 1) + DaysInYear(y - 1)
    else DaysBeforeYear(y + 1) - DaysInYear(y)
  }

  /** Days from January 1 of year `y` to the first of month `m`. */
  function DaysBeforeMonth(y: int, m: int): int {
    var leapDay := if IsLeapYear(y) && m > 2 then 1 else 0;
    leapDay +
      (if m == 1 then 0 else if m == 2 then 31 else if m == 3 then 59
       else if m == 4 then 90 else if m == 5 then 120 else if m == 6 then 151
       else if m == 7 then 181 else if m == 8 then 212 else if m == 9 then 243
       else if m == 10 then 273 else if m == 11 then 304 else 334)
  }

  /** ECMAScript Day(t): whole days since 1970-01-01. */
  function DayNumber(t: Timestamp): int {
    DaysBeforeYear(t.year) + DaysBeforeMonth(t.year, t.month) + t.day - 1
  }

  /** ECMAScript time value: milliseconds since 1970-01-01T00:00Z. */
  function TimeValue(t: Timestamp): int {
    DayNumber(t) * MsPerDay + t.ms
  }

  /** `a <= b` on two Dates. */
  predicate NotAfter(a: Timestamp, b: Timestamp) {
    TimeValue(a) <= TimeValue(b)
  }

  // ---------------------------------------------------------------------------
  // Calendar carry, one day at a time

  function NextDay(t: Timestamp): Timestamp {
    if t.day < DaysInMonth(t.year, t.month) then t.(day := t.day + 1)
    else if t.month < 12 then t.(month := t.month + 1, day := 1)
    else t.(year := t.year + 1, month := 1, day := 1)
  }

  function PrevDay(t: Timestamp): Timestamp {
    if t.day > 1 then t.(day := t.day - 1)
    else if t.month > 1 then t.(month := t.month - 1, day := DaysInMonth(t.year, t.month - 1))
    else t.(year := t.year - 1, month := 12, day := 31)
  }

  /** Moves `n` calendar days forwards (or back, for negative `n`), carrying
      across month and year ends; the time of day is kept. */
  function ShiftDays(t: Timestamp, n: int): Timestamp
    decreases if n < 0 then -n else n
  {
    if n == 0 then t
    else if n > 0 then ShiftDays(NextDay(t), n - 1)
    else ShiftDays(PrevDay(t), n + 1)
  }

  lemma YearStep(y: int)
    ensures DaysBeforeYear(y + 1) == DaysBeforeYear(y) + DaysInYear(y)
  {
    if y < 1970 {
      assert DaysBeforeYear(y) == DaysBeforeYear(y + 1) - DaysInYear(y);
    }
  }

  lemma NextDayFacts(t: Timestamp)
    requires ValidDate(t)
    ensures ValidDate(NextDay(t)) && NextDay(t).ms == t.ms
    ensures DayNumber(NextDay(t)) == DayNumber(t) + 1
    ensures PrevDay(NextDay(t)) == t
  {
    if t.day == DaysInMonth(t.year, t.month) && t.month == 12 {
      YearStep(t.year);
    }
  }

  lemma PrevDayFacts(t: Timestamp)
    requires ValidDate(t)
    ensures ValidDate(PrevDay(t)) && PrevDay(t).ms == t.ms
    ensures NextDay(PrevDay(t)) == t
  {
  }

  /** Stepping `n` days moves the day number by exactly `n` and keeps the
      record valid and the time of day unchanged. */
  lemma {:induction false} ShiftDaysFacts(t: Timestamp, n: int)
    requires ValidDate(t)
    ensures ValidDate(ShiftDays(t, n)) && ShiftDays(t, n).ms == t.ms
    ensures DayNumber(ShiftDays(t, n)) == DayNumber(t) + n
    decreases if n < 0 then -n else n
  {
    if n > 0 {
      NextDayFacts(t);
      ShiftDaysFacts(NextDay(t), n - 1);
    } else if n < 0 {
      PrevDayFacts(t);
      NextDayFacts(PrevDay(t));
      ShiftDaysFacts(PrevDay(t), n + 1);
    }
  }

  lemma ShiftAfterNext(t: Timestamp, n: int)
    requires ValidDate(t)
    ensures ShiftDays(NextDay(t), n) == ShiftDays(t, n + 1)
  {
    if n < 0 {
      NextDayFacts(t);
    }
  }

  lemma ShiftAfterPrev(t: Timestamp, n: int)
    requires ValidDate(t)
    ensures ShiftDays(PrevDay(t), n) == ShiftDays(t, n - 1)
  {
    if n > 0 {
      PrevDayFacts(t);
    }
  }

  /** Day shifts compose additively, whatever the signs. */
  lemma {:induction false} ShiftDaysCompose(t: Timestamp, a: int, b: int)
    requires ValidDate(t)
    ensures ShiftDays(ShiftDays(t, a), b) == ShiftDays(t, a + b)
    decreases if a < 0 then -a else a
  {
    if a > 0 {
      NextDayFacts(t);
      ShiftDaysCompose(NextDay(t), a - 1, b);
      ShiftAfterNext(t, a - 1 + b);
    } else if a < 0 {
      PrevDayFacts(t);
      ShiftDaysCompose(PrevDay(t), a + 1, b);
      ShiftAfterPrev(t, a + 1 + b);
    }
  }

  /** Within a month, stepping forwards only raises the day of month. */
  lemma {:induction false} ShiftWithinMonth(t: Timestamp, k: int)
    requires ValidDate(t) && 0 <= k && t.day + k <= DaysInMonth(t.year, t.month)
    ensures ShiftDays(t, k) == t.(day := t.day + k)
    decreases k
  {
    if k > 0 {
      ShiftWithinMonth(NextDay(t), k - 1);
    }
  }

  /** From the first of a month, stepping past its last day lands in the
      next month at the overflowing day. */
  lemma ShiftIntoNextMonth(first: Timestamp, j: int)
    requires ValidDate(first) && first.day == 1 && 0 <= j < 28
    ensures var last := first.(day := DaysInMonth(first.year, first.month));
            ShiftDays(first, DaysInMonth(first.year, first.month) + j) == NextDay(last).(day := 1 + j)
  {
    var dim := DaysInMonth(first.year, first.month);
    var last := first.(day := dim);
    ShiftWithinMonth(first, dim - 1);
    ShiftDaysCompose(first, dim - 1, 1 + j);
    NextDayFacts(last);
    ShiftWithinMonth(NextDay(last), j);
  }

  lemma LaterDay(a: Timestamp, b: Timestamp)
    requires ValidDate(a) && ValidDate(b) && DayNumber(a) > DayNumber(b)
    ensures TimeValue(a) > TimeValue(b)
  {
    var da, db := DayNumber(a), DayNumber(b);
    assert da * MsPerDay >= (db + 1) * MsPerDay;
  }

  // ---------------------------------------------------------------------------
  // The Date setters used by the helpers

  /** `d.setDate(date)`: day `date` of d's month, out-of-range values carrying. */
  function SetDate(t: Timestamp, date: int): Timestamp {
    ShiftDays(t.(day := 1), date - 1)
  }

  /** `d.setMonth(month)` with a zero-based month index that may leave 0..11:
      MakeDay(year, month, day) with floor division and modulo by 12. */
  function SetMonth(t: Timestamp, month: int): Timestamp {
    ShiftDays(Timestamp(t.year + month / 12, month % 12 + 1, 1, t.ms), t.day - 1)
  }

  // ---------------------------------------------------------------------------
  // The helpers of index.js

  /** `addMinutes`: `setTime(getTime() + minutes * 60 * 1000)`, taken apart
      into whole days and the new time of day. */
  function AddMinutes(t: Timestamp, minutes: int): Timestamp {
    var total := t.ms + minutes * MsPerMinute;
    ShiftDays(t.(ms := total % MsPerDay), total / MsPerDay)
  }

  function AddHours(t: Timestamp, hours: int): Timestamp {
    AddMinutes(t, hours * 60)
  }

  function AddDays(t: Timestamp, days: int): Timestamp {
    SetDate(t, t.day + days)
  }

  /** `addWeeks` evaluates `days * 7` with no `days` in scope: it always throws. */
  function AddWeeks(t: Timestamp, weeks: int): Result<Timestamp> {
    Err("ReferenceError: days is not defined")
  }

  /** `addMonths`: setMonth, then setDate(0) (the last day of the month before)
      when the day of month did not survive. */
  function AddMonths(t: Timestamp, months: int): Timestamp {
    var result := SetMonth(t, t.month - 1 + months);
    if result.day != t.day then SetDate(result, 0) else result
  }

  function AddYears(t: Timestamp, years: int): Timestamp {
    AddMonths(t, years * 12)
  }

  function AddToDate(t: Timestamp, amount: int, unit: string): Result<Timestamp> {
    if unit == Hours then Ok(AddHours(t, amount))
    else if unit == Minutes then Ok(AddMinutes(t, amount))
    else if unit == Weeks then AddWeeks(t, amount)
    else if unit == Months then Ok(AddMonths(t, amount))
    else if unit == Years then Ok(AddYears(t, amount))
    else Ok(AddDays(t, amount))
  }

  // ---------------------------------------------------------------------------
  // What the helpers compute

  /** addMinutes moves the time value by exactly `minutes` minutes. */
  lemma AddMinutesExact(t: Timestamp, minutes: int)
    requires ValidDate(t)
    ensures ValidDate(AddMinutes(t, minutes))
    ensures TimeValue(AddMinutes(t, minutes)) == TimeValue(t) + minutes * MsPerMinute
  {
    var total := t.ms + minutes * MsPerMinute;
    var q, r := total / MsPerDay, total % MsPerDay;
    ShiftDaysFacts(t.(ms := r), q);
    var d := DayNumber(t);
    assert DayNumber(t.(ms := r)) == d;
    assert (d + q) * MsPerDay + r == d * MsPerDay + total;
  }

  /** addHours(t, h) is addMinutes(t, 60h): the time value moves by h hours. */
  lemma AddHoursExact(t: Timestamp, hours: int)
    requires ValidDate(t)
    ensures ValidDate(AddHours(t, hours))
    ensures TimeValue(AddHours(t, hours)) == TimeValue(t) + hours * MsPerHour
  {
    AddMinutesExact(t, hours * 60);
  }

  /** addDays is a plain calendar shift: `days` days later with month and
      year carry, the time of day unchanged. */
  lemma AddDaysShifts(t: Timestamp, days: int)
    requires ValidDate(t)
    ensures AddDays(t, days) == ShiftDays(t, days)
    ensures ValidDate(AddDays(t, days)) && AddDays(t, days).ms == t.ms
    ensures DayNumber(AddDays(t, days)) == DayNumber(t) + days
    ensures TimeValue(AddDays(t, days)) == TimeValue(t) + days * MsPerDay
  {
    var first := t.(day := 1);
    ShiftWithinMonth(first, t.day - 1);
    ShiftDaysCompose(first, t.day - 1, days);
    ShiftDaysFacts(t, days);
    var d := DayNumber(t);
    assert (d + days) * MsPerDay == d * MsPerDay + days * MsPerDay;
  }

  /** addDays composes additively. */
  lemma AddDaysAdditive(t: Timestamp, a: int, b: int)
    requires ValidDate(t)
    ensures AddDays(AddDays(t, a), b) == AddDays(t, a + b)
  {
    AddDaysShifts(t, a);
    AddDaysShifts(AddDays(t, a), b);
    AddDaysShifts(t, a + b);
    ShiftDaysCompose(t, a, b);
  }

  /** addMonths lands in month m + k, with year carry, on the original day
      clamped to the length of that month, at the same time of day. */
  lemma AddMonthsClamps(t: Timestamp, months: int)
    requires ValidDate(t)
    ensures var m := t.month - 1 + months;
            var y, mo := t.year + m / 12, m % 12 + 1;
            AddMonths(t, months) == Timestamp(y, mo, Min(t.day, DaysInMonth(y, mo)), t.ms)
    ensures ValidDate(AddMonths(t, months))
  {
    var m := t.month - 1 + months;
    var y, mo := t.year + m / 12, m % 12 + 1;
    var first := Timestamp(y, mo, 1, t.ms);
    var dim := DaysInMonth(y, mo);
    if t.day <= dim {
      ShiftWithinMonth(first, t.day - 1);
    } else {
      var over := t.day - dim;
      ShiftIntoNextMonth(first, over - 1);
      var last := first.(day := dim);
      NextDayFacts(last);
      var result := SetMonth(t, m);
      assert result == NextDay(last).(day := over);
      assert result.(day := 1) == NextDay(last);
      assert ShiftDays(PrevDay(NextDay(last)), 0) == PrevDay(NextDay(last));
      assert SetDate(result, 0) == PrevDay(NextDay(last));
    }
  }

  /** addYears keeps the month and clamps the day (February 29 to 28). */
  lemma AddYearsClamps(t: Timestamp, years: int)
    requires ValidDate(t)
    ensures var y := t.year + years;
            AddYears(t, years) == Timestamp(y, t.month, Min(t.day, DaysInMonth(y, t.month)), t.ms)
  {
    AddMonthsClamps(t, years * 12);
    var m := t.month - 1 + years * 12;
    assert m / 12 == years && m % 12 == t.month - 1;
  }

  /** The first of the month after t's month starts after t's day. */
  lemma NextMonthStartAfter(t: Timestamp)
    requires ValidDate(t)
    ensures var s := if t.month < 12 then Timestamp(t.year, t.month + 1, 1, 0)
                     else Timestamp(t.year + 1, 1, 1, 0);
            ValidDate(s) && DayNumber(s) > DayNumber(t)
  {
    var last := t.(day := DaysInMonth(t.year, t.month));
    NextDayFacts(last);
  }

  /** The first of the month k >= 1 months after t's month starts after t's day. */
  lemma {:induction false} MonthsLaterStartAfter(t: Timestamp, k: int)
    requires ValidDate(t) && k >= 1
    ensures var m := t.month - 1 + k;
            DayNumber(Timestamp(t.year + m / 12, m % 12 + 1, 1, 0)) > DayNumber(t)
    decreases k
  {
    if k == 1 {
      NextMonthStartAfter(t);
    } else {
      MonthsLaterStartAfter(t, k - 1);
      var x := t.month - 1 + k - 1;
      var u := Timestamp(t.year + x / 12, x % 12 + 1, 1, 0);
      NextMonthStartAfter(u);
      if x % 12 == 11 {
        assert (x + 1) / 12 == x / 12 + 1 && (x + 1) % 12 == 0;
      } else {
        assert (x + 1) / 12 == x / 12 && (x + 1) % 12 == x % 12 + 1;
      }
    }
  }

  lemma AddMonthsLater(t: Timestamp, months: int)
    requires ValidDate(t) && months > 0
    ensures TimeValue(AddMonths(t, months)) > TimeValue(t)
  {
    AddMonthsClamps(t, months);
    MonthsLaterStartAfter(t, months);
    LaterDay(AddMonths(t, months), t);
  }

  /** Which helper addToDate dispatches to: only "weeks" fails; "hours" is
      60 times the minutes; "years" is 12 times the months; every other
      unit, "days" and unknown strings alike, is addDays. */
  lemma AddToDateDispatch(t: Timestamp, amount: int, unit: string)
    ensures AddToDate(t, amount, unit).Err? <==> unit == Weeks
    ensures unit == Hours ==> AddToDate(t, amount, unit) == AddToDate(t, amount * 60, Minutes)
    ensures unit == Years ==> AddToDate(t, amount, unit) == AddToDate(t, amount * 12, Months)
    ensures unit !in {Hours, Minutes, Weeks, Months, Years} ==>
              AddToDate(t, amount, unit) == Ok(AddDays(t, amount))
  {
  }

  /** Every successful result of addToDate is a valid Date. */
  lemma AddToDateValid(t: Timestamp, amount: int, unit: string)
    requires ValidDate(t)
    ensures AddToDate(t, amount, unit).Ok? ==> ValidDate(AddToDate(t, amount, unit).value)
  {
    AddMinutesExact(t, amount);
    AddHoursExact(t, amount);
    AddDaysShifts(t, amount);
    AddMonthsClamps(t, amount);
    AddMonthsClamps(t, amount * 12);
  }

  /** A positive amount of any unit but "weeks" moves a Date strictly later. */
  lemma AddToDateLater(t: Timestamp, amount: int, unit: string)
    requires ValidDate(t) && amount > 0 && unit != Weeks
    ensures AddToDate(t, amount, unit).Ok?
    ensures TimeValue(AddToDate(t, amount, unit).value) > TimeValue(t)
  {
    if unit == Hours {
      AddHoursExact(t, amount);
    } else if unit == Minutes {
      AddMinutesExact(t, amount);
    } else if unit == Months {
      AddMonthsLater(t, amount);
    } else if unit == Years {
      AddMonthsLater(t, amount * 12);
    } else {
      AddDaysShifts(t, amount);
    }
  }

  /** January 31 plus one month is February 28 in a common year. */
  lemma JanuaryEndPlusMonth()
    ensures AddMonths(Timestamp(2023, 1, 31, 0), 1) == Timestamp(2023, 2, 28, 0)
  {
    AddMonthsClamps(Timestamp(2023, 1, 31, 0), 1);
  }

  /** January 30 plus one month is February 29 in a leap year, not March 1. */
  lemma JanuaryThirtiethPlusMonthInLeapYear()
    ensures AddMonths(Timestamp(2024, 1, 30, 0), 1) == Timestamp(2024, 2, 29, 0)
  {
    AddMonthsClamps(Timestamp(2024, 1, 30, 0), 1);
  }

  // ---------------------------------------------------------------------------
  // addWeeks as evidently intended

  /** The weeks helper as its name and the other helpers say it was meant:
      seven days per week. */
  function AddWeeksIntended(t: Timestamp, weeks: int): Timestamp {
    AddDays(t, weeks * 7)
  }

  function AddToDateIntended(t: Timestamp, amount: int, unit: string): Timestamp {
    if unit == Weeks then AddWeeksIntended(t, amount)
    else AddToDate(t, amount, unit).value
  }

  /** As written, "weeks" never yields a Date. */
  lemma WeeksAlwaysThrows(t: Timestamp, amount: int)
    ensures AddToDate(t, amount, Weeks).Err?
  {
  }

  /** The intended dispatch agrees with the written one wherever that one
      succeeds, and "weeks" moves the time value by exactly seven days per
      week, so a positive amount of any unit is strictly later. */
  lemma AddToDateIntendedCorrect(t: Timestamp, amount: int, unit: string)
    requires ValidDate(t)
    ensures unit != Weeks ==> AddToDate(t, amount, unit) == Ok(AddToDateIntended(t, amount, unit))
    ensures ValidDate(AddToDateIntended(t, amount, unit))
    ensures unit == Weeks ==>
              TimeValue(AddToDateIntended(t, amount, unit)) == TimeValue(t) + amount * 7 * MsPerDay
    ensures amount > 0 ==> TimeValue(AddToDateIntended(t, amount, unit)) > TimeValue(t)
  {
    if unit == Weeks {
      AddDaysShifts(t, amount * 7);
    } else {
      AddToDateValid(t, amount, unit);
      if amount > 0 {
        AddToDateLater(t, amount, unit);
      }
    }
  }
}
