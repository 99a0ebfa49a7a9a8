/** Dates in UTC and how their parts are brought into range: libraries/yacymodel/calendar_day.go. */
module CalendarDays {

  datatype CalendarDay = CalendarDay(year: int, month: int, day: int)

  predicate IsLeap(year: int) {
    year % 4 == 0 && (year % 100 != 0 || year % 400 == 0)
  }

  function DaysIn(year: int, month: int): (n: nat)
    ensures 28 <= n <= 31
  {
    if month == 2 then (if IsLeap(year) then 29 else 28)
    else if month in {4, 6, 9, 11} then 30
    else 31
  }

  predicate IsReal(d: CalendarDay) {
    1 <= d.month <= 12 && 1 <= d.day <= DaysIn(d.year, d.month)
  }

  function NextMonth(year: int, month: int): (int, int) {
    if month >= 12 then (year + 1, 1) else (year, month + 1)
  }

  function PreviousMonth(year: int, month: int): (int, int) {
    if month <= 1 then (year - 1, 12) else (year, month - 1)
  }

  /** Carries days beyond their month into the months after it, and day zero into the month before. */
  function InMonth(year: int, month: int, day: nat): (d: CalendarDay)
    requires 1 <= month <= 12
    ensures IsReal(d)
    decreases day
  {
    if day == 0 then
      var (y, m) := PreviousMonth(year, month);
      CalendarDay(y, m, DaysIn(y, m))
    else if day <= DaysIn(year, month) then CalendarDay(year, month, day)
    else
      var (y, m) := NextMonth(year, month);
      InMonth(y, m, day - DaysIn(year, month))
  }

  /** The day that parts out of range stand for: month 13 is the next January, day 32 the next month. */
  function NewCalendarDay(year: int, month: nat, day: nat): (d: CalendarDay)
    ensures IsReal(d)
  {
    InMonth(year + (month - 1) / 12, (month - 1) % 12 + 1, day)
  }

  lemma RealDayIsItself(d: CalendarDay)
    requires IsReal(d)
    ensures NewCalendarDay(d.year, d.month, d.day) == d
  {
  }

  /** A day past its month is one of the next month, day zero the last of the month before, and month zero the last December. */
  lemma NewCalendarDayIs(year: int, month: nat, day: nat)
    ensures NewCalendarDay(year, month + 12, day) == NewCalendarDay(year + 1, month, day)
    ensures NewCalendarDay(year, 0, day) == NewCalendarDay(year - 1, 12, day)
    ensures NewCalendarDay(year, month, DaysIn(year + (month - 1) / 12, (month - 1) % 12 + 1) + day + 1)
         == NewCalendarDay(year, month + 1, day + 1)
    ensures NewCalendarDay(year, month + 1, 0)
         == NewCalendarDay(year, month, DaysIn(year + (month - 1) / 12, (month - 1) % 12 + 1))
  {
    assert (month + 12 - 1) / 12 == (month - 1) / 12 + 1 && (month + 12 - 1) % 12 == (month - 1) % 12;
  }

  lemma DaysInIs(year: int, month: int)
    ensures DaysIn(year, month) ==
      if month == 2 then (if year % 4 == 0 && (year % 100 != 0 || year % 400 == 0) then 29 else 28)
      else if month == 4 || month == 6 || month == 9 || month == 11 then 30 else 31
  {
  }
}
