/** Calendar days and the whole-years age rule that both validators compute
    from `getFullYear`, `getMonth` and `getDate`. */
module Calendar {

  /** A calendar day: the year, the month counted from 1 and the day of the
      month. `getMonth` counts months from 0; the age rule only subtracts
      months, so the offset does not matter. */
  datatype Date = Date(year: int, month: int, day: int)

  /** A leap year of the proleptic Gregorian calendar, which JavaScript's
      `Date` follows. */
  predicate IsLeapYear(year: int) {
    year % 4 == 0 && (year % 100 != 0 || year % 400 == 0)
  }

  /** The number of days in a month of a year (month counted from 1). */
  function DaysInMonth(year: int, month: int): int {
    if month == 2 then (if IsLeapYear(year) then 29 else 28)
    else if month == 4 || month == 6 || month == 9 || month == 11 then 30
    else 31
  }

  /** A day that exists: `new Date(year, month - 1, day)` would keep exactly
      these fields. A triple that is not one (29 February of a common year,
      say) is rolled over by JavaScript into the next month. */
  predicate IsCalendarDay(d: Date) {
    1 <= d.month <= 12 && 1 <= d.day <= DaysInMonth(d.year, d.month)
  }

  /** `a` is the same day as `b` or an earlier one. */
  predicate OnOrBefore(a: Date, b: Date) {
    a.year < b.year
    || (a.year == b.year && (a.month < b.month || (a.month == b.month && a.day <= b.day)))
  }

  /** The real day after `d`: what `new Date(y, m, d + 1)` rolls over to past
      the end of a month or of a year. */
  function NextDay(d: Date): (r: Date)
    requires IsCalendarDay(d)
    ensures IsCalendarDay(r) && OnOrBefore(d, r) && r != d
    ensures forall e :: IsCalendarDay(e) && OnOrBefore(d, e) && e != d ==> OnOrBefore(r, e)
  {
    if d.day < DaysInMonth(d.year, d.month) then Date(d.year, d.month, d.day + 1)
    else if d.month < 12 then Date(d.year, d.month + 1, 1)
    else Date(d.year + 1, 1, 1)
  }

  /** The age in whole years on `today` of someone born on `birth`: the year
      difference, less one when today's month is earlier than the birth month,
      or is the same month with an earlier day. */
  function AgeOn(birth: Date, today: Date): int {
    var age := today.year - birth.year;
    var monthDiff := today.month - birth.month;
    var dayDiff := today.day - birth.day;
    if monthDiff < 0 || (monthDiff == 0 && dayDiff < 0) then age - 1 else age
  }

  /** The `n`-th anniversary of `birth`: the same month and day, `n` years on.
      For a 29 February birth in a year without that day, no real day lies
      between 28 February and this anniversary and 1 March. */
  function Anniversary(birth: Date, n: int): Date {
    Date(birth.year + n, birth.month, birth.day)
  }

  /** `n` anniversaries of `birth` have been reached by `today` and the next
      one has not: `n` is the number of whole years lived. */
  predicate CompletedYears(birth: Date, n: int, today: Date) {
    OnOrBefore(Anniversary(birth, n), today) && !OnOrBefore(Anniversary(birth, n + 1), today)
  }

  /** At most one count of whole years fits a birth and a day. */
  lemma CompletedYearsUnique(birth: Date, n: int, m: int, today: Date)
    requires CompletedYears(birth, n, today) && CompletedYears(birth, m, today)
    ensures n == m
  {
  }

  /** The age is the number of anniversaries reached. */
  lemma AgeIsCompletedYears(birth: Date, today: Date)
    ensures CompletedYears(birth, AgeOn(birth, today), today)
  {
  }

  /** Someone is at least `n` years old exactly when their `n`-th anniversary
      has been reached. */
  lemma AgeAtLeast(birth: Date, today: Date, n: int)
    ensures AgeOn(birth, today) >= n <==> OnOrBefore(Anniversary(birth, n), today)
  {
    AgeIsCompletedYears(birth, today);
  }

  /** The age is negative exactly for a birth after today. */
  lemma AgeNegativeIffFuture(birth: Date, today: Date)
    ensures AgeOn(birth, today) < 0 <==> !OnOrBefore(birth, today)
  {
    AgeAtLeast(birth, today, 0);
    assert Anniversary(birth, 0) == birth;
  }

  /** A later birth never gives a greater age. */
  lemma AgeAntitone(earlier: Date, later: Date, today: Date)
    requires OnOrBefore(earlier, later)
    ensures AgeOn(later, today) <= AgeOn(earlier, today)
  {
  }

  /** Born exactly eighteen years before today: age 18. Born any later day:
      less than 18. */
  lemma EighteenthBirthday(today: Date, birth: Date)
    ensures AgeOn(Anniversary(today, -18), today) == 18
    ensures AgeOn(birth, today) >= 18 <==> OnOrBefore(birth, Anniversary(today, -18))
  {
    AgeAtLeast(birth, today, 18);
  }

  /** Every day but 29 February has a day with the same month and day
      eighteen years earlier. */
  lemma EighteenYearsBackExists(today: Date)
    requires IsCalendarDay(today) && !(today.month == 2 && today.day == 29)
    ensures IsCalendarDay(Anniversary(today, -18))
  {
    if today.month == 2 {
      assert today.day <= 28;
    }
  }

  /** Eighteen years before a leap year is a common year: 29 February has no
      day with the same month and day eighteen years earlier. */
  lemma LeapDayHasNoEighteenYearsBack(year: int)
    requires IsLeapYear(year)
    ensures IsCalendarDay(Date(year, 2, 29))
    ensures !IsCalendarDay(Anniversary(Date(year, 2, 29), -18))
  {
    assert (year - 18) % 4 == 2;
  }

  /** A 29 February birth in a later year without that day: the age grows on
      1 March, not on 28 February. */
  lemma LeapDayBirthday(birth: Date, year: int)
    requires birth.month == 2 && birth.day == 29 && year > birth.year
    ensures AgeOn(birth, Date(year, 2, 28)) == year - birth.year - 1
    ensures AgeOn(birth, Date(year, 3, 1)) == year - birth.year
  {
  }
}
