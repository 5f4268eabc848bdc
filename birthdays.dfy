/** The birthday helpers of the frontend: whether a user's birthday falls in
    the highlight window around today, and the date of the next birthday.
    "Today" is a parameter; a date of birth is a `YYYY-MM-DD` string whose year
    is ignored. */
module Birthdays {
  import opened Types
  import opened Calendar
  import opened DateStrings

  /** A date of birth whose month and day read as numbers and name a real day
      of `year` (29 February only in a leap year). */
  predicate FitsYear(dateString: string, year: int) {
    var md := ParseMonthDay(dateString);
    md.Some? && Valid(Date(year, md.value.0, md.value.1))
  }

  /** The day in `year` with the birth month and day of `dateString`. */
  function Occurrence(dateString: string, year: int): (d: Date)
    requires FitsYear(dateString, year)
    ensures Valid(d) && d.year == year
  {
    var (month, day) := ParseMonthDay(dateString).value;
    Date(year, month, day)
  }

  /** Whether `user`'s birthday is highlighted on `today`: never without a
      date of birth; otherwise when this year's occurrence of the birthday is
      0 to 6 days ahead of today or 0 to 2 days behind it. */
  function IsBirthday(user: User, today: Date): (r: bool)
    requires Valid(today)
    requires user.dateOfBirth != "" ==> FitsYear(user.dateOfBirth, today.year)
    ensures user.dateOfBirth == "" ==> !r
  {
    if user.dateOfBirth == "" then false
    else
      var birthDateThisYear := Occurrence(user.dateOfBirth, today.year);
      var daysUntilBirthday := DayNumber(birthDateThisYear) - DayNumber(today);
      var daysAfterBirthday := DayNumber(today) - DayNumber(birthDateThisYear);
      (0 <= daysUntilBirthday <= 6) || (0 <= daysAfterBirthday <= 2)
  }

  /** The highlight window, from two days before to six days after the
      birthday, both ends included. */
  lemma IsBirthdayWindow(user: User, today: Date)
    requires Valid(today) && user.dateOfBirth != "" && FitsYear(user.dateOfBirth, today.year)
    ensures IsBirthday(user, today) <==>
      -2 <= DayNumber(Occurrence(user.dateOfBirth, today.year)) - DayNumber(today) <= 6
  {
  }

  /** Only the month and day of the date of birth matter: two users whose
      dates of birth share them (whatever else differs) are highlighted alike. */
  lemma IsBirthdayIgnoresYear(u: User, v: User, today: Date)
    requires Valid(today)
    requires u.dateOfBirth != "" && FitsYear(u.dateOfBirth, today.year)
    requires v.dateOfBirth != "" && ParseMonthDay(v.dateOfBirth) == ParseMonthDay(u.dateOfBirth)
    ensures IsBirthday(u, today) == IsBirthday(v, today)
  {
  }

  /** A birthday that falls on today is highlighted, and so is one on any
      day from two before to six after it, as dates of `YYYY-MM-DD` strings. */
  lemma IsBirthdayOnIsoDates(u: User, birth: Date, today: Date)
    requires Valid(today) && 0 <= birth.year < 10000 && Valid(Date(today.year, birth.month, birth.day))
    requires u.dateOfBirth == FormatDate(birth)
    ensures FitsYear(u.dateOfBirth, today.year)
    ensures birth.month == today.month && birth.day == today.day ==> IsBirthday(u, today)
    ensures IsBirthday(u, today) <==>
      -2 <= DayNumber(Date(today.year, birth.month, birth.day)) - DayNumber(today) <= 6
  {
    ParseFormatDate(birth);
    assert ParseMonthDay(u.dateOfBirth) == Some((birth.month, birth.day));
    assert u.dateOfBirth != "";
  }

  /** The window never reaches into another year: on 30 December a birthday
      on 1 January is not highlighted, although the next one is two days off. */
  lemma NoWrapAtNewYear(u: User, year: int)
    requires u.dateOfBirth != "" && ParseMonthDay(u.dateOfBirth) == Some((1, 1))
    ensures !IsBirthday(u, Date(year, 12, 30))
    ensures DayNumber(Date(year + 1, 1, 1)) - DayNumber(Date(year, 12, 30)) == 2
  {
    assert Occurrence(u.dateOfBirth, year) == Date(year, 1, 1);
    YearStep(year);
  }

  /** The date `getNextBirthday` settles on: this year's occurrence of the
      birthday, or, when that is already past, the one a year on as dayjs's
      `add(1, "year")` gives it. */
  function NextOccurrence(dateString: string, today: Date): Date
    requires Valid(today) && FitsYear(dateString, today.year)
  {
    var thisYear := Occurrence(dateString, today.year);
    if Before(thisYear, today) then AddYears(thisYear, 1) else thisYear
  }

  /** Computes the next birthday the way the frontend does: start from this
      year's occurrence and move it a year on if it is before today. */
  method GetNextBirthday(dateString: string, today: Date) returns (birthDate: Date)
    requires Valid(today) && FitsYear(dateString, today.year)
    ensures birthDate == NextOccurrence(dateString, today)
    ensures Valid(birthDate) && !Before(birthDate, today)
  {
    var (month, day) := ParseMonthDay(dateString).value;
    birthDate := Date(today.year, month, day);
    if Before(birthDate, today) {
      birthDate := AddYears(birthDate, 1);
    }
  }

  /** The next birthday is today or later, at most 365 days ahead; it is in
      this year exactly when this year's occurrence is not past, and it keeps
      the birth month and day (29 February becomes 28 February in a common
      year). */
  lemma NextOccurrenceBounds(dateString: string, today: Date)
    requires Valid(today) && FitsYear(dateString, today.year)
    ensures var r := NextOccurrence(dateString, today);
      var (month, day) := ParseMonthDay(dateString).value;
      && Valid(r)
      && !Before(r, today)
      && 0 <= DayNumber(r) - DayNumber(today) <= 365
      && (r.year == today.year <==> !Before(Date(today.year, month, day), today))
      && (r.year == today.year || r.year == today.year + 1)
      && r.month == month
      && (r.day == day || (month == 2 && day == 29 && r.day == 28 && !IsLeapYear(r.year)))
  {
    var thisYear := Occurrence(dateString, today.year);
    var r := NextOccurrence(dateString, today);
    DayNumberOrder(r, today);
    if Before(thisYear, today) {
      DayNumberOrder(thisYear, today);
      AddYearDays(thisYear);
    } else {
      assert DayNumber(r) - DayNumber(today) <= 365 by {
        DayOfYearBounds(r);
        DayOfYearBounds(today);
      }
    }
  }

  /** No birthday on or after today comes earlier than the next birthday: in
      any year where the birth month and day exist and are not past, they fall
      on or after it. */
  lemma NextOccurrenceIsEarliest(dateString: string, today: Date, year: int)
    requires Valid(today) && FitsYear(dateString, today.year) && FitsYear(dateString, year)
    requires !Before(Occurrence(dateString, year), today)
    ensures !Before(Occurrence(dateString, year), NextOccurrence(dateString, today))
    ensures DayNumber(NextOccurrence(dateString, today)) <= DayNumber(Occurrence(dateString, year))
  {
    var r := NextOccurrence(dateString, today);
    var o := Occurrence(dateString, year);
    DayNumberOrder(o, r);
  }

  /** A highlighted birthday that is still ahead is the next birthday, at
      most six days away; one two days past or less is followed by next
      year's. */
  lemma IsBirthdayAndNext(user: User, today: Date)
    requires Valid(today) && user.dateOfBirth != "" && FitsYear(user.dateOfBirth, today.year)
    requires IsBirthday(user, today)
    ensures var thisYear := Occurrence(user.dateOfBirth, today.year);
      var next := NextOccurrence(user.dateOfBirth, today);
      if Before(thisYear, today) then next.year == today.year + 1 && DayNumber(today) - DayNumber(thisYear) <= 2
      else next == thisYear && DayNumber(next) - DayNumber(today) <= 6
  {
    var thisYear := Occurrence(user.dateOfBirth, today.year);
    DayNumberOrder(thisYear, today);
  }
}
