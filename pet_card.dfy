/**
 * The derived values of frontend/src/components/pets/PetCard.tsx: the age shown for
 * a birth date, and the gender label. The dates are given as `Date`'s year, month
 * (0-11) and day of month; parsing the string and reading today's clock are left out.
 */
module PetCard {

  datatype CalendarDate = CalendarDate(year: int, month: int, day: int)

  /** `a` is on or before `b` in the calendar (year, then month, then day). */
  predicate NotAfter(a: CalendarDate, b: CalendarDate)
  {
    a.year < b.year ||
    (a.year == b.year && (a.month < b.month || (a.month == b.month && a.day <= b.day)))
  }

  /** The date `n` years after `d`, on the same month and day. */
  function YearsLater(d: CalendarDate, n: int): CalendarDate
  {
    d.(year := d.year + n)
  }

  /**
   * `calculateAge`: the year difference, less one when today's month is earlier than
   * the birth month, or the same month with an earlier day. So the age is the number
   * of birthdays reached: the `age`-th anniversary is not after today, the next one is.
   */
  function CalculateAge(birth: CalendarDate, today: CalendarDate): (age: int)
    ensures NotAfter(YearsLater(birth, age), today)
    ensures !NotAfter(YearsLater(birth, age + 1), today)
  {
    var age := today.year - birth.year;
    var monthDiff := today.month - birth.month;
    if monthDiff < 0 || (monthDiff == 0 && today.day < birth.day) then age - 1 else age
  }

  /** Only one age satisfies the anniversary property: it is an independent definition. */
  lemma {:induction false} AgeIsUnique(birth: CalendarDate, today: CalendarDate, n: int)
    requires NotAfter(YearsLater(birth, n), today)
    requires !NotAfter(YearsLater(birth, n + 1), today)
    ensures n == CalculateAge(birth, today)
  {
  }

  /** On the birthday the full year difference is shown. */
  lemma FullYearsOnBirthday(birth: CalendarDate, today: CalendarDate)
    requires today.month == birth.month && today.day == birth.day
    ensures CalculateAge(birth, today) == today.year - birth.year
  {
  }

  /** After the birth month the day of the month does not matter. */
  lemma DayIgnoredAfterBirthMonth(birth: CalendarDate, today: CalendarDate, otherDay: int)
    requires today.month > birth.month
    ensures CalculateAge(birth, today) == today.year - birth.year
    ensures CalculateAge(birth, today.(day := otherDay)) == CalculateAge(birth, today)
  {
  }

  /** There is no clamping: the age is negative exactly when the birth date is after today. */
  lemma NegativeIffBornAfterToday(birth: CalendarDate, today: CalendarDate)
    ensures CalculateAge(birth, today) < 0 <==> !NotAfter(birth, today)
  {
  }

  const MaleLabel: string := "Мальчик"
  const FemaleLabel: string := "Девочка"

  /** The gender chip: 'male' reads Мальчик, any other value Девочка. */
  function GenderLabel(gender: string): (shown: string)
    ensures shown == MaleLabel <==> gender == "male"
    ensures shown == MaleLabel || shown == FemaleLabel
  {
    if gender == "male" then MaleLabel else FemaleLabel
  }
}
