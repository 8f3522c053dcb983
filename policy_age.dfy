/**
 * The policy-age rule of `age` in src/data/data_preprocessing.py: whole years
 * elapsed between a policy start date and "today". Parsing the timestamp and
 * reading the clock happen outside this module; both dates arrive as
 * (year, month, day) triples.
 */
module PolicyAge {

  /** A calendar date as the parsed timestamp's `.date()` gives it. */
  datatype Date = Date(year: int, month: int, day: int)

  /** Python's tuple comparison `(a.month, a.day) < (b.month, b.day)`: lexicographic. */
  predicate MonthDayBefore(a: Date, b: Date) {
    a.month < b.month || (a.month == b.month && a.day < b.day)
  }

  /** Calendar order on (year, month, day), lexicographic. */
  predicate OnOrBefore(a: Date, b: Date) {
    a.year < b.year || (a.year == b.year && !MonthDayBefore(b, a))
  }

  /** The date `k` years after `born`, on the same month and day (not normalised: 29 February stays 29 February). */
  function Anniversary(born: Date, k: int): Date {
    Date(born.year + k, born.month, born.day)
  }

  /**
   * The year difference, less one while this year's anniversary is still ahead.
   * The result is the number of whole years elapsed: the r-th anniversary has
   * been reached and the (r+1)-th has not.
   */
  function Age(born: Date, today: Date): (r: int)
    ensures OnOrBefore(Anniversary(born, r), today)
    ensures !OnOrBefore(Anniversary(born, r + 1), today)
    ensures r == today.year - born.year <==> !MonthDayBefore(today, born)
    ensures r == today.year - born.year - 1 <==> MonthDayBefore(today, born)
  {
    today.year - born.year - (if MonthDayBefore(today, born) then 1 else 0)
  }

  /** Whole years elapsed is unique: only `Age` has the anniversary property. */
  lemma AgeIsUnique(born: Date, today: Date, k: int)
    requires OnOrBefore(Anniversary(born, k), today)
    requires !OnOrBefore(Anniversary(born, k + 1), today)
    ensures k == Age(born, today)
  {
  }

  /** The age is one of the two values the year difference allows. */
  lemma AgeBounds(born: Date, today: Date)
    ensures today.year - born.year - 1 <= Age(born, today) <= today.year - born.year
  {
  }

  /** The age is non-negative exactly when the start date is not in the future. */
  lemma AgeNonNegativeIff(born: Date, today: Date)
    ensures Age(born, today) >= 0 <==> OnOrBefore(born, today)
  {
  }

  /** On the n-th anniversary itself the age is n; one day short of it, n - 1. */
  lemma AgeOnAnniversary(born: Date, n: int)
    ensures Age(born, Anniversary(born, n)) == n
    ensures born.day > 1 ==> Age(born, Date(born.year + n, born.month, born.day - 1)) == n - 1
  {
  }

  /** Age never decreases as "today" moves forward. */
  lemma AgeMonotone(born: Date, t1: Date, t2: Date)
    requires OnOrBefore(t1, t2)
    ensures Age(born, t1) <= Age(born, t2)
  {
  }
}
