/** The proleptic Gregorian calendar as Python's `datetime.date` implements it.
    A date is a (year, month, day) triple; its day ordinal counts 0001-01-01 as day 1,
    and `date - timedelta(days = k)` is the date whose ordinal is k smaller. */
module Calendar {

  datatype Date = Date(year: int, month: int, day: int)

  const MinYear := 1
  const MaxYear := 9999
  /** Index that `date.weekday()` gives a Sunday (Monday is 0). */
  const Sunday := 6

  predicate IsLeap(y: int) {
    y % 4 == 0 && (y % 100 != 0 || y % 400 == 0)
  }

  function DaysInYear(y: int): int {
    if IsLeap(y) then 366 else 365
  }

  function DaysInMonth(y: int, m: int): (n: int)
    requires 1 <= m <= 12
    ensures 28 <= n <= 31
  {
    if m == 2 then (if IsLeap(y) then 29 else 28)
    else if m == 4 || m == 6 || m == 9 || m == 11 then 30
    else 31
  }

  /** The dates `datetime.date(year, month, day)` accepts without raising ValueError. */
  predicate ValidDate(d: Date) {
    MinYear <= d.year <= MaxYear && 1 <= d.month <= 12 && 1 <= d.day <= DaysInMonth(d.year, d.month)
  }

  function DaysBeforeYear(y: int): int {
    var p := y - 1;
    p * 365 + p / 4 - p / 100 + p / 400
  }

  function DaysBeforeMonth(y: int, m: int): int
    requires 1 <= m <= 12
  {
    var table := [0, 31, 59, 90, 120, 151, 181, 212, 243, 273, 304, 334];
    table[m - 1] + (if m > 2 && IsLeap(y) then 1 else 0)
  }

  /** `date.toordinal()`. */
  function ToOrdinal(d: Date): int
    requires 1 <= d.month <= 12
  {
    DaysBeforeYear(d.year) + DaysBeforeMonth(d.year, d.month) + d.day
  }

  /** `date.weekday()` of the date with ordinal `o`: Monday is 0, Sunday is 6. */
  function Weekday(o: int): int {
    (o + 6) % 7
  }

  /** Going back one day more than the weekday index, and then whole weeks, lands on a Sunday. */
  lemma PreviousSunday(t: int, i: nat)
    ensures 0 <= Weekday(t) < 7
    ensures Weekday(t - (Weekday(t) + 1 + 7 * i)) == Sunday
  {
    var q := (t + 6) / 7;
    assert t + 6 == 7 * q + Weekday(t);
    assert t - (Weekday(t) + 1 + 7 * i) + 6 == 7 * (q - i - 1) + 6;
  }

  /** `d.replace(day=1)`. */
  function FirstOfMonth(d: Date): Date {
    d.(day := 1)
  }

  /** Microseconds in one day: `timedelta.days` is a difference of instants floor-divided by this. */
  const DayMicros := 86_400_000_000

  /** A naive `datetime` as microseconds since 0001-01-01T00:00:00. */
  function Instant(d: Date, hour: int, minute: int, second: int, micro: int): int
    requires 1 <= d.month <= 12
  {
    ((ToOrdinal(d) - 1) * 86400 + hour * 3600 + minute * 60 + second) * 1_000_000 + micro
  }

  /** No valid date and time of day comes before 0001-01-01T00:00:00. */
  lemma InstantNonNegative(d: Date, hour: nat, minute: nat, second: nat, micro: nat)
    requires ValidDate(d)
    ensures Instant(d, hour, minute, second, micro) >= 0
  {
    var p := d.year - 1;
    assert p / 100 <= p;
    assert DaysBeforeYear(d.year) >= 0;
    var seconds := (ToOrdinal(d) - 1) * 86400 + hour * 3600 + minute * 60 + second;
    assert seconds >= 0;
    assert seconds * 1_000_000 >= 0;
  }

  /** Lexicographic order on (year, month, day), the order Python's date comparison uses. */
  predicate Before(a: Date, b: Date) {
    a.year < b.year || (a.year == b.year && (a.month < b.month || (a.month == b.month && a.day < b.day)))
  }

  /** Euclidean division is determined by its defining equation. */
  lemma DivisionUnique(x: int, k: int, q: int, r: int)
    requires k > 0 && 0 <= r < k && x == k * q + r
    ensures x / k == q && x % k == r
  {
    var q', r' := x / k, x % k;
    assert k * q + r == k * q' + r';
    if q > q' {
      assert k * (q - q') == r' - r;
      ProductAtLeast(k, q - q');
    } else if q < q' {
      assert k * (q' - q) == r - r';
      ProductAtLeast(k, q' - q);
    }
  }

  lemma {:induction false} ProductAtLeast(k: int, d: int)
    requires k > 0 && d >= 1
    ensures k * d >= k
    decreases d
  {
    if d > 1 {
      ProductAtLeast(k, d - 1);
      assert k * d == k * (d - 1) + k;
    }
  }

  /** Incrementing a number raises its quotient by `k` by one exactly when the new value is a
      multiple of `k`, and leaves it unchanged otherwise. */
  lemma QuotientStep(p: int, k: int)
    requires k > 0
    ensures (p + 1) / k == p / k + (if (p + 1) % k == 0 then 1 else 0)
  {
    var q, r := p / k, p % k;
    if r + 1 == k {
      DivisionUnique(p + 1, k, q + 1, 0);
    } else {
      DivisionUnique(p + 1, k, q, r + 1);
    }
  }

  /** A multiple of 400 is a multiple of 100, and a multiple of 100 a multiple of 4. */
  lemma DivisorChain(x: int)
    ensures x % 400 == 0 ==> x % 100 == 0
    ensures x % 100 == 0 ==> x % 4 == 0
  {
    if x % 400 == 0 {
      MultipleOf(x, 100, x / 400 * 4);
    }
    if x % 100 == 0 {
      MultipleOf(x, 4, x / 100 * 25);
    }
  }

  lemma MultipleOf(x: int, k: int, m: int)
    requires k > 0 && x == k * m
    ensures x % k == 0
  {
    DivisionUnique(x, k, m, 0);
  }

  lemma DaysBeforeYearStep(y: int)
    requires y >= 1
    ensures DaysBeforeYear(y + 1) == DaysBeforeYear(y) + DaysInYear(y)
  {
    QuotientStep(y - 1, 4);
    QuotientStep(y - 1, 100);
    QuotientStep(y - 1, 400);
    DivisorChain(y);
    assert DaysBeforeYear(y + 1) - DaysBeforeYear(y) ==
      365 + (if y % 4 == 0 then 1 else 0) - (if y % 100 == 0 then 1 else 0) + (if y % 400 == 0 then 1 else 0);
  }

  lemma {:induction false} DaysBeforeYearMonotone(y1: int, y2: int)
    requires 1 <= y1 < y2
    ensures DaysBeforeYear(y1) + DaysInYear(y1) <= DaysBeforeYear(y2)
    decreases y2 - y1
  {
    DaysBeforeYearStep(y1);
    if y1 + 1 < y2 {
      DaysBeforeYearMonotone(y1 + 1, y2);
    }
  }

  lemma MonthFitsInYear(y: int, m: int)
    requires 1 <= m <= 12
    ensures DaysBeforeMonth(y, m) + DaysInMonth(y, m) <= DaysInYear(y)
    ensures m < 12 ==> DaysBeforeMonth(y, m + 1) == DaysBeforeMonth(y, m) + DaysInMonth(y, m)
    ensures m == 12 ==> DaysBeforeMonth(y, m) + DaysInMonth(y, m) == DaysInYear(y)
  {
  }

  lemma {:induction false} MonthsDisjoint(y: int, m1: int, m2: int)
    requires 1 <= m1 < m2 <= 12
    ensures DaysBeforeMonth(y, m1) + DaysInMonth(y, m1) <= DaysBeforeMonth(y, m2)
    decreases m2 - m1
  {
    MonthFitsInYear(y, m1);
    if m1 + 1 < m2 {
      MonthsDisjoint(y, m1 + 1, m2);
    }
  }

  /** The day ordinal is strictly increasing in calendar order on valid dates. */
  lemma OrdinalMonotone(a: Date, b: Date)
    requires ValidDate(a) && ValidDate(b) && Before(a, b)
    ensures ToOrdinal(a) < ToOrdinal(b)
  {
    MonthFitsInYear(a.year, a.month);
    if a.year < b.year {
      DaysBeforeYearMonotone(a.year, b.year);
    } else if a.month < b.month {
      MonthsDisjoint(a.year, a.month, b.month);
    }
  }

  /** Two valid dates are equal exactly when their ordinals are. */
  lemma OrdinalInjective(a: Date, b: Date)
    requires ValidDate(a) && ValidDate(b) && ToOrdinal(a) == ToOrdinal(b)
    ensures a == b
  {
    if Before(a, b) {
      OrdinalMonotone(a, b);
    } else if Before(b, a) {
      OrdinalMonotone(b, a);
    }
  }

  /** Comparing ordinals of valid dates is comparing the dates. */
  lemma OrdinalReflectsOrder(a: Date, b: Date)
    requires ValidDate(a) && ValidDate(b)
    ensures ToOrdinal(a) < ToOrdinal(b) <==> Before(a, b)
  {
    if Before(a, b) {
      OrdinalMonotone(a, b);
    } else if Before(b, a) {
      OrdinalMonotone(b, a);
    }
  }

  /** The last day of the month before `d`'s month. */
  function PrevMonthEnd(d: Date): (p: Date)
    requires ValidDate(d) && ToOrdinal(d) > d.day
    ensures ValidDate(p) && ToOrdinal(p) == ToOrdinal(d) - d.day
  {
    if d.month == 1 then
      DaysBeforeYearStep(d.year - 1);
      MonthFitsInYear(d.year - 1, 12);
      Date(d.year - 1, 12, 31)
    else
      MonthFitsInYear(d.year, d.month - 1);
      Date(d.year, d.month - 1, DaysInMonth(d.year, d.month - 1))
  }

  /** `d - timedelta(days = k)`, walking back one month at a time; `k` must keep the result at or
      after 0001-01-01 (Python raises OverflowError otherwise). */
  function SubDays(d: Date, k: int): (r: Date)
    requires ValidDate(d) && 0 <= k < ToOrdinal(d)
    ensures ValidDate(r) && ToOrdinal(r) == ToOrdinal(d) - k
    decreases k
  {
    if k < d.day then d.(day := d.day - k)
    else SubDays(PrevMonthEnd(d), k - d.day)
  }
}
