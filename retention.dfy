/** The calendar retention rule of `should_delete` in script.py: a backup dated `d` is kept when it
    is recent, falls on one of the last `n` Sundays before today, or is one of `n` first-of-month
    anchors taken 30 days apart; every other backup is deleted. */
module Retention {
  import opened Wrappers
  import opened Calendar
  import opened Strptime

  /** `len(range(n))`: a negative RETENTION gives no anchors. */
  function AnchorCount(n: int): nat {
    if n < 0 then 0 else n
  }

  /** Every anchor stays at or after 0001-01-01, where Python would raise OverflowError. */
  predicate AnchorsInRange(today: Date, n: int) {
    ValidDate(today)
    && (AnchorCount(n) == 0
        || (Weekday(ToOrdinal(today)) + 1 + 7 * (AnchorCount(n) - 1) < ToOrdinal(today)
            && 30 * (AnchorCount(n) - 1) < ToOrdinal(FirstOfMonth(today))))
  }

  /** `(today - d).days`. */
  function DaysBetween(d: Date, today: Date): (r: int)
    requires 1 <= d.month <= 12 && 1 <= today.month <= 12
    ensures d == today ==> r == 0
  {
    ToOrdinal(today) - ToOrdinal(d)
  }

  /** Between two real dates the day count is positive exactly when the file date comes first, and
      zero exactly when the two are the same date. */
  lemma DaysBetweenSign(d: Date, today: Date)
    requires ValidDate(d) && ValidDate(today)
    ensures DaysBetween(d, today) > 0 <==> Before(d, today)
    ensures DaysBetween(d, today) == 0 <==> d == today
  {
    OrdinalReflectsOrder(d, today);
    OrdinalReflectsOrder(today, d);
  }

  /** Weekly anchor `i`, `today - timedelta(days=today.weekday() + 1 + 7 * i)`: the Sunday of the
      i-th full week before today. */
  function WeeklyAnchor(today: Date, i: nat): (a: Date)
    requires ValidDate(today) && Weekday(ToOrdinal(today)) + 1 + 7 * i < ToOrdinal(today)
    ensures ValidDate(a) && Weekday(ToOrdinal(a)) == Sunday
    ensures 7 * i < DaysBetween(a, today) <= 7 * (i + 1)
  {
    PreviousSunday(ToOrdinal(today), i);
    SubDays(today, Weekday(ToOrdinal(today)) + 1 + 7 * i)
  }

  /** The `sundays` list. */
  function WeeklyAnchors(today: Date, n: int): (anchors: seq<Date>)
    requires AnchorsInRange(today, n)
    ensures |anchors| == AnchorCount(n)
    ensures forall i :: 0 <= i < |anchors| ==>
              ValidDate(anchors[i]) && Weekday(ToOrdinal(anchors[i])) == Sunday
              && 7 * i < DaysBetween(anchors[i], today) <= 7 * (i + 1)
  {
    seq(AnchorCount(n), i requires 0 <= i < AnchorCount(n) => WeeklyAnchor(today, i))
  }

  /** Monthly anchor `i`, `(today.replace(day=1) - timedelta(days=30 * i)).replace(day=1)`: the first
      of the month that holds the day 30·i days before the first of today's month. */
  function MonthlyAnchor(today: Date, i: nat): (a: Date)
    requires ValidDate(today) && 30 * i < ToOrdinal(FirstOfMonth(today))
    ensures ValidDate(a) && a.day == 1
    ensures ToOrdinal(a) <= ToOrdinal(FirstOfMonth(today)) - 30 * i < ToOrdinal(a) + DaysInMonth(a.year, a.month)
  {
    FirstOfMonth(SubDays(FirstOfMonth(today), 30 * i))
  }

  /** The `first_days` list. */
  function MonthlyAnchors(today: Date, n: int): (anchors: seq<Date>)
    requires AnchorsInRange(today, n)
    ensures |anchors| == AnchorCount(n)
    ensures forall i :: 0 <= i < |anchors| ==>
              ValidDate(anchors[i]) && anchors[i].day == 1
              && ToOrdinal(anchors[i]) <= ToOrdinal(FirstOfMonth(today)) - 30 * i
              && ToOrdinal(FirstOfMonth(today)) - 30 * i < ToOrdinal(anchors[i]) + DaysInMonth(anchors[i].year, anchors[i].month)
    ensures |anchors| > 0 ==> anchors[0] == FirstOfMonth(today)
  {
    seq(AnchorCount(n), i requires 0 <= i < AnchorCount(n) => MonthlyAnchor(today, i))
  }

  /** The decision of `should_delete` once the date has been parsed: no tier keeps `d`. */
  predicate Rejects(d: Date, today: Date, n: int)
    requires ValidDate(d) && AnchorsInRange(today, n)
  {
    !(DaysBetween(d, today) <= n || d in WeeklyAnchors(today, n) || d in MonthlyAnchors(today, n))
  }

  /** `should_delete(file_date)`: None where `strptime` raises ValueError. */
  function ShouldDelete(fileDate: string, today: Date, n: int): Option<bool>
    requires AnchorsInRange(today, n)
  {
    match ParseDate(fileDate)
    case None => None
    case Some(d) => Some(Rejects(d, today, n))
  }

  /** Two Sundays are a whole number of weeks apart: less than a week apart they are the same
      day, and less than two weeks apart they are exactly one week apart. */
  lemma SundaysWholeWeeksApart(o1: int, o2: int)
    requires Weekday(o1) == Sunday && Weekday(o2) == Sunday
    ensures -7 < o1 - o2 < 7 ==> o1 == o2
    ensures 0 < o1 - o2 < 14 ==> o1 - o2 == 7
  {
    assert o1 + 6 == 7 * ((o1 + 6) / 7) + 6;
    assert o2 + 6 == 7 * ((o2 + 6) / 7) + 6;
    assert o1 - o2 == 7 * ((o1 + 6) / 7 - (o2 + 6) / 7);
  }

  /** A date is a weekly anchor exactly when it is a Sunday before today and at most
      7·RETENTION days before it. */
  lemma WeeklyAnchorMembership(d: Date, today: Date, n: int)
    requires ValidDate(d) && AnchorsInRange(today, n)
    ensures d in WeeklyAnchors(today, n) <==>
              Weekday(ToOrdinal(d)) == Sunday && 0 < DaysBetween(d, today) <= 7 * AnchorCount(n)
  {
    var anchors := WeeklyAnchors(today, n);
    var o, t := ToOrdinal(d), ToOrdinal(today);
    if d in anchors {
      var i :| 0 <= i < |anchors| && anchors[i] == d;
      assert 7 * i < t - o <= 7 * (i + 1);
    }
    if Weekday(o) == Sunday && 0 < t - o <= 7 * AnchorCount(n) {
      var j := (t - o - 1) / 7;
      assert 7 * j < t - o <= 7 * (j + 1);
      var a := anchors[j];
      SundaysWholeWeeksApart(o, ToOrdinal(a));
      OrdinalInjective(d, a);
    }
  }

  /** The rule in closed form: a date is deleted exactly when it is more than RETENTION days old,
      is not a Sunday within the last 7·RETENTION days, and is not a monthly anchor. */
  lemma RejectsCharacterization(d: Date, today: Date, n: int)
    requires ValidDate(d) && AnchorsInRange(today, n)
    ensures Rejects(d, today, n) <==>
              DaysBetween(d, today) > n
              && !(Weekday(ToOrdinal(d)) == Sunday && 0 < DaysBetween(d, today) <= 7 * AnchorCount(n))
              && d !in MonthlyAnchors(today, n)
  {
    WeeklyAnchorMembership(d, today, n);
  }

  /** The recency tier: a date at most RETENTION days before today, or any later date when
      RETENTION is not negative, is kept. */
  lemma RecentIsKept(d: Date, today: Date, n: int)
    requires ValidDate(d) && AnchorsInRange(today, n)
    requires DaysBetween(d, today) <= n || (n >= 0 && !Before(d, today))
    ensures !Rejects(d, today, n)
  {
    OrdinalReflectsOrder(d, today);
  }

  /** Consecutive weekly anchors are exactly one week apart, newest first. */
  lemma WeeklyAnchorsSpacing(today: Date, n: int, i: nat)
    requires AnchorsInRange(today, n) && i + 1 < AnchorCount(n)
    ensures ToOrdinal(WeeklyAnchors(today, n)[i]) - ToOrdinal(WeeklyAnchors(today, n)[i + 1]) == 7
  {
    var anchors := WeeklyAnchors(today, n);
    assert 7 * i < DaysBetween(anchors[i], today) && DaysBetween(anchors[i + 1], today) <= 7 * (i + 2);
    SundaysWholeWeeksApart(ToOrdinal(anchors[i]), ToOrdinal(anchors[i + 1]));
  }

  /** Monthly anchors never move forward: a later index gives the same month or an earlier one. */
  lemma MonthlyAnchorsNonIncreasing(today: Date, n: int, i: nat, j: nat)
    requires AnchorsInRange(today, n) && i < j < AnchorCount(n)
    ensures ToOrdinal(MonthlyAnchors(today, n)[j]) <= ToOrdinal(MonthlyAnchors(today, n)[i])
  {
    var base := FirstOfMonth(today);
    var si, sj := SubDays(base, 30 * i), SubDays(base, 30 * j);
    OrdinalReflectsOrder(sj, si);
    var ai, aj := FirstOfMonth(si), FirstOfMonth(sj);
    assert MonthlyAnchors(today, n)[i] == ai && MonthlyAnchors(today, n)[j] == aj;
    if aj != ai {
      OrdinalReflectsOrder(aj, ai);
    }
  }

  /** With RETENTION 0 both anchor lists are empty, so exactly the dates before today are deleted. */
  lemma ZeroRetention(d: Date, today: Date)
    requires ValidDate(d) && ValidDate(today)
    ensures AnchorsInRange(today, 0)
    ensures Rejects(d, today, 0) <==> Before(d, today)
  {
    OrdinalReflectsOrder(d, today);
  }

  /** Thirty-day steps can land twice in one month: from 2023-03-01, 60 and 90 days back are
      2022-12-31 and 2022-12-01, so anchors 2 and 3 are both 2022-12-01. */
  lemma MonthlyAnchorsRepeat()
    ensures AnchorsInRange(Date(2023, 3, 1), 4)
    ensures MonthlyAnchors(Date(2023, 3, 1), 4)[2] == Date(2022, 12, 1)
    ensures MonthlyAnchors(Date(2023, 3, 1), 4)[3] == Date(2022, 12, 1)
  {
    var today := Date(2023, 3, 1);
    assert SubDays(today, 60) == Date(2022, 12, 31);
    assert SubDays(today, 90) == Date(2022, 12, 1);
  }

  /** The worked example: today = 2024-03-15 (a Friday) and RETENTION = 7. */
  const ExampleToday := Date(2024, 3, 15)
  const ExampleRetention := 7

  /** 2024-03-10 is five days old and kept by the recency tier. */
  lemma ExampleRecent()
    ensures AnchorsInRange(ExampleToday, ExampleRetention)
    ensures DaysBetween(Date(2024, 3, 10), ExampleToday) == 5
    ensures !Rejects(Date(2024, 3, 10), ExampleToday, ExampleRetention)
  {
  }

  /** 2024-02-25, nineteen days old, is the third Sunday back and kept by the weekly tier. */
  lemma ExampleWeekly()
    ensures AnchorsInRange(ExampleToday, ExampleRetention)
    ensures Date(2024, 2, 25) in WeeklyAnchors(ExampleToday, ExampleRetention)
    ensures !Rejects(Date(2024, 2, 25), ExampleToday, ExampleRetention)
  {
    var d := Date(2024, 2, 25);
    assert ToOrdinal(d) == 738941 && ToOrdinal(ExampleToday) == 738960;
    WeeklyAnchorMembership(d, ExampleToday, ExampleRetention);
  }

  /** 2024-01-01 is monthly anchor 1, since 2024-03-01 minus 30 days is 2024-01-31. */
  lemma ExampleMonthly()
    ensures AnchorsInRange(ExampleToday, ExampleRetention)
    ensures MonthlyAnchors(ExampleToday, ExampleRetention)[1] == Date(2024, 1, 1)
    ensures !Rejects(Date(2024, 1, 1), ExampleToday, ExampleRetention)
  {
    assert SubDays(Date(2024, 3, 1), 30) == Date(2024, 1, 31);
    assert MonthlyAnchors(ExampleToday, ExampleRetention)[1] == Date(2024, 1, 1);
  }

  /** 2024-02-01 is deleted: it is a Thursday, 43 days old, and the 30-day steps go from March
      straight to January, so no monthly anchor is in February. */
  lemma ExampleSkippedMonth()
    ensures AnchorsInRange(ExampleToday, ExampleRetention)
    ensures Rejects(Date(2024, 2, 1), ExampleToday, ExampleRetention)
  {
    var feb1 := Date(2024, 2, 1);
    assert ToOrdinal(feb1) == 738917 && ToOrdinal(ExampleToday) == 738960;
    WeeklyAnchorMembership(feb1, ExampleToday, ExampleRetention);
    NoFebruaryAnchor();
  }

  /** The first monthly anchor of the worked example is 2024-03-01 and every later one starts at
      least 30 days before it, so 2024-02-01, 29 days before it, is not among them. */
  lemma NoFebruaryAnchor()
    ensures AnchorsInRange(ExampleToday, ExampleRetention)
    ensures Date(2024, 2, 1) !in MonthlyAnchors(ExampleToday, ExampleRetention)
  {
    var monthly := MonthlyAnchors(ExampleToday, ExampleRetention);
    assert ToOrdinal(FirstOfMonth(ExampleToday)) == 738946 && ToOrdinal(Date(2024, 2, 1)) == 738917;
    forall i | 0 <= i < |monthly| ensures monthly[i] != Date(2024, 2, 1) {
      if i > 0 {
        assert ToOrdinal(monthly[i]) <= 738916;
      }
    }
  }

  /** The worked example end to end, from the file-date text (`2024-03-10` and so on, as
      FormatDate writes it) to the decision. */
  lemma WorkedExample()
    ensures AnchorsInRange(ExampleToday, ExampleRetention)
    ensures ShouldDelete(FormatDate(Date(2024, 3, 10)), ExampleToday, ExampleRetention) == Some(false)
    ensures ShouldDelete(FormatDate(Date(2024, 2, 25)), ExampleToday, ExampleRetention) == Some(false)
    ensures ShouldDelete(FormatDate(Date(2024, 1, 1)), ExampleToday, ExampleRetention) == Some(false)
    ensures ShouldDelete(FormatDate(Date(2024, 2, 1)), ExampleToday, ExampleRetention) == Some(true)
  {
    ExampleRecent();
    ParseFormatDate(Date(2024, 3, 10));
    ExampleWeekly();
    ParseFormatDate(Date(2024, 2, 25));
    ExampleMonthly();
    ParseFormatDate(Date(2024, 1, 1));
    ExampleSkippedMonth();
    ParseFormatDate(Date(2024, 2, 1));
  }
}
