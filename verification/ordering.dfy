/**
 * The ordering both versions of Birthday.compareTo implement once the two
 * birthday dates are known: birthdays still to come this year (today
 * included) first, birthdays already passed after them, and within each
 * side by month/day and then by display name. Rank is an independent
 * reference definition of that order, and the lemmas here show compareTo
 * agrees with it and is therefore a total preorder, as Collections.sort
 * requires.
 */
module BirthdayOrdering {
  import opened JavaLang
  import opened Calendar

  /** getSign: +1 for a non-negative value (0 included), -1 otherwise. */
  function GetSign(value: int): (r: int)
    ensures r == 1 || r == -1
    ensures r == 1 <==> value >= 0
  {
    if value >= 0 then 1 else -1
  }

  /** compareTo once both birthdayDate fields are set, with the TODAY of the receiver. */
  function CompareDated(d1: MonthDay, n1: string, d2: MonthDay, n2: string, today: MonthDay): int {
    if GetSign(CompareMonthDay(d1, today)) == GetSign(CompareMonthDay(d2, today)) then
      var birthdayCompare := CompareMonthDay(d1, d2);
      if birthdayCompare != 0 then birthdayCompare else StringCompareTo(n1, n2)
    else if IsBefore(d1, today) then 1
    else -1
  }

  // ---------------------------------------------------------------------------
  // The reference order
  // ---------------------------------------------------------------------------

  /** Position of a birthday in the display order, compared field by field. */
  datatype Rank = Rank(group: int, month: int, day: int, name: string)

  /** Groups in display order: a missing date first, then upcoming, then passed. */
  const UNDATED: int := 0
  const UPCOMING: int := 1
  const PASSED: int := 2

  function DatedRank(d: MonthDay, name: string, today: MonthDay): Rank {
    Rank(if IsBefore(d, today) then PASSED else UPCOMING, d.month, d.day, name)
  }

  /** Lexicographic comparison of ranks, -1, 0 or 1. */
  function RankCompare(a: Rank, b: Rank): int {
    if a.group != b.group then (if a.group < b.group then -1 else 1)
    else if a.month != b.month then (if a.month < b.month then -1 else 1)
    else if a.day != b.day then (if a.day < b.day then -1 else 1)
    else Sign(StringCompareTo(a.name, b.name))
  }

  /** compareTo on dated birthdays is the rank order. */
  lemma CompareDatedIsRankOrder(d1: MonthDay, n1: string, d2: MonthDay, n2: string, today: MonthDay)
    ensures Sign(CompareDated(d1, n1, d2, n2, today))
         == RankCompare(DatedRank(d1, n1, today), DatedRank(d2, n2, today))
  {
  }

  lemma RankCompareSwap(a: Rank, b: Rank)
    ensures RankCompare(a, b) == -RankCompare(b, a)
  {
    StringCompareToSwap(a.name, b.name);
  }

  lemma RankCompareZero(a: Rank, b: Rank)
    ensures RankCompare(a, b) == 0 <==> a == b
  {
    StringCompareToZero(a.name, b.name);
  }

  /** The rank order is transitive, strictly so when either step is strict. */
  lemma RankCompareTransitive(a: Rank, b: Rank, c: Rank)
    requires RankCompare(a, b) <= 0 && RankCompare(b, c) <= 0
    ensures RankCompare(a, c) <= 0
    ensures RankCompare(a, b) < 0 || RankCompare(b, c) < 0 ==> RankCompare(a, c) < 0
  {
    RankCompareZero(a, b);
    RankCompareZero(b, c);
    if a.group == b.group == c.group && a.month == b.month == c.month && a.day == b.day == c.day
       && RankCompare(a, b) < 0 && RankCompare(b, c) < 0
    {
      StringCompareToTransitive(a.name, b.name, c.name);
    }
  }

  // ---------------------------------------------------------------------------
  // What compareTo promises
  // ---------------------------------------------------------------------------

  /** A birthday on the same date as today is upcoming, never passed. */
  lemma TodayIsUpcoming(today: MonthDay)
    ensures GetSign(CompareMonthDay(today, today)) == 1
    ensures DatedRank(today, "", today).group == UPCOMING
  {
  }

  /** Between sides, the passed birthday sorts after the upcoming one, whatever the names. */
  lemma PassedSortsLast(passed: MonthDay, n1: string, upcoming: MonthDay, n2: string, today: MonthDay)
    requires IsBefore(passed, today) && !IsBefore(upcoming, today)
    ensures CompareDated(passed, n1, upcoming, n2, today) == 1
    ensures CompareDated(upcoming, n2, passed, n1, today) == -1
  {
  }

  /** On the same side, month/day decides, and the display name breaks a tie. */
  lemma SameSideOrder(d1: MonthDay, n1: string, d2: MonthDay, n2: string, today: MonthDay)
    requires IsBefore(d1, today) == IsBefore(d2, today)
    ensures d1 != d2 ==> CompareDated(d1, n1, d2, n2, today) == CompareMonthDay(d1, d2) != 0
    ensures d1 == d2 ==> CompareDated(d1, n1, d2, n2, today) == StringCompareTo(n1, n2)
  {
  }

  /** A birthday compares 0 to itself, and only to a birthday with its date and name. */
  lemma CompareDatedZero(d1: MonthDay, n1: string, d2: MonthDay, n2: string, today: MonthDay)
    ensures CompareDated(d1, n1, d2, n2, today) == 0 <==> d1 == d2 && n1 == n2
  {
    CompareDatedIsRankOrder(d1, n1, d2, n2, today);
    RankCompareZero(DatedRank(d1, n1, today), DatedRank(d2, n2, today));
  }

  /** Antisymmetry as Comparable states it: swapping the operands flips the sign. */
  lemma CompareDatedAntisymmetric(d1: MonthDay, n1: string, d2: MonthDay, n2: string, today: MonthDay)
    ensures Sign(CompareDated(d1, n1, d2, n2, today)) == -Sign(CompareDated(d2, n2, d1, n1, today))
  {
    CompareDatedIsRankOrder(d1, n1, d2, n2, today);
    CompareDatedIsRankOrder(d2, n2, d1, n1, today);
    RankCompareSwap(DatedRank(d1, n1, today), DatedRank(d2, n2, today));
  }
}
