/**
 * Why onUpdateData may stop at the first birthday beyond the limit: along
 * the order compareTo sorts the list into, the day counts never decrease,
 * so every later birthday is beyond the limit too. The one exception is a
 * Feb 29 birthday on March 1st of a common year: it is announced for
 * today, yet sorts with the birthdays already passed.
 */
module AnnounceOrder {
  import opened JavaLang
  import opened Calendar
  import opened BirthdayOrdering
  import opened ExtensionStatus

  /** The day the count of a valid month/day runs to: this year's event, or one year later once it has passed. */
  function NextOccurrence(md: MonthDay, today: Date): (d: Date)
    requires ValidDate(today) && ValidMonthDay(md)
    ensures ValidDate(d) && EntryDaysOf(md, today) == DaysBetween(today, d)
  {
    EventThisYearMeaning(md, today);
    var event := EventThisYear(md, today).value;
    if !DateBefore(event, today) then event else PlusYears(event, 1)
  }

  /** The day count the loop computes for a valid month/day. */
  function EntryDaysOf(md: MonthDay, today: Date): int
    requires ValidDate(today) && ValidMonthDay(md)
  {
    EventThisYearMeaning(md, today);
    DaysUntil(EventThisYear(md, today).value, today)
  }

  /** Today is March 1st of a common year: the day a Feb 29 birthday is celebrated. */
  predicate LeapDayIsToday(today: Date) {
    today.month == 3 && today.day == 1 && !IsLeapYear(today.year)
  }

  /** A birthday the sort puts among the upcoming ones falls in today's year, on or after today. */
  lemma UpcomingOccursThisYear(md: MonthDay, today: Date)
    requires ValidDate(today) && ValidMonthDay(md) && !IsBefore(md, MonthDayOf(today))
    ensures NextOccurrence(md, today).year == today.year
  {
    EventThisYearMeaning(md, today);
  }

  /** A passed birthday, except Feb 29 on March 1st of a common year, next occurs in the following year. */
  lemma PassedOccursNextYear(md: MonthDay, today: Date)
    requires ValidDate(today) && ValidMonthDay(md) && IsBefore(md, MonthDayOf(today))
    requires !(md == FEBRUARY_29 && LeapDayIsToday(today))
    ensures NextOccurrence(md, today).year == today.year + 1
    ensures md != FEBRUARY_29 || IsLeapYear(today.year) ==>
      NextOccurrence(md, today) == PlusYears(Date(today.year, md.month, md.day), 1)
  {
    EventThisYearMeaning(md, today);
  }

  /**
   * Along compareTo's order the next occurrences never go back in time,
   * unless the later birthday is Feb 29 on March 1st of a common year.
   */
  lemma NextOccurrenceFollowsOrder(a: MonthDay, na: string, b: MonthDay, nb: string, today: Date)
    requires ValidDate(today) && ValidMonthDay(a) && ValidMonthDay(b)
    requires CompareDated(a, na, b, nb, MonthDayOf(today)) <= 0
    requires !(a == FEBRUARY_29 && LeapDayIsToday(today)) && !(b == FEBRUARY_29 && LeapDayIsToday(today))
    ensures !DateBefore(NextOccurrence(b, today), NextOccurrence(a, today))
  {
    var t := MonthDayOf(today);
    EventThisYearMeaning(a, today);
    EventThisYearMeaning(b, today);
    if !IsBefore(a, t) && IsBefore(b, t) {
      UpcomingOccursThisYear(a, today);
      PassedOccursNextYear(b, today);
    } else if !IsBefore(a, t) {
      UpcomingOccursThisYear(a, today);
      UpcomingOccursThisYear(b, today);
    } else {
      PassedOccursNextYear(a, today);
      PassedOccursNextYear(b, today);
    }
  }

  /** The day counts follow compareTo's order, unless the later birthday is Feb 29 on March 1st of a common year. */
  lemma DaysFollowOrder(a: MonthDay, na: string, b: MonthDay, nb: string, today: Date)
    requires ValidDate(today) && ValidMonthDay(a) && ValidMonthDay(b)
    requires CompareDated(a, na, b, nb, MonthDayOf(today)) <= 0
    requires !(b == FEBRUARY_29 && LeapDayIsToday(today))
    ensures EntryDaysOf(a, today) <= EntryDaysOf(b, today)
  {
    EventThisYearMeaning(a, today);
    EventThisYearMeaning(b, today);
    DaysUntilBounds(EventThisYear(b, today).value, today);
    if !(a == FEBRUARY_29 && LeapDayIsToday(today)) {
      NextOccurrenceFollowsOrder(a, na, b, nb, today);
      DayNumberOrder(NextOccurrence(a, today), NextOccurrence(b, today));
    }
  }

  /** The order Collections.sort leaves the entries in, with the TODAY of the day the loop runs. */
  predicate SortedEntries(es: seq<Entry>, today: Date) {
    forall i, j :: 0 <= i < j < |es| ==>
      CompareDated(es[i].birthdayDate, es[i].displayName, es[j].birthdayDate, es[j].displayName, MonthDayOf(today)) <= 0
  }

  /** No entry is a Feb 29 birthday celebrated today, March 1st of a common year. */
  predicate NoLeapDayToday(es: seq<Entry>, today: Date) {
    forall i :: 0 <= i < |es| ==> !(es[i].birthdayDate == FEBRUARY_29 && LeapDayIsToday(today))
  }

  // ---------------------------------------------------------------------------
  // The birthdays within the limit
  // ---------------------------------------------------------------------------

  /**
   * Every birthday of the list within the limit, in list order: what the
   * loop is meant to announce.
   */
  function Announced(es: seq<Entry>, today: Date, daysLimit: int): (r: seq<Shown>)
    requires ValidDate(today) && AllValid(es)
    ensures |r| <= |es|
  {
    if es == [] then []
    else
      var days := EntryDaysOf(es[0].birthdayDate, today);
      (if days <= daysLimit then [Shown(es[0], days)] else []) + Announced(es[1..], today, daysLimit)
  }

  /** A birthday is announced exactly when its day count is within the limit, with that count. */
  lemma {:induction false} AnnouncedIsWithinLimit(es: seq<Entry>, today: Date, daysLimit: int)
    requires ValidDate(today) && AllValid(es)
    ensures forall e :: e in es ==>
      (Shown(e, EntryDaysOf(e.birthdayDate, today)) in Announced(es, today, daysLimit) <==>
       EntryDaysOf(e.birthdayDate, today) <= daysLimit)
    ensures forall s :: s in Announced(es, today, daysLimit) ==>
      s.entry in es && s.days == EntryDaysOf(s.entry.birthdayDate, today) && s.days <= daysLimit
  {
    if es != [] {
      AnnouncedIsWithinLimit(es[1..], today, daysLimit);
      forall e | e in es
        ensures Shown(e, EntryDaysOf(e.birthdayDate, today)) in Announced(es, today, daysLimit)
            <==> EntryDaysOf(e.birthdayDate, today) <= daysLimit
      {
        if e != es[0] {
          assert e in es[1..];
        }
      }
    }
  }

  /**
   * When the day counts never decrease along the list, stopping at the
   * first birthday beyond the limit loses nothing: the loop announces
   * every birthday within the limit.
   */
  lemma {:induction false} ScanIsAnnouncedWhenAscending(es: seq<Entry>, today: Date, daysLimit: int)
    requires ValidDate(today) && AllValid(es)
    requires forall i, j :: 0 <= i < j < |es| ==>
      EntryDaysOf(es[i].birthdayDate, today) <= EntryDaysOf(es[j].birthdayDate, today)
    ensures Scan(es, today, daysLimit) == Announced(es, today, daysLimit)
  {
    if es != [] {
      EventThisYearMeaning(es[0].birthdayDate, today);
      var days := EntryDaysOf(es[0].birthdayDate, today);
      if days <= daysLimit {
        ScanIsAnnouncedWhenAscending(es[1..], today, daysLimit);
      } else {
        NothingAnnouncedBeyond(es[1..], today, daysLimit, days);
      }
    }
  }

  lemma {:induction false} NothingAnnouncedBeyond(es: seq<Entry>, today: Date, daysLimit: int, floor: int)
    requires ValidDate(today) && AllValid(es) && floor > daysLimit
    requires forall i :: 0 <= i < |es| ==> floor <= EntryDaysOf(es[i].birthdayDate, today)
    ensures Announced(es, today, daysLimit) == []
  {
    if es != [] {
      NothingAnnouncedBeyond(es[1..], today, daysLimit, floor);
    }
  }

  /**
   * On a sorted list, unless a Feb 29 birthday is celebrated today, the
   * loop announces exactly the birthdays within the limit.
   */
  lemma SortedScanIsAnnounced(es: seq<Entry>, today: Date, daysLimit: int)
    requires ValidDate(today) && AllValid(es) && SortedEntries(es, today) && NoLeapDayToday(es, today)
    ensures Scan(es, today, daysLimit) == Announced(es, today, daysLimit)
  {
    forall i, j | 0 <= i < j < |es|
      ensures EntryDaysOf(es[i].birthdayDate, today) <= EntryDaysOf(es[j].birthdayDate, today)
    {
      DaysFollowOrder(es[i].birthdayDate, es[i].displayName, es[j].birthdayDate, es[j].displayName, today);
    }
    ScanIsAnnouncedWhenAscending(es, today, daysLimit);
  }

  /**
   * On March 1st, 2023, with a limit of 7 days, Bob's birthday on June 10
   * sorts before Alice's on Feb 29; the loop stops at Bob, 101 days away,
   * so Alice's birthday, celebrated today, is not announced.
   */
  lemma LeapDayBirthdayMissed()
    ensures var today := Date(2023, 3, 1);
      var bob := Entry("Bob", MonthDay(6, 10), true, 0, "bob", 2);
      var alice := Entry("Alice", FEBRUARY_29, true, 0, "alice", 1);
      && SortedEntries([bob, alice], today)
      && Scan([bob, alice], today, 7) == []
      && Announced([bob, alice], today, 7) == [Shown(alice, 0)]
  {
    var today := Date(2023, 3, 1);
    var bob := Entry("Bob", MonthDay(6, 10), true, 0, "bob", 2);
    var alice := Entry("Alice", FEBRUARY_29, true, 0, "alice", 1);
    EventThisYearMeaning(bob.birthdayDate, today);
    EventThisYearMeaning(alice.birthdayDate, today);
    assert DaysBetween(today, Date(2023, 6, 10)) == 101;
    assert [bob, alice][1..] == [alice];
  }
}
