/**
 * BirthdayRetriever of the older source tree: every birthday event of the
 * contacts, ordered by contact id, becomes a Birthday when its date parses;
 * the list is then sorted. There is no contact-group filter.
 */
module LegacyRetriever {
  import opened JavaLang
  import opened Calendar
  import opened DatePattern
  import opened LegacyBirthday

  /** A row of the birthday-event query: CONTACT_ID, START_DATE. */
  datatype EventRow = EventRow(contactId: int, startDate: Option<string>)

  /** What the contacts provider answers to the queries the retriever makes. */
  datatype ContactsProvider = ContactsProvider(
    /** The birthday-event cursor; None for a null cursor. */
    birthdayEvents: Option<seq<EventRow>>,
    /** The per-contact query made by the Birthday constructor. */
    contacts: map<int, ContactDetails>)

  function LookupContact(contacts: map<int, ContactDetails>, contactId: int): Option<ContactDetails> {
    if contactId in contacts then Some(contacts[contactId]) else None
  }

  // ---------------------------------------------------------------------------
  // buildBirthday
  // ---------------------------------------------------------------------------

  /** The Birthday that buildBirthday returns for a row, as a view; None for null. */
  function BuildSpec(row: EventRow, contacts: map<int, ContactDetails>, clock: Date): Option<BirthdayView> {
    if row.startDate.None? then None
    else
      match ParseBirthDate(row.startDate.value)
      case None => None
      case Some(parsed) =>
        var contact := LookupContact(contacts, row.contactId);
        Some(BirthdayView(
          row.contactId,
          if contact.Some? then contact.value.lookupKey else UNKNOWN_LOOKUP_KEY,
          if contact.Some? then contact.value.displayNamePrimary else UNKNOWN_DISPLAY_NAME,
          if contact.Some? then contact.value.photoUri else None,
          if contact.Some? then contact.value.thumbnailUri else None,
          Some(parsed.date), parsed.year.None?, parsed.year.GetOr(0), MonthDayOf(clock)))
  }

  /**
   * Exactly the rows whose date parses build a Birthday: its date is valid,
   * its year is four digits or unknown (0), and an unknown contact gets the
   * placeholder key and name.
   */
  lemma BuiltBirthdayShape(row: EventRow, contacts: map<int, ContactDetails>, clock: Date)
    ensures BuildSpec(row, contacts, clock).Some? <==> row.startDate.Some? && ParseBirthDate(row.startDate.value).Some?
    ensures BuildSpec(row, contacts, clock).Some? ==>
      var v := BuildSpec(row, contacts, clock).value;
      && v.birthdayDate.Some? && ValidMonthDay(v.birthdayDate.value)
      && v.birthdayDate.value == ParseBirthDate(row.startDate.value).value.date
      && (v.unknownYear ==> v.year == 0)
      && (!v.unknownYear <==> Find(row.startDate.value).value.yearGroup != "-")
      && 0 <= v.year <= 9999
      && (row.contactId !in contacts ==> v.lookupKey == UNKNOWN_LOOKUP_KEY && v.displayName == UNKNOWN_DISPLAY_NAME)
      && Comparable(v, MonthDayOf(clock))
  {
    if row.startDate.Some? {
      ParseBirthDateMeaning(row.startDate.value);
    }
  }

  /** buildBirthday(contentResolver, c). */
  method BuildBirthday(row: EventRow, contacts: map<int, ContactDetails>, clock: Date) returns (b: Birthday?)
    ensures b == null <==> BuildSpec(row, contacts, clock).None?
    ensures b != null ==> fresh(b) && b.View() == BuildSpec(row, contacts, clock).value
  {
    if row.startDate.None? {
      return null;
    }
    var regexMatcher := Find(row.startDate.value);
    if regexMatcher.None? {
      return null;
    }
    var m := regexMatcher.value;
    var contact := new Birthday(LookupContact(contacts, row.contactId), row.contactId, clock);
    var md := MonthDay(DigitsValue(m.monthGroup), DigitsValue(m.dayGroup));
    if !ValidMonthDay(md) {
      // new MonthDay(...) throws; the exception is logged and null returned
      return null;
    }
    contact.birthdayDate := Some(md);
    if m.yearGroup != "-" {
      contact.year := DigitsValue(m.yearGroup);
      contact.unknownYear := false;
    }
    return contact;
  }

  // ---------------------------------------------------------------------------
  // getContactWithBirthdays
  // ---------------------------------------------------------------------------

  /** Every row's Birthday, in cursor order, with the nulls dropped. */
  function AllBuilt(rows: seq<EventRow>, contacts: map<int, ContactDetails>, clock: Date): seq<BirthdayView> {
    if rows == [] then []
    else
      var n := |rows| - 1;
      AllBuilt(rows[..n], contacts, clock) + BuiltRow(rows[n], contacts, clock)
  }

  /** The row's Birthday as a list of one, or nothing when buildBirthday returns null. */
  function BuiltRow(row: EventRow, contacts: map<int, ContactDetails>, clock: Date): seq<BirthdayView> {
    var built := BuildSpec(row, contacts, clock);
    if built.Some? then [built.value] else []
  }

  lemma AllBuiltStep(rows: seq<EventRow>, i: nat, contacts: map<int, ContactDetails>, clock: Date)
    requires i < |rows|
    ensures AllBuilt(rows[..i + 1], contacts, clock) == AllBuilt(rows[..i], contacts, clock) + BuiltRow(rows[i], contacts, clock)
  {
    assert rows[..i + 1][..i] == rows[..i];
  }

  /** A Birthday the service can announce: a valid date. */
  predicate Announceable(v: BirthdayView) {
    v.birthdayDate.Some? && ValidMonthDay(v.birthdayDate.value)
  }

  /** Every collected Birthday has a valid date and the day's TODAY, so the list can be sorted and announced. */
  lemma {:induction false} AllBuiltComparable(rows: seq<EventRow>, contacts: map<int, ContactDetails>, clock: Date)
    ensures AllComparable(AllBuilt(rows, contacts, clock), MonthDayOf(clock))
    ensures forall v :: v in AllBuilt(rows, contacts, clock) ==> Announceable(v)
  {
    if rows != [] {
      var n := |rows| - 1;
      AllBuiltComparable(rows[..n], contacts, clock);
      BuiltBirthdayShape(rows[n], contacts, clock);
    }
  }

  /** No row is lost but those whose date does not parse: the list is as long as the parseable rows. */
  lemma {:induction false} AllBuiltLength(rows: seq<EventRow>, contacts: map<int, ContactDetails>, clock: Date)
    ensures |AllBuilt(rows, contacts, clock)| == |Parseable(rows)|
  {
    if rows != [] {
      var n := |rows| - 1;
      AllBuiltLength(rows[..n], contacts, clock);
      BuiltBirthdayShape(rows[n], contacts, clock);
    }
  }

  /** The rows whose START_DATE is set and holds a valid date. */
  function Parseable(rows: seq<EventRow>): seq<EventRow> {
    if rows == [] then []
    else
      var n := |rows| - 1;
      var ok := rows[n].startDate.Some? && ParseBirthDate(rows[n].startDate.value).Some?;
      Parseable(rows[..n]) + (if ok then [rows[n]] else [])
  }

  /** The body of the cursor loop: build the row's Birthday and add it unless it is null. */
  method AddRow(result: seq<Birthday>, row: EventRow, contacts: map<int, ContactDetails>, clock: Date)
    returns (extended: seq<Birthday>)
    ensures Views(extended) == Views(result)
      + BuiltRow(row, contacts, clock)
    ensures forall b | b in extended :: b in result || fresh(b)
  {
    var birthday := BuildBirthday(row, contacts, clock);
    extended := result;
    if birthday != null {
      extended := result + [birthday];
      assert extended[..|extended| - 1] == result;
    }
  }

  // ---------------------------------------------------------------------------
  // Collections.sort
  // ---------------------------------------------------------------------------

  /** Putting x after every element not above it, and before the first one above it, keeps the order. */
  lemma InsertKeepsOrder(vs: seq<BirthdayView>, x: BirthdayView, j: nat, today: MonthDay)
    requires AllComparable(vs, today) && Comparable(x, today) && SortedViews(vs, today)
    requires j <= |vs| && forall k :: 0 <= k < j ==> Compare(vs[k], x) <= 0
    requires j < |vs| ==> Compare(vs[j], x) > 0
    ensures AllComparable(AddAt(vs, j, x), today)
    ensures SortedViews(AddAt(vs, j, x), today)
  {
    var t := AddAt(vs, j, x);
    if j < |vs| {
      CompareAntisymmetric(vs[j], x, today);
    }
    forall a, b | 0 <= a < b < |t| ensures Compare(t[a], t[b]) <= 0 {
      if b > j {
        if j < b - 1 {
          CompareTransitive(x, vs[j], vs[b - 1], today);
        }
        if a < j {
          CompareTransitive(vs[a], x, vs[b - 1], today);
        }
      }
    }
  }

  predicate Sorted(s: seq<Birthday>, today: MonthDay)
    reads s
  {
    AllComparable(Views(s), today) && SortedViews(Views(s), today)
  }

  /** The views of a list with a Birthday added are the views with its view added at the same place. */
  lemma ViewsAddAt(r: seq<Birthday>, j: nat, x: Birthday)
    requires j <= |r|
    ensures Views(AddAt(r, j, x)) == AddAt(Views(r), j, x.View())
  {
    var t, vs := AddAt(r, j, x), Views(r);
    var ws := AddAt(vs, j, x.View());
    assert |Views(t)| == |ws|;
    forall k | 0 <= k < |t| ensures Views(t)[k] == ws[k] {
      if k < j {
        assert t[k] == r[k] && ws[k] == vs[k];
      } else if k > j {
        assert t[k] == r[k - 1] && ws[k] == vs[k - 1];
      }
    }
  }

  /** Inserts x after every element that does not compare above it. */
  method Insert(r: seq<Birthday>, x: Birthday, ghost today: MonthDay) returns (t: seq<Birthday>)
    requires Comparable(x.View(), today) && Sorted(r, today)
    ensures multiset(t) == multiset(r) + multiset{x}
    ensures Sorted(t, today)
  {
    ghost var vs := Views(r);
    var j := 0;
    while j < |r| && r[j].CompareTo(x) <= 0
      invariant 0 <= j <= |r|
      invariant forall k :: 0 <= k < j ==> Compare(vs[k], x.View()) <= 0
    {
      j := j + 1;
    }
    t := AddAt(r, j, x);
    AddAtMultiset(r, j, x);
    ViewsAddAt(r, j, x);
    InsertKeepsOrder(vs, x.View(), j, today);
  }

  /** Collections.sort(result): a sorted permutation of the list. */
  method Sort(s: seq<Birthday>, ghost today: MonthDay) returns (r: seq<Birthday>)
    requires AllComparable(Views(s), today)
    ensures multiset(r) == multiset(s)
    ensures Sorted(r, today)
  {
    ghost var vs := Views(s);
    r := [];
    var k := 0;
    while k < |s|
      invariant 0 <= k <= |s|
      invariant multiset(r) == multiset(s[..k])
      invariant Sorted(r, today)
    {
      assert Comparable(vs[k], today);
      r := Insert(r, s[k], today);
      PrefixStepMultiset(s, k);
      k := k + 1;
    }
    assert s[..k] == s;
  }

  /**
   * The cursor loop of getContactWithBirthdays: the Birthdays of the rows
   * whose date parses, in cursor order, each a new object.
   */
  method CollectBirthdays(c: seq<EventRow>, contacts: map<int, ContactDetails>, clock: Date)
    returns (collected: seq<Birthday>)
    ensures Views(collected) == AllBuilt(c, contacts, clock)
    ensures forall b | b in collected :: fresh(b)
    ensures AllComparable(Views(collected), MonthDayOf(clock))
    ensures forall k :: 0 <= k < |collected| ==> Announceable(collected[k].View())
  {
    collected := [];
    var i := 0;
    while i < |c|
      invariant 0 <= i <= |c|
      invariant Views(collected) == AllBuilt(c[..i], contacts, clock)
      invariant forall b | b in collected :: fresh(b)
    {
      AllBuiltStep(c, i, contacts, clock);
      collected := AddRow(collected, c[i], contacts, clock);
      i := i + 1;
    }
    assert c[..i] == c;
    AllBuiltComparable(c, contacts, clock);
    assert forall k :: 0 <= k < |collected| ==> Views(collected)[k] in Views(collected);
  }

  /**
   * getContactWithBirthdays(context) on the provider's data, with `clock`
   * the day it runs. `unsorted` is the list before the sort.
   */
  method GetContactWithBirthdays(p: ContactsProvider, clock: Date)
    returns (result: seq<Birthday>, ghost unsorted: seq<Birthday>)
    ensures p.birthdayEvents.None? ==> result == [] && unsorted == []
    ensures p.birthdayEvents.Some? ==> Views(unsorted) == AllBuilt(p.birthdayEvents.value, p.contacts, clock)
    ensures multiset(result) == multiset(unsorted)
    ensures forall b | b in result :: fresh(b) && Announceable(b.View())
    ensures Sorted(result, MonthDayOf(clock))
  {
    var collected: seq<Birthday> := [];
    if p.birthdayEvents.Some? {
      collected := CollectBirthdays(p.birthdayEvents.value, p.contacts, clock);
    }
    unsorted := collected;
    result := Sort(collected, MonthDayOf(clock));
    forall b | b in result ensures fresh(b) && Announceable(b.View()) {
      assert b in multiset(result);
      assert b in multiset(collected);
      assert b in collected;
    }
  }
}
