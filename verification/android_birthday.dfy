/**
 * Birthday of the current source tree: a contact's identity, read once by
 * the constructor, and a birthday date, year and unknown-year flag that
 * BirthdayRetriever fills in afterwards. compareTo carries a failsafe for
 * a missing date and otherwise follows BirthdayOrdering.
 */
module AndroidBirthday {
  import opened JavaLang
  import opened Calendar
  import opened BirthdayOrdering

  /** The contact row the constructor's query returns: LOOKUP_KEY, DISPLAY_NAME_PRIMARY, DISPLAY_NAME. */
  datatype ContactDetails = ContactDetails(
    lookupKey: string,
    displayNamePrimary: Option<string>,
    displayName: Option<string>)

  /** Identity given to a Birthday whose contact cannot be found. */
  const UNKNOWN_LOOKUP_KEY: string := "0"
  const UNKNOWN_DISPLAY_NAME: string := "[UNKNOWN]"

  /** TextUtils.isEmpty: null or the empty string. */
  predicate IsEmpty(s: Option<string>) {
    s.None? || s.value == ""
  }

  /** The name the constructor keeps: the primary display name, or DISPLAY_NAME when that is empty. */
  function ChooseDisplayName(c: ContactDetails): Option<string> {
    if IsEmpty(c.displayNamePrimary) then c.displayName else c.displayNamePrimary
  }

  /** A non-empty primary name always wins, and a fallback is used only for an empty primary name. */
  lemma ChooseDisplayNamePrefersPrimary(c: ContactDetails)
    ensures !IsEmpty(c.displayNamePrimary) ==> ChooseDisplayName(c) == c.displayNamePrimary
    ensures ChooseDisplayName(c) != c.displayNamePrimary ==> IsEmpty(c.displayNamePrimary) && ChooseDisplayName(c) == c.displayName
    ensures ChooseDisplayName(c).None? <==> IsEmpty(c.displayNamePrimary) && c.displayName.None?
  {
  }

  /** The state of a Birthday object, field by field. */
  datatype BirthdayView = BirthdayView(
    contactId: int,
    lookupKey: string,
    displayName: Option<string>,
    birthdayDate: Option<MonthDay>,
    unknownYear: bool,
    year: int,
    today: MonthDay)

  class Birthday {
    const contactId: int
    const lookupKey: string
    const displayName: Option<string>
    var birthdayDate: Option<MonthDay>
    var unknownYear: bool
    var year: int
    /** The TODAY field, fixed when the object is created. */
    const today: MonthDay

    /**
     * Birthday(contentResolver, contactId): `contact` is what the query for
     * the contact returned (None when the cursor is null or empty), `clock`
     * the date at construction.
     */
    constructor (contact: Option<ContactDetails>, contactId: int, clock: Date)
      ensures this.contactId == contactId && today == MonthDayOf(clock)
      ensures contact.Some? ==> lookupKey == contact.value.lookupKey && displayName == ChooseDisplayName(contact.value)
      ensures contact.None? ==> lookupKey == UNKNOWN_LOOKUP_KEY && displayName == Some(UNKNOWN_DISPLAY_NAME)
      ensures birthdayDate == None && unknownYear && year == 0
    {
      this.contactId := contactId;
      today := MonthDayOf(clock);
      if contact.Some? {
        lookupKey := contact.value.lookupKey;
        displayName := ChooseDisplayName(contact.value);
      } else {
        lookupKey := UNKNOWN_LOOKUP_KEY;
        displayName := Some(UNKNOWN_DISPLAY_NAME);
      }
      birthdayDate := None;
      unknownYear := true;
      year := 0;
    }

    function View(): BirthdayView
      reads this
    {
      BirthdayView(contactId, lookupKey, displayName, birthdayDate, unknownYear, year, today)
    }

    /** compareTo(another). */
    function CompareTo(another: Birthday): int
      reads this, another
      requires ComparesByName(View(), another.View()) ==> displayName.Some? && another.displayName.Some?
    {
      Compare(View(), another.View())
    }
  }

  /** The views of a list of Birthday objects. */
  function Views(s: seq<Birthday>): (r: seq<BirthdayView>)
    reads s
    ensures |r| == |s| && forall i :: 0 <= i < |s| ==> r[i] == s[i].View()
  {
    if s == [] then [] else Views(s[..|s| - 1]) + [s[|s| - 1].View()]
  }

  // ---------------------------------------------------------------------------
  // compareTo
  // ---------------------------------------------------------------------------

  /** compareTo reaches the display names only for two dates on the same side that are equal. */
  predicate ComparesByName(a: BirthdayView, b: BirthdayView) {
    a.birthdayDate.Some? && b.birthdayDate.Some? && a.birthdayDate == b.birthdayDate
  }

  /**
   * compareTo with the receiver's TODAY: a null birthdayDate sorts first,
   * then BirthdayOrdering. The names are only consulted on a tie, where the
   * precondition makes them non-null.
   */
  function Compare(a: BirthdayView, b: BirthdayView): int
    requires ComparesByName(a, b) ==> a.displayName.Some? && b.displayName.Some?
  {
    if a.birthdayDate.None? && b.birthdayDate.None? then 0
    else if a.birthdayDate.None? then -1
    else if b.birthdayDate.None? then 1
    else CompareDated(a.birthdayDate.value, a.displayName.GetOr(""),
                      b.birthdayDate.value, b.displayName.GetOr(""), a.today)
  }

  /** A view the comparator can be applied to with a given TODAY: dated views have a name. */
  predicate Comparable(v: BirthdayView, today: MonthDay) {
    v.today == today && (v.birthdayDate.Some? ==> v.displayName.Some?)
  }

  predicate AllComparable(vs: seq<BirthdayView>, today: MonthDay) {
    forall i :: 0 <= i < |vs| ==> Comparable(vs[i], today)
  }

  /** Ordered by compareTo, as Collections.sort leaves a list. */
  predicate SortedViews(vs: seq<BirthdayView>, today: MonthDay)
    requires AllComparable(vs, today)
  {
    forall i, j :: 0 <= i < j < |vs| ==> Compare(vs[i], vs[j]) <= 0
  }

  /** The rank of a view: undated views come first and tie with one another. */
  function ViewRank(v: BirthdayView): Rank
    requires v.birthdayDate.Some? ==> v.displayName.Some?
  {
    if v.birthdayDate.None? then Rank(UNDATED, 0, 0, "")
    else DatedRank(v.birthdayDate.value, v.displayName.value, v.today)
  }

  /**
   * compareTo, failsafe included, is the rank order: undated first, then
   * upcoming (today included), then passed, each by month, day and name.
   */
  lemma CompareIsRankOrder(a: BirthdayView, b: BirthdayView, today: MonthDay)
    requires Comparable(a, today) && Comparable(b, today)
    ensures Sign(Compare(a, b)) == RankCompare(ViewRank(a), ViewRank(b))
  {
    if a.birthdayDate.Some? && b.birthdayDate.Some? {
      CompareDatedIsRankOrder(a.birthdayDate.value, a.displayName.value,
                              b.birthdayDate.value, b.displayName.value, today);
    }
  }

  /** Comparable's sign rule: sgn(a.compareTo(b)) == -sgn(b.compareTo(a)). */
  lemma CompareAntisymmetric(a: BirthdayView, b: BirthdayView, today: MonthDay)
    requires Comparable(a, today) && Comparable(b, today)
    ensures Sign(Compare(a, b)) == -Sign(Compare(b, a))
  {
    CompareIsRankOrder(a, b, today);
    CompareIsRankOrder(b, a, today);
    RankCompareSwap(ViewRank(a), ViewRank(b));
  }

  /** Comparable's transitivity rule, for both the strict and the non-strict order. */
  lemma CompareTransitive(a: BirthdayView, b: BirthdayView, c: BirthdayView, today: MonthDay)
    requires Comparable(a, today) && Comparable(b, today) && Comparable(c, today)
    requires Compare(a, b) <= 0 && Compare(b, c) <= 0
    ensures Compare(a, c) <= 0
    ensures Compare(a, b) < 0 || Compare(b, c) < 0 ==> Compare(a, c) < 0
  {
    CompareIsRankOrder(a, b, today);
    CompareIsRankOrder(b, c, today);
    CompareIsRankOrder(a, c, today);
    RankCompareTransitive(ViewRank(a), ViewRank(b), ViewRank(c));
  }

  /** The null-date failsafe: undated birthdays tie with each other and precede dated ones. */
  lemma CompareUndated(a: BirthdayView, b: BirthdayView, today: MonthDay)
    requires Comparable(a, today) && Comparable(b, today) && a.birthdayDate.None?
    ensures b.birthdayDate.None? ==> Compare(a, b) == 0 && Compare(b, a) == 0
    ensures b.birthdayDate.Some? ==> Compare(a, b) < 0 && Compare(b, a) > 0
  {
  }
}
