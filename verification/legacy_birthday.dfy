/**
 * Birthday of the older source tree: the same record without the failsafe
 * for a missing date in compareTo, without the display-name fallback, and
 * with the contact's photo URIs.
 */
module LegacyBirthday {
  import opened JavaLang
  import opened Calendar
  import opened BirthdayOrdering

  /** The contact row the constructor's query returns: LOOKUP_KEY, DISPLAY_NAME_PRIMARY, PHOTO_URI, PHOTO_THUMBNAIL_URI. */
  datatype ContactDetails = ContactDetails(
    lookupKey: string,
    displayNamePrimary: string,
    photoUri: Option<string>,
    thumbnailUri: Option<string>)

  const UNKNOWN_LOOKUP_KEY: string := "0"
  const UNKNOWN_DISPLAY_NAME: string := "[UNKNOWN]"

  datatype BirthdayView = BirthdayView(
    contactId: int,
    lookupKey: string,
    displayName: string,
    uriPhoto: Option<string>,
    uriThumbnail: Option<string>,
    birthdayDate: Option<MonthDay>,
    unknownYear: bool,
    year: int,
    today: MonthDay)

  class Birthday {
    const contactId: int
    const lookupKey: string
    const displayName: string
    var uriPhoto: Option<string>
    var uriThumbnail: Option<string>
    var birthdayDate: Option<MonthDay>
    var unknownYear: bool
    var year: int
    /** The TODAY field, fixed when the object is created. */
    const today: MonthDay

    /** Birthday(contentResolver, contactId), with the contact query's answer as `contact`. */
    constructor (contact: Option<ContactDetails>, contactId: int, clock: Date)
      ensures this.contactId == contactId && today == MonthDayOf(clock)
      ensures contact.Some? ==>
        && lookupKey == contact.value.lookupKey && displayName == contact.value.displayNamePrimary
        && uriPhoto == contact.value.photoUri && uriThumbnail == contact.value.thumbnailUri
      ensures contact.None? ==>
        lookupKey == UNKNOWN_LOOKUP_KEY && displayName == UNKNOWN_DISPLAY_NAME && uriPhoto == None && uriThumbnail == None
      ensures birthdayDate == None && unknownYear && year == 0
    {
      this.contactId := contactId;
      today := MonthDayOf(clock);
      if contact.Some? {
        lookupKey := contact.value.lookupKey;
        displayName := contact.value.displayNamePrimary;
        uriPhoto := contact.value.photoUri;
        uriThumbnail := contact.value.thumbnailUri;
      } else {
        lookupKey := UNKNOWN_LOOKUP_KEY;
        displayName := UNKNOWN_DISPLAY_NAME;
        uriPhoto := None;
        uriThumbnail := None;
      }
      birthdayDate := None;
      unknownYear := true;
      year := 0;
    }

    function View(): BirthdayView
      reads this
    {
      BirthdayView(contactId, lookupKey, displayName, uriPhoto, uriThumbnail, birthdayDate, unknownYear, year, today)
    }

    /** compareTo(another): both dates must be set, there is no failsafe. */
    function CompareTo(another: Birthday): int
      reads this, another
      requires birthdayDate.Some? && another.birthdayDate.Some?
    {
      Compare(View(), another.View())
    }
  }

  function Views(s: seq<Birthday>): (r: seq<BirthdayView>)
    reads s
    ensures |r| == |s| && forall i :: 0 <= i < |s| ==> r[i] == s[i].View()
  {
    if s == [] then [] else Views(s[..|s| - 1]) + [s[|s| - 1].View()]
  }

  /** compareTo with the receiver's TODAY. */
  function Compare(a: BirthdayView, b: BirthdayView): int
    requires a.birthdayDate.Some? && b.birthdayDate.Some?
  {
    CompareDated(a.birthdayDate.value, a.displayName, b.birthdayDate.value, b.displayName, a.today)
  }

  predicate Comparable(v: BirthdayView, today: MonthDay) {
    v.today == today && v.birthdayDate.Some?
  }

  predicate AllComparable(vs: seq<BirthdayView>, today: MonthDay) {
    forall i :: 0 <= i < |vs| ==> Comparable(vs[i], today)
  }

  /** Ordered by compareTo, as Collections.sort leaves a list. */
  predicate SortedViews(vs: seq<BirthdayView>, today: MonthDay)
    requires AllComparable(vs, today)
  {
    forall i, j :: 0 <= i < j < |vs| ==> Compare(vs[i], vs[j]) <= 0
  }

  function ViewRank(v: BirthdayView): Rank
    requires v.birthdayDate.Some?
  {
    DatedRank(v.birthdayDate.value, v.displayName, v.today)
  }

  /** compareTo is 0 exactly between birthdays on the same date with the same name; so a birthday ties with itself. */
  lemma CompareZero(a: BirthdayView, b: BirthdayView, today: MonthDay)
    requires Comparable(a, today) && Comparable(b, today)
    ensures Compare(a, b) == 0 <==> a.birthdayDate == b.birthdayDate && a.displayName == b.displayName
    ensures Compare(a, a) == 0
  {
    CompareDatedZero(a.birthdayDate.value, a.displayName, b.birthdayDate.value, b.displayName, today);
    CompareDatedZero(a.birthdayDate.value, a.displayName, a.birthdayDate.value, a.displayName, today);
  }

  lemma CompareAntisymmetric(a: BirthdayView, b: BirthdayView, today: MonthDay)
    requires Comparable(a, today) && Comparable(b, today)
    ensures Sign(Compare(a, b)) == -Sign(Compare(b, a))
  {
    CompareDatedAntisymmetric(a.birthdayDate.value, a.displayName, b.birthdayDate.value, b.displayName, today);
  }

  lemma CompareTransitive(a: BirthdayView, b: BirthdayView, c: BirthdayView, today: MonthDay)
    requires Comparable(a, today) && Comparable(b, today) && Comparable(c, today)
    requires Compare(a, b) <= 0 && Compare(b, c) <= 0
    ensures Compare(a, c) <= 0
    ensures Compare(a, b) < 0 || Compare(b, c) < 0 ==> Compare(a, c) < 0
  {
    CompareDatedIsRankOrder(a.birthdayDate.value, a.displayName, b.birthdayDate.value, b.displayName, today);
    CompareDatedIsRankOrder(b.birthdayDate.value, b.displayName, c.birthdayDate.value, c.displayName, today);
    CompareDatedIsRankOrder(a.birthdayDate.value, a.displayName, c.birthdayDate.value, c.displayName, today);
    RankCompareTransitive(ViewRank(a), ViewRank(b), ViewRank(c));
  }
}
