/**
 * The part of onUpdateData that both source trees share: where a birthday
 * falls this year, how many days remain until it, which birthdays are
 * announced, and the ExtensionData published for them. Localized resource
 * strings are kept as the format and the arguments handed to them.
 */
module ExtensionStatus {
  import opened JavaLang
  import opened Calendar

  /** What the update loop reads from one Birthday of the sorted list. */
  datatype Entry = Entry(
    displayName: string,
    birthdayDate: MonthDay,
    unknownYear: bool,
    year: int,
    lookupKey: string,
    contactId: int)

  // ---------------------------------------------------------------------------
  // Days until a birthday
  // ---------------------------------------------------------------------------

  /**
   * birthdayDate.toDateTime(today); when that throws for Feb 29, the
   * birthday moves to March 1st of today's year; None when it throws for
   * any other date.
   */
  function EventThisYear(md: MonthDay, today: Date): (r: Option<Date>)
    ensures r.Some? ==> ValidDate(r.value) && r.value.year == today.year
  {
    match InYear(md, today.year)
    case Some(event) => Some(event)
    case None => if md == FEBRUARY_29 then InYear(MARCH_1, today.year) else None
  }

  /**
   * A valid month/day always has an event this year: itself, or March 1st
   * for Feb 29 in a common year. Only an impossible month/day has none.
   */
  lemma EventThisYearMeaning(md: MonthDay, today: Date)
    ensures ValidMonthDay(md) <==> EventThisYear(md, today).Some?
    ensures ValidMonthDay(md) && (md != FEBRUARY_29 || IsLeapYear(today.year)) ==>
      EventThisYear(md, today) == Some(Date(today.year, md.month, md.day))
    ensures md == FEBRUARY_29 && !IsLeapYear(today.year) ==>
      EventThisYear(md, today) == Some(Date(today.year, 3, 1))
  {
    if ValidMonthDay(md) {
      InYearFailsOnlyOnLeapDay(md, today.year);
    }
  }

  /**
   * Days from today to the birthday event: to this year's date when it is
   * today or later, else to the same date one year on.
   */
  function DaysUntil(event: Date, today: Date): int
    requires ValidDate(event) && ValidDate(today)
  {
    if !DateBefore(event, today) then DaysBetween(today, event)
    else DaysBetween(today, PlusYears(event, 1))
  }

  /**
   * For an event in today's year the count lies between 0 and 365, and is
   * 0 exactly when the event is today.
   */
  lemma DaysUntilBounds(event: Date, today: Date)
    requires ValidDate(event) && ValidDate(today) && event.year == today.year
    ensures 0 <= DaysUntil(event, today) <= 365
    ensures DaysUntil(event, today) == 0 <==> event == today
  {
    DayNumberOrder(today, event);
    DayOfYearBounds(event);
    DayOfYearBounds(today);
    if DateBefore(event, today) {
      var next := PlusYears(event, 1);
      DayNumberMonotone(today, next);
      DaysBeforeNextYear(event.year);
      DayOfYearBounds(next);
      assert DaysBeforeMonth(next.year, next.month) + next.day
          <= DaysBeforeMonth(event.year, event.month) + event.day + 1;
    }
  }

  /** The day count for a birthday date, or None when the date has no event this year. */
  function BirthdayDays(md: MonthDay, today: Date): Option<int>
    requires ValidDate(today)
  {
    match EventThisYear(md, today)
    case None => None
    case Some(event) => Some(DaysUntil(event, today))
  }

  // ---------------------------------------------------------------------------
  // What the loop announces
  // ---------------------------------------------------------------------------

  /** A birthday the loop announces, with its day count. */
  datatype Shown = Shown(entry: Entry, days: int)

  /**
   * The loop of the current source tree over the sorted birthdays: an entry
   * without an event is logged and skipped, an entry within the limit is
   * announced, and the first entry beyond the limit ends the loop.
   */
  function Scan(es: seq<Entry>, today: Date, daysLimit: int): (r: seq<Shown>)
    requires ValidDate(today)
    ensures |r| <= |es|
    ensures forall i :: 0 <= i < |r| ==> r[i].days <= daysLimit
  {
    if es == [] then []
    else
      match BirthdayDays(es[0].birthdayDate, today)
      case None => Scan(es[1..], today, daysLimit)
      case Some(days) =>
        if days <= daysLimit then [Shown(es[0], days)] + Scan(es[1..], today, daysLimit) else []
  }

  /**
   * The loop of the older source tree: the same, except that an entry
   * without an event rethrows IllegalFieldValueException.
   */
  function LegacyScan(es: seq<Entry>, today: Date, daysLimit: int): (r: Result<seq<Shown>>)
    requires ValidDate(today)
    ensures r.Ok? ==> |r.value| <= |es|
  {
    if es == [] then Ok([])
    else
      match BirthdayDays(es[0].birthdayDate, today)
      case None => Thrown(IllegalFieldValueException)
      case Some(days) =>
        if days > daysLimit then Ok([])
        else
          match LegacyScan(es[1..], today, daysLimit)
          case Thrown(e) => Thrown(e)
          case Ok(rest) => Ok([Shown(es[0], days)] + rest)
  }

  lemma Associative<T>(a: seq<T>, b: seq<T>, c: seq<T>)
    ensures a + (b + c) == (a + b) + c
  {
  }

  /** The outcome of the older loop when `shown` was announced before the rest's outcome. */
  function AfterShown(shown: seq<Shown>, rest: Result<seq<Shown>>): Result<seq<Shown>> {
    match rest
    case Thrown(e) => Thrown(e)
    case Ok(more) => Ok(shown + more)
  }

  lemma AfterShownAppend(shown: seq<Shown>, added: Shown, rest: Result<seq<Shown>>)
    ensures AfterShown(shown, AfterShown([added], rest)) == AfterShown(shown + [added], rest)
  {
    if rest.Ok? {
      Associative(shown, [added], rest.value);
    }
  }

  /** One turn of the loop: what the entry at position i contributes, and where the scan goes on. */
  lemma ScanStep(es: seq<Entry>, i: nat, today: Date, daysLimit: int)
    requires ValidDate(today) && i < |es|
    ensures BirthdayDays(es[i].birthdayDate, today).None? ==>
      Scan(es[i..], today, daysLimit) == Scan(es[i + 1..], today, daysLimit)
    ensures BirthdayDays(es[i].birthdayDate, today).Some? ==>
      var days := BirthdayDays(es[i].birthdayDate, today).value;
      Scan(es[i..], today, daysLimit)
        == if days <= daysLimit then [Shown(es[i], days)] + Scan(es[i + 1..], today, daysLimit) else []
  {
    assert es[i..][0] == es[i] && es[i..][1..] == es[i + 1..];
  }

  /** One turn of the older loop: an entry without an event throws; otherwise as in ScanStep. */
  lemma LegacyScanStep(es: seq<Entry>, i: nat, today: Date, daysLimit: int)
    requires ValidDate(today) && i < |es|
    ensures BirthdayDays(es[i].birthdayDate, today).None? ==>
      LegacyScan(es[i..], today, daysLimit) == Thrown(IllegalFieldValueException)
    ensures BirthdayDays(es[i].birthdayDate, today).Some? ==>
      var days := BirthdayDays(es[i].birthdayDate, today).value;
      LegacyScan(es[i..], today, daysLimit)
        == if days <= daysLimit then AfterShown([Shown(es[i], days)], LegacyScan(es[i + 1..], today, daysLimit))
           else Ok([])
  {
    assert es[i..][0] == es[i] && es[i..][1..] == es[i + 1..];
  }

  predicate AllValid(es: seq<Entry>) {
    forall i :: 0 <= i < |es| ==> ValidMonthDay(es[i].birthdayDate)
  }

  /** The days of every entry, when every date is valid. */
  function AllDays(es: seq<Entry>, today: Date): (r: seq<int>)
    requires ValidDate(today) && AllValid(es)
    ensures |r| == |es|
    ensures forall i :: 0 <= i < |es| ==> BirthdayDays(es[i].birthdayDate, today) == Some(r[i])
  {
    if es == [] then []
    else
      EventThisYearMeaning(es[0].birthdayDate, today);
      [BirthdayDays(es[0].birthdayDate, today).value] + AllDays(es[1..], today)
  }

  /**
   * With valid dates nothing is skipped: the announced birthdays are a
   * prefix of the list, each with its own day count.
   */
  lemma {:induction false} ScanIsPrefix(es: seq<Entry>, today: Date, daysLimit: int)
    requires ValidDate(today) && AllValid(es)
    ensures var r := Scan(es, today, daysLimit);
      forall i :: 0 <= i < |r| ==> r[i] == Shown(es[i], AllDays(es, today)[i])
  {
    if es != [] {
      EventThisYearMeaning(es[0].birthdayDate, today);
      var days, rest := AllDays(es, today), AllDays(es[1..], today);
      assert days == [days[0]] + rest;
      ScanIsPrefix(es[1..], today, daysLimit);
    }
  }

  /** The prefix is the longest one within the limit: the next entry, if any, is beyond it. */
  lemma {:induction false} ScanStopsBeyondLimit(es: seq<Entry>, today: Date, daysLimit: int)
    requires ValidDate(today) && AllValid(es)
    ensures var r := Scan(es, today, daysLimit);
      |r| < |es| ==> AllDays(es, today)[|r|] > daysLimit
  {
    if es != [] {
      EventThisYearMeaning(es[0].birthdayDate, today);
      var days, rest := AllDays(es, today), AllDays(es[1..], today);
      assert days == [days[0]] + rest;
      ScanStopsBeyondLimit(es[1..], today, daysLimit);
    }
  }

  /** With valid dates both loops announce the same birthdays, and the older one never throws. */
  lemma {:induction false} LegacyScanAgrees(es: seq<Entry>, today: Date, daysLimit: int)
    requires ValidDate(today) && AllValid(es)
    ensures LegacyScan(es, today, daysLimit) == Ok(Scan(es, today, daysLimit))
  {
    if es != [] {
      EventThisYearMeaning(es[0].birthdayDate, today);
      LegacyScanAgrees(es[1..], today, daysLimit);
    }
  }

  /**
   * An entry whose date has no event this year: the current loop skips
   * it, the older loop fails with IllegalFieldValueException.
   */
  lemma InvalidEntryHandling(e: Entry, rest: seq<Entry>, today: Date, daysLimit: int)
    requires ValidDate(today) && !ValidMonthDay(e.birthdayDate)
    ensures Scan([e] + rest, today, daysLimit) == Scan(rest, today, daysLimit)
    ensures LegacyScan([e] + rest, today, daysLimit) == Thrown(IllegalFieldValueException)
  {
    EventThisYearMeaning(e.birthdayDate, today);
    assert ([e] + rest)[1..] == rest;
  }

  // ---------------------------------------------------------------------------
  // The published ExtensionData
  // ---------------------------------------------------------------------------

  /** The string resource chosen by the switch on the day count. */
  datatype DaysFormat = WHEN_TODAY_FORMAT | WHEN_TOMORROW_FORMAT | WHEN_DAYS_FORMAT

  function FormatFor(days: int): (f: DaysFormat)
    ensures f == WHEN_TODAY_FORMAT <==> days == 0
    ensures f == WHEN_TOMORROW_FORMAT <==> days == 1
  {
    if days == 0 then WHEN_TODAY_FORMAT
    else if days == 1 then WHEN_TOMORROW_FORMAT
    else WHEN_DAYS_FORMAT
  }

  /**
   * A piece of the expanded body: "\n" + name + ", " before every birthday
   * but the first, the age_format plural followed by a space, and the
   * day-count format filled with the day count.
   */
  datatype BodyPart = ContactLine(displayName: string) | AgeText(age: int) | WhenText(format: DaysFormat, days: int)

  /** The body pieces one announced birthday appends. */
  function BirthdayParts(withName: bool, displayName: string, unknownYear: bool, age: int, days: int): seq<BodyPart> {
    (if withName then [ContactLine(displayName)] else [])
    + (if !unknownYear then [AgeText(age)] else [])
    + [WhenText(FormatFor(days), days)]
  }

  function EntryParts(s: Shown, withName: bool, todayYear: int): seq<BodyPart> {
    BirthdayParts(withName, s.entry.displayName, s.entry.unknownYear, todayYear - s.entry.year, s.days)
  }

  /** The expanded body for the announced birthdays, in order. */
  function Body(shown: seq<Shown>, todayYear: int): seq<BodyPart> {
    if shown == [] then []
    else
      var n := |shown| - 1;
      Body(shown[..n], todayYear) + EntryParts(shown[n], n > 0, todayYear)
  }

  /** Three pieces appended one after the other are the three appended as one block. */
  lemma AppendPieces(body: seq<BodyPart>, a: seq<BodyPart>, b: seq<BodyPart>, c: seq<BodyPart>)
    ensures body + a + b + c == body + (a + b + c)
  {
  }

  /** Announcing one more birthday appends its pieces to the body. */
  lemma BodyStep(shown: seq<Shown>, s: Shown, todayYear: int)
    ensures Body(shown + [s], todayYear) == Body(shown, todayYear) + EntryParts(s, |shown| > 0, todayYear)
  {
    assert (shown + [s])[..|shown|] == shown;
  }

  /** The click intent buildClickIntent makes for the first birthday of the list. */
  datatype ClickIntent = QuickContact(lookupKey: string) | ViewContact(contactId: int)

  function ClickIntentFor(first: Entry, showQuickContact: bool): ClickIntent {
    if showQuickContact then QuickContact(first.lookupKey) else ViewContact(first.contactId)
  }

  /**
   * What publishUpdate receives. Visible carries the status (collapsed
   * title), the name put into single_birthday_title_format, the body and
   * the click intent.
   */
  datatype ExtensionData =
    | Hidden
    | Visible(status: string, expandedTitleName: string, body: seq<BodyPart>, clickIntent: ClickIntent)

  /** The collapsed title: the first name, followed by " + " and how many others when there are any. */
  function CollapsedTitle(firstName: string, count: int): string
    requires count >= 1
  {
    if count > 1 then firstName + " + " + Decimal(count - 1) else firstName
  }

  /**
   * The ExtensionData for the announced birthdays; the click intent is
   * built from the first birthday of the whole list.
   */
  function Render(es: seq<Entry>, shown: seq<Shown>, todayYear: int, showQuickContact: bool): (d: ExtensionData)
    requires |shown| <= |es|
    ensures d.Hidden? <==> shown == []
  {
    if shown == [] then Hidden
    else
      Visible(CollapsedTitle(shown[0].entry.displayName, |shown|), shown[0].entry.displayName,
              Body(shown, todayYear), ClickIntentFor(es[0], showQuickContact))
  }

  /** Everything after the sort in onUpdateData of the older source tree, which may throw. */
  function LegacyUpdateData(es: seq<Entry>, today: Date, daysLimit: int, showQuickContact: bool): Result<ExtensionData>
    requires ValidDate(today)
  {
    match LegacyScan(es, today, daysLimit)
    case Thrown(e) => Thrown(e)
    case Ok(shown) => Ok(Render(es, shown, today.year, showQuickContact))
  }

  /** Everything after the sort in onUpdateData of the current source tree. */
  function UpdateData(es: seq<Entry>, today: Date, daysLimit: int, showQuickContact: bool): ExtensionData
    requires ValidDate(today)
  {
    Render(es, Scan(es, today, daysLimit), today.year, showQuickContact)
  }

  // ---------------------------------------------------------------------------
  // Properties of the published data
  // ---------------------------------------------------------------------------

  /**
   * The collapsed title starts with the first name; with others it goes on
   * with " + " and a count that reads back as the number of others.
   */
  lemma CollapsedTitleReadsBack(firstName: string, count: int)
    requires 1 <= count <= INT_MAX
    ensures var t := CollapsedTitle(firstName, count);
      && |t| >= |firstName| && t[..|firstName|] == firstName
      && (count == 1 <==> t == firstName)
      && (count > 1 ==> t[|firstName|..|firstName| + 3] == " + " && ParseInt(t[|firstName| + 3..]) == Some(count - 1))
  {
    if count > 1 {
      var t := CollapsedTitle(firstName, count);
      assert t[|firstName| + 3..] == Decimal(count - 1);
      ParseIntOfDecimal(count - 1);
    }
  }

  /** The names of the body's contact lines. */
  function ContactLines(parts: seq<BodyPart>): seq<string> {
    if parts == [] then []
    else
      var n := |parts| - 1;
      ContactLines(parts[..n]) + (if parts[n].ContactLine? then [parts[n].displayName] else [])
  }

  /** The day counts of the body's when-texts. */
  function WhenDays(parts: seq<BodyPart>): seq<int> {
    if parts == [] then []
    else
      var n := |parts| - 1;
      WhenDays(parts[..n]) + (if parts[n].WhenText? then [parts[n].days] else [])
  }

  /** The ages of the body's age texts. */
  function Ages(parts: seq<BodyPart>): seq<int> {
    if parts == [] then []
    else
      var n := |parts| - 1;
      Ages(parts[..n]) + (if parts[n].AgeText? then [parts[n].age] else [])
  }

  /** Each reading of the body distributes over appending body parts. */
  lemma {:induction false} ContactLinesConcat(a: seq<BodyPart>, b: seq<BodyPart>)
    ensures ContactLines(a + b) == ContactLines(a) + ContactLines(b)
  {
    if b == [] {
      assert a + b == a;
    } else {
      var n := |b| - 1;
      ContactLinesConcat(a, b[..n]);
      assert (a + b)[..|a + b| - 1] == a + b[..n];
      assert (a + b)[|a + b| - 1] == b[n];
    }
  }

  lemma {:induction false} WhenDaysConcat(a: seq<BodyPart>, b: seq<BodyPart>)
    ensures WhenDays(a + b) == WhenDays(a) + WhenDays(b)
  {
    if b == [] {
      assert a + b == a;
    } else {
      var n := |b| - 1;
      WhenDaysConcat(a, b[..n]);
      assert (a + b)[..|a + b| - 1] == a + b[..n];
      assert (a + b)[|a + b| - 1] == b[n];
    }
  }

  lemma {:induction false} AgesConcat(a: seq<BodyPart>, b: seq<BodyPart>)
    ensures Ages(a + b) == Ages(a) + Ages(b)
  {
    if b == [] {
      assert a + b == a;
    } else {
      var n := |b| - 1;
      AgesConcat(a, b[..n]);
      assert (a + b)[..|a + b| - 1] == a + b[..n];
      assert (a + b)[|a + b| - 1] == b[n];
    }
  }

  /** The pieces of one announced birthday, read back. */
  lemma EntryPartsContents(s: Shown, withName: bool, todayYear: int)
    ensures ContactLines(EntryParts(s, withName, todayYear)) == (if withName then [s.entry.displayName] else [])
    ensures WhenDays(EntryParts(s, withName, todayYear)) == [s.days]
    ensures Ages(EntryParts(s, withName, todayYear)) == (if !s.entry.unknownYear then [todayYear - s.entry.year] else [])
  {
    var name := if withName then [ContactLine(s.entry.displayName)] else [];
    var age := if !s.entry.unknownYear then [AgeText(todayYear - s.entry.year)] else [];
    var when := [WhenText(FormatFor(s.days), s.days)];
    ContactLinesConcat(name, age);
    ContactLinesConcat(name + age, when);
    WhenDaysConcat(name, age);
    WhenDaysConcat(name + age, when);
    AgesConcat(name, age);
    AgesConcat(name + age, when);
    assert when[..0] == [];
    if withName {
      assert name[..0] == [];
    }
    if !s.entry.unknownYear {
      assert age[..0] == [];
    }
  }

  function Names(shown: seq<Shown>): (r: seq<string>)
    ensures |r| == |shown| && forall i :: 0 <= i < |shown| ==> r[i] == shown[i].entry.displayName
  {
    if shown == [] then [] else Names(shown[..|shown| - 1]) + [shown[|shown| - 1].entry.displayName]
  }

  function DaysOf(shown: seq<Shown>): (r: seq<int>)
    ensures |r| == |shown| && forall i :: 0 <= i < |shown| ==> r[i] == shown[i].days
  {
    if shown == [] then [] else DaysOf(shown[..|shown| - 1]) + [shown[|shown| - 1].days]
  }

  /** The ages, in order, of the announced birthdays whose year is known. */
  function KnownAges(shown: seq<Shown>, todayYear: int): seq<int> {
    if shown == [] then []
    else
      var s := shown[|shown| - 1];
      KnownAges(shown[..|shown| - 1], todayYear) + (if !s.entry.unknownYear then [todayYear - s.entry.year] else [])
  }

  /** The body names every announced birthday but the first, in order. */
  lemma {:induction false} BodyNames(shown: seq<Shown>, todayYear: int)
    requires shown != []
    ensures ContactLines(Body(shown, todayYear)) == Names(shown)[1..]
  {
    var n := |shown| - 1;
    var s := shown[n];
    ContactLinesConcat(Body(shown[..n], todayYear), EntryParts(s, n > 0, todayYear));
    EntryPartsContents(s, n > 0, todayYear);
    if n > 0 {
      BodyNames(shown[..n], todayYear);
      assert Names(shown)[1..] == Names(shown[..n])[1..] + [s.entry.displayName];
    } else {
      assert Body(shown[..n], todayYear) == [];
    }
  }

  /** The body gives a day-count text for every announced birthday, in order. */
  lemma {:induction false} BodyWhens(shown: seq<Shown>, todayYear: int)
    ensures WhenDays(Body(shown, todayYear)) == DaysOf(shown)
  {
    if shown != [] {
      var n := |shown| - 1;
      var earlier, parts := Body(shown[..n], todayYear), EntryParts(shown[n], n > 0, todayYear);
      assert Body(shown, todayYear) == earlier + parts;
      BodyWhens(shown[..n], todayYear);
      WhenDaysConcat(earlier, parts);
      EntryPartsContents(shown[n], n > 0, todayYear);
      assert WhenDays(parts) == [shown[n].days];
    }
  }

  /** The body gives the age of every announced birthday whose year is known, in order. */
  lemma {:induction false} BodyAges(shown: seq<Shown>, todayYear: int)
    ensures Ages(Body(shown, todayYear)) == KnownAges(shown, todayYear)
  {
    if shown != [] {
      var n := |shown| - 1;
      var earlier, parts := Body(shown[..n], todayYear), EntryParts(shown[n], n > 0, todayYear);
      assert Body(shown, todayYear) == earlier + parts;
      BodyAges(shown[..n], todayYear);
      AgesConcat(earlier, parts);
      EntryPartsContents(shown[n], n > 0, todayYear);
      assert Ages(parts) == (if !shown[n].entry.unknownYear then [todayYear - shown[n].entry.year] else []);
    }
  }

  /**
   * With valid dates the extension is hidden exactly when the list is
   * empty or its first birthday is beyond the limit; otherwise the status
   * and the expanded title name the first birthday of the list.
   */
  lemma UpdateDataVisibility(es: seq<Entry>, today: Date, daysLimit: int, showQuickContact: bool)
    requires ValidDate(today) && AllValid(es)
    ensures UpdateData(es, today, daysLimit, showQuickContact).Hidden?
      <==> es == [] || AllDays(es, today)[0] > daysLimit
    ensures UpdateData(es, today, daysLimit, showQuickContact).Visible? ==>
      && UpdateData(es, today, daysLimit, showQuickContact).expandedTitleName == es[0].displayName
      && UpdateData(es, today, daysLimit, showQuickContact).clickIntent == ClickIntentFor(es[0], showQuickContact)
  {
    ScanIsPrefix(es, today, daysLimit);
    ScanStopsBeyondLimit(es, today, daysLimit);
  }

  /**
   * With valid dates both trees publish the same data; a list whose first
   * entry has no event makes the older tree throw.
   */
  lemma LegacyUpdateDataAgrees(es: seq<Entry>, today: Date, daysLimit: int, showQuickContact: bool)
    requires ValidDate(today)
    ensures AllValid(es) ==>
      LegacyUpdateData(es, today, daysLimit, showQuickContact) == Ok(UpdateData(es, today, daysLimit, showQuickContact))
    ensures es != [] && !ValidMonthDay(es[0].birthdayDate) ==>
      LegacyUpdateData(es, today, daysLimit, showQuickContact) == Thrown(IllegalFieldValueException)
  {
    if AllValid(es) {
      LegacyScanAgrees(es, today, daysLimit);
    }
    if es != [] && !ValidMonthDay(es[0].birthdayDate) {
      InvalidEntryHandling(es[0], es[1..], today, daysLimit);
      assert [es[0]] + es[1..] == es;
    }
  }

  // ---------------------------------------------------------------------------
  // Settings and localization
  // ---------------------------------------------------------------------------

  const DEFAULT_DAYS_LIMIT: string := "7"
  const DEFAULT_LANG: string := "en"

  /** UPDATE_REASON_SETTINGS_CHANGED, or any other reason DashClock gives. */
  datatype UpdateReason = SettingsChanged | OtherReason

  /**
   * The default language after the localization step of onUpdateData:
   * English when localization is disabled, the system's language when it
   * was just re-enabled, unchanged otherwise.
   */
  function LanguageAfterUpdate(needToRefresh: bool, disableLocalization: bool, current: string, systemLanguage: string): string {
    if needToRefresh || (disableLocalization && current != DEFAULT_LANG) then
      (if disableLocalization then DEFAULT_LANG else systemLanguage)
    else current
  }

  /**
   * With localization disabled the extension speaks English; after it is
   * re-enabled it speaks the system's language; and a second update with
   * no new change leaves the language as it is.
   */
  lemma LanguageFollowsSetting(needToRefresh: bool, disableLocalization: bool, current: string, systemLanguage: string)
    ensures disableLocalization ==> LanguageAfterUpdate(needToRefresh, disableLocalization, current, systemLanguage) == DEFAULT_LANG
    ensures !disableLocalization && needToRefresh ==>
      LanguageAfterUpdate(needToRefresh, disableLocalization, current, systemLanguage) == systemLanguage
    ensures !disableLocalization && !needToRefresh ==>
      LanguageAfterUpdate(needToRefresh, disableLocalization, current, systemLanguage) == current
    ensures var once := LanguageAfterUpdate(needToRefresh, disableLocalization, current, systemLanguage);
      LanguageAfterUpdate(false, disableLocalization, once, systemLanguage) == once
  {
  }
}
