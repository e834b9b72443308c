/**
 * BirthdayService of the current source tree: the DashClock extension that
 * keeps its settings in fields, reloads them when they change, fetches the
 * sorted birthdays and publishes the ones within the days limit.
 */
module AndroidService {
  import opened JavaLang
  import opened Calendar
  import opened AndroidBirthday
  import opened AndroidRetriever
  import opened ExtensionStatus
  import opened AnnounceOrder

  /** The stored settings; None where nothing is stored and the default applies. */
  datatype Preferences = Preferences(
    daysLimit: Option<string>,
    showQuickContact: Option<bool>,
    disableLocalization: Option<bool>,
    contactGroup: Option<string>)

  /** What the update loop reads from a Birthday the retriever built. */
  function EntryOf(v: BirthdayView): Entry
    requires Announceable(v)
  {
    Entry(v.displayName.value, v.birthdayDate.value, v.unknownYear, v.year, v.lookupKey, v.contactId)
  }

  /** Every birthday has a valid date and a name, as the retriever guarantees. */
  predicate AllAnnounceable(vs: seq<BirthdayView>) {
    forall k :: 0 <= k < |vs| ==> Announceable(vs[k])
  }

  /**
   * What getContactWithBirthdays guarantees the update loop on the day it
   * runs: every birthday comparable with that day's TODAY, sorted by
   * compareTo, with a valid date and a name.
   */
  predicate Retrieved(vs: seq<BirthdayView>, today: Date) {
    AllComparable(vs, MonthDayOf(today)) && SortedViews(vs, MonthDayOf(today)) && AllAnnounceable(vs)
  }

  function Entries(vs: seq<BirthdayView>): (es: seq<Entry>)
    requires AllAnnounceable(vs)
    ensures |es| == |vs| && forall k :: 0 <= k < |vs| ==> es[k] == EntryOf(vs[k])
  {
    if vs == [] then [] else Entries(vs[..|vs| - 1]) + [EntryOf(vs[|vs| - 1])]
  }

  /**
   * The list the retriever returns, sorted with the TODAY of the day it
   * runs, is in the order the announcement lemmas assume, with valid dates.
   */
  lemma SortedListIsSortedEntries(vs: seq<BirthdayView>, today: Date)
    requires ValidDate(today) && AllAnnounceable(vs)
    requires AllComparable(vs, MonthDayOf(today)) && SortedViews(vs, MonthDayOf(today))
    ensures AllValid(Entries(vs)) && SortedEntries(Entries(vs), today)
  {
  }

  class BirthdayService {
    var daysLimit: int
    var showQuickContact: bool
    var disableLocalization: bool
    /** null until the settings are first read. */
    var contactGroupId: Option<string>
    var needToRefreshLocalization: bool
    /** Locale.getDefault().getLanguage(), which onUpdateData may change. */
    var defaultLanguage: string

    /** A new extension: every field holds Java's default value. */
    constructor (defaultLanguage: string)
      ensures daysLimit == 0 && !showQuickContact && !disableLocalization && contactGroupId == None
      ensures !needToRefreshLocalization && this.defaultLanguage == defaultLanguage
    {
      daysLimit := 0;
      showQuickContact := false;
      disableLocalization := false;
      contactGroupId := None;
      needToRefreshLocalization := false;
      this.defaultLanguage := defaultLanguage;
    }

    /**
     * updatePreferences(): Integer.valueOf on the days limit ("7" when
     * unset) throws NumberFormatException before any field changes;
     * otherwise every setting is read, and the refresh flag records whether
     * disableLocalization changed.
     */
    method UpdatePreferences(prefs: Preferences) returns (thrown: Option<JavaException>)
      modifies this
      ensures ParseInt(prefs.daysLimit.GetOr(DEFAULT_DAYS_LIMIT)).None? ==>
        thrown == Some(NumberFormatException) && unchanged(this)
      ensures ParseInt(prefs.daysLimit.GetOr(DEFAULT_DAYS_LIMIT)).Some? ==>
        && thrown == None
        && daysLimit == ParseInt(prefs.daysLimit.GetOr(DEFAULT_DAYS_LIMIT)).value
        && showQuickContact == prefs.showQuickContact.GetOr(true)
        && disableLocalization == prefs.disableLocalization.GetOr(false)
        && needToRefreshLocalization == (old(disableLocalization) != disableLocalization)
        && contactGroupId == Some(prefs.contactGroup.GetOr(NO_CONTACT_GROUP_SELECTED))
        && defaultLanguage == old(defaultLanguage)
    {
      var parsed := ParseInt(prefs.daysLimit.GetOr(DEFAULT_DAYS_LIMIT));
      if parsed.None? {
        return Some(NumberFormatException);
      }
      daysLimit := parsed.value;
      showQuickContact := prefs.showQuickContact.GetOr(true);
      var previousDisableLocalizationValue := disableLocalization;
      disableLocalization := prefs.disableLocalization.GetOr(false);
      needToRefreshLocalization := previousDisableLocalizationValue != disableLocalization;
      contactGroupId := Some(prefs.contactGroup.GetOr(NO_CONTACT_GROUP_SELECTED));
      return None;
    }

    /** onInitialize(isReconnect): the settings are read once; the content watch is not modelled. */
    method OnInitialize(prefs: Preferences) returns (thrown: Option<JavaException>)
      modifies this
      ensures thrown.None? <==> ParseInt(prefs.daysLimit.GetOr(DEFAULT_DAYS_LIMIT)).Some?
      ensures thrown.None? ==> contactGroupId.Some? && daysLimit == ParseInt(prefs.daysLimit.GetOr(DEFAULT_DAYS_LIMIT)).value
    {
      thrown := UpdatePreferences(prefs);
    }

    /**
     * The body of the loop up to the limit test: toDateTime(today), March
     * 1st for Feb 29 when that throws, None (logged, skipped) for any other
     * failure; then the days until the event or, once it has passed, until
     * the same day next year.
     */
    static method DaysUntilBirthday(birthdayDate: MonthDay, today: Date) returns (days: Option<int>)
      requires ValidDate(today)
      ensures days == BirthdayDays(birthdayDate, today)
    {
      var birthdayEvent := InYear(birthdayDate, today.year);
      if birthdayEvent.None? {
        if birthdayDate.day == 29 && birthdayDate.month == 2 {
          // Birthday on February 29th (leap year) -> March 1st
          birthdayEvent := InYear(MonthDay(3, 1), today.year);
        } else {
          return None;
        }
      }
      var event := birthdayEvent.value;
      if !DateBefore(event, today) {
        days := Some(DaysBetween(today, event));
      } else {
        // the next birthday event is next year
        days := Some(DaysBetween(today, PlusYears(event, 1)));
      }
    }

    /**
     * The branch of the loop for a birthday within the limit: count it,
     * take its name for the titles if it is the first, and append its body
     * text.
     */
    static method AnnounceBirthday(ghost shown: seq<Shown>, ghost added: Shown, upcomingBirthdays: int,
                                   collapsedTitle: string, expandedTitleName: string, body: seq<BodyPart>,
                                   birthday: Birthday, days: int, todayYear: int)
      returns (upcoming: int, collapsed: string, expanded: string, extended: seq<BodyPart>)
      requires Announceable(birthday.View()) && added == Shown(EntryOf(birthday.View()), days)
      requires upcomingBirthdays == |shown| && body == Body(shown, todayYear)
      requires shown != [] ==> collapsedTitle == expandedTitleName == shown[0].entry.displayName
      ensures upcoming == |shown + [added]| && extended == Body(shown + [added], todayYear)
      ensures collapsed == expanded == (shown + [added])[0].entry.displayName
    {
      upcoming := upcomingBirthdays + 1;
      var displayName := birthday.displayName.value;
      collapsed, expanded := collapsedTitle, expandedTitleName;
      if upcoming == 1 {
        collapsed := displayName;
        expanded := displayName;
      }
      // more than one birthday: the contact's name
      extended := body;
      ghost var name: seq<BodyPart> := [];
      if upcoming > 1 {
        extended := extended + [ContactLine(displayName)];
        name := [ContactLine(displayName)];
      }
      assert extended == body + name;
      ghost var age: seq<BodyPart> := [];
      if !birthday.unknownYear {
        extended := extended + [AgeText(todayYear - birthday.year)];
        age := [AgeText(todayYear - birthday.year)];
      }
      assert extended == body + name + age;
      var daysFormat := if days == 0 then WHEN_TODAY_FORMAT
        else if days == 1 then WHEN_TOMORROW_FORMAT
        else WHEN_DAYS_FORMAT;
      extended := extended + [WhenText(daysFormat, days)];
      assert name + age + [WhenText(daysFormat, days)] == EntryParts(added, |shown| > 0, todayYear);
      AppendPieces(body, name, age, [WhenText(daysFormat, days)]);
      BodyStep(shown, added, todayYear);
    }

    /**
     * publishUpdate after the loop: nothing when no birthday was counted;
     * otherwise the first name, followed by " + " and the number of the
     * others when there are any, and the click intent of the list's first
     * birthday.
     */
    method PublishUpdate(ghost es: seq<Entry>, ghost shown: seq<Shown>, birthdays: seq<Birthday>,
                         upcomingBirthdays: int, collapsedTitle: string, expandedTitleName: string,
                         body: seq<BodyPart>, todayYear: int)
      returns (data: ExtensionData)
      requires |shown| <= |es| == |birthdays| && upcomingBirthdays == |shown|
      requires birthdays != [] ==> Announceable(birthdays[0].View()) && es[0] == EntryOf(birthdays[0].View())
      requires shown != [] ==> collapsedTitle == expandedTitleName == shown[0].entry.displayName
      requires body == Body(shown, todayYear)
      ensures data == Render(es, shown, todayYear, showQuickContact)
    {
      if upcomingBirthdays > 0 {
        var first := birthdays[0];
        var clickIntent := if showQuickContact then QuickContact(first.lookupKey) else ViewContact(first.contactId);
        var title := collapsedTitle;
        if upcomingBirthdays > 1 {
          title := collapsedTitle + " + " + Decimal(upcomingBirthdays - 1);
        }
        data := Visible(title, expandedTitleName, body, clickIntent);
      } else {
        data := Hidden;
      }
    }

    /**
     * The loop of onUpdateData over the sorted birthdays, with `today` the
     * day it runs: it counts the birthdays it announces, keeps the first
     * one's name for the titles and builds the body, stopping at the first
     * birthday beyond the limit.
     */
    method CountUpcoming(ghost es: seq<Entry>, birthdays: seq<Birthday>, today: Date)
      returns (upcomingBirthdays: int, collapsedTitle: string, expandedTitleName: string, body: seq<BodyPart>,
               ghost shown: seq<Shown>)
      requires ValidDate(today) && |es| == |birthdays|
      requires forall k :: 0 <= k < |birthdays| ==>
        Announceable(birthdays[k].View()) && es[k] == EntryOf(birthdays[k].View())
      ensures shown == Scan(es, today, daysLimit) && upcomingBirthdays == |shown|
      ensures shown != [] ==> collapsedTitle == expandedTitleName == shown[0].entry.displayName
      ensures body == Body(shown, today.year)
    {
      upcomingBirthdays := 0;
      collapsedTitle := "";
      expandedTitleName := "";
      body := [];
      shown := [];
      var i := 0;
      while i < |birthdays|
        invariant 0 <= i <= |birthdays| && |shown| <= i
        invariant Scan(es, today, daysLimit) == shown + Scan(es[i..], today, daysLimit)
        invariant upcomingBirthdays == |shown|
        invariant shown != [] ==> collapsedTitle == expandedTitleName == shown[0].entry.displayName
        invariant body == Body(shown, today.year)
      {
        var birthday := birthdays[i];
        ScanStep(es, i, today, daysLimit);
        var days := DaysUntilBirthday(birthday.birthdayDate.value, today);
        if days.None? {
          // logged, then the next birthday
          i := i + 1;
          continue;
        }
        if days.value <= daysLimit {
          ghost var added := Shown(es[i], days.value);
          upcomingBirthdays, collapsedTitle, expandedTitleName, body :=
            AnnounceBirthday(shown, added, upcomingBirthdays, collapsedTitle, expandedTitleName, body, birthday, days.value,
                             today.year);
          Associative(shown, [added], Scan(es[i + 1..], today, daysLimit));
          shown := shown + [added];
        } else {
          // all visible birthdays have been processed
          break;
        }
        i := i + 1;
      }
      if i == |birthdays| {
        assert es[i..] == [];
      }
    }

    /** The loop of onUpdateData and the publishUpdate that follows it. */
    method PublishedData(birthdays: seq<Birthday>, ghost views: seq<BirthdayView>, today: Date) returns (data: ExtensionData)
      requires ValidDate(today) && views == Views(birthdays) && AllAnnounceable(views)
      ensures data == UpdateData(Entries(views), today, daysLimit, showQuickContact)
    {
      ghost var es := Entries(views);
      var upcomingBirthdays, collapsedTitle, expandedTitleName, body, shown := CountUpcoming(es, birthdays, today);
      data := PublishUpdate(es, shown, birthdays, upcomingBirthdays, collapsedTitle, expandedTitleName, body,
                            today.year);
    }

    /**
     * birthdayRetriever.getContactWithBirthdays(context, contactGroupId), on
     * the day `clock`; `views` is what the returned birthdays hold.
     */
    method FetchBirthdays(provider: ContactsProvider, clock: Date)
      returns (birthdays: seq<Birthday>, ghost views: seq<BirthdayView>)
      requires ValidDate(clock) && contactGroupId.Some?
      ensures views == Views(birthdays)
      ensures provider.birthdayEvents.None? ==> birthdays == []
      ensures Retrieved(views, clock)
    {
      ghost var unsorted;
      birthdays, unsorted := GetContactWithBirthdays(provider, contactGroupId.value, clock);
      views := Views(birthdays);
      forall k | 0 <= k < |birthdays| ensures Announceable(views[k]) {
        assert birthdays[k] in birthdays;
      }
    }

    /**
     * onUpdateData after the settings step: the sorted birthdays of the
     * chosen group are fetched, the language is switched when localization
     * was toggled or is disabled, and the birthdays within the limit are
     * published. `clock` is the day it runs; `systemLanguage` the language
     * of the system configuration; `views` is what the fetched birthdays
     * hold.
     */
    method Refresh(provider: ContactsProvider, clock: Date, systemLanguage: string)
      returns (data: ExtensionData, birthdays: seq<Birthday>, ghost views: seq<BirthdayView>)
      requires ValidDate(clock) && contactGroupId.Some?
      modifies this
      ensures daysLimit == old(daysLimit) && showQuickContact == old(showQuickContact)
      ensures contactGroupId == old(contactGroupId) && disableLocalization == old(disableLocalization)
      ensures needToRefreshLocalization == old(needToRefreshLocalization)
      ensures defaultLanguage == LanguageAfterUpdate(needToRefreshLocalization, disableLocalization,
                                                     old(defaultLanguage), systemLanguage)
      ensures views == Views(birthdays)
      ensures provider.birthdayEvents.None? ==> birthdays == []
      ensures Retrieved(views, clock)
      ensures data == UpdateData(Entries(views), clock, daysLimit, showQuickContact)
    {
      birthdays, views := FetchBirthdays(provider, clock);
      Localize(systemLanguage);
      data := PublishedData(birthdays, views, clock);
    }

    /** Disable/enable Android localization: only the language changes. */
    method Localize(systemLanguage: string)
      modifies this
      ensures daysLimit == old(daysLimit) && showQuickContact == old(showQuickContact)
      ensures contactGroupId == old(contactGroupId) && disableLocalization == old(disableLocalization)
      ensures needToRefreshLocalization == old(needToRefreshLocalization)
      ensures defaultLanguage == LanguageAfterUpdate(needToRefreshLocalization, disableLocalization,
                                                     old(defaultLanguage), systemLanguage)
    {
      defaultLanguage := LanguageAfterUpdate(needToRefreshLocalization, disableLocalization, defaultLanguage,
                                             systemLanguage);
    }

    /**
     * onUpdateData(reason): the settings are read again when they changed
     * (an unparsable days limit escapes as NumberFormatException, before
     * anything is fetched), then Refresh.
     */
    method OnUpdateData(reason: UpdateReason, prefs: Preferences, provider: ContactsProvider, clock: Date,
                        systemLanguage: string)
      returns (r: Result<ExtensionData>, birthdays: seq<Birthday>, ghost views: seq<BirthdayView>)
      requires ValidDate(clock) && contactGroupId.Some?
      modifies this
      ensures reason == SettingsChanged && ParseInt(prefs.daysLimit.GetOr(DEFAULT_DAYS_LIMIT)).None? ==>
        r == Thrown(NumberFormatException) && unchanged(this)
      ensures r.Ok? <==> reason == OtherReason || ParseInt(prefs.daysLimit.GetOr(DEFAULT_DAYS_LIMIT)).Some?
      ensures reason == OtherReason ==>
        && daysLimit == old(daysLimit) && showQuickContact == old(showQuickContact)
        && contactGroupId == old(contactGroupId) && disableLocalization == old(disableLocalization)
      ensures r.Ok? && reason == SettingsChanged ==>
        && daysLimit == ParseInt(prefs.daysLimit.GetOr(DEFAULT_DAYS_LIMIT)).value
        && contactGroupId == Some(prefs.contactGroup.GetOr(NO_CONTACT_GROUP_SELECTED))
      ensures r.Ok? ==>
        && contactGroupId.Some?
        && defaultLanguage == LanguageAfterUpdate(needToRefreshLocalization, disableLocalization,
                                                  old(defaultLanguage), systemLanguage)
        && views == Views(birthdays)
        && Retrieved(views, clock)
        && r.value == UpdateData(Entries(views), clock, daysLimit, showQuickContact)
    {
      if reason == SettingsChanged {
        var thrown := UpdatePreferences(prefs);
        if thrown.Some? {
          return Thrown(thrown.value), [], [];
        }
      }
      var data;
      data, birthdays, views := Refresh(provider, clock, systemLanguage);
      r := Ok(data);
    }
  }
}
