/**
 * BirthdayService of the older source tree: the same extension without the
 * contact-group setting. It fetches the birthdays before it rereads the
 * settings, and a date with no event this year other than Feb 29 escapes
 * from onUpdateData as IllegalFieldValueException.
 */
module LegacyService {
  import opened JavaLang
  import opened Calendar
  import opened LegacyBirthday
  import opened LegacyRetriever
  import opened ExtensionStatus

  /** The stored settings; None where nothing is stored and the default applies. */
  datatype Preferences = Preferences(
    daysLimit: Option<string>,
    showQuickContact: Option<bool>,
    disableLocalization: Option<bool>)

  /** What the update loop reads from a Birthday with a date. */
  function EntryOf(v: BirthdayView): Entry
    requires v.birthdayDate.Some?
  {
    Entry(v.displayName, v.birthdayDate.value, v.unknownYear, v.year, v.lookupKey, v.contactId)
  }

  /** Every birthday has a date; the loop dereferences it without a check. */
  predicate AllDated(vs: seq<BirthdayView>) {
    forall k :: 0 <= k < |vs| ==> vs[k].birthdayDate.Some?
  }

  /** Every birthday has a valid date, as the retriever guarantees. */
  predicate AllAnnounceable(vs: seq<BirthdayView>) {
    forall k :: 0 <= k < |vs| ==> Announceable(vs[k])
  }

  /**
   * What getContactWithBirthdays guarantees the update loop on the day it
   * runs: every birthday comparable with that day's TODAY, sorted by
   * compareTo, with a valid date and a name.
   */
  predicate Retrieved(vs: seq<BirthdayView>, today: Date) {
    AllComparable(vs, MonthDayOf(today)) && SortedViews(vs, MonthDayOf(today)) && AllAnnounceable(vs) && AllDated(vs)
  }

  function Entries(vs: seq<BirthdayView>): (es: seq<Entry>)
    requires AllDated(vs)
    ensures |es| == |vs| && forall k :: 0 <= k < |vs| ==> es[k] == EntryOf(vs[k])
  {
    if vs == [] then [] else Entries(vs[..|vs| - 1]) + [EntryOf(vs[|vs| - 1])]
  }

  /**
   * On the list the retriever returns the older loop never throws, and
   * publishes what the current tree's loop publishes.
   */
  lemma RetrievedListNeverThrows(vs: seq<BirthdayView>, today: Date, daysLimit: int, showQuickContact: bool)
    requires ValidDate(today) && AllAnnounceable(vs)
    ensures LegacyUpdateData(Entries(vs), today, daysLimit, showQuickContact)
      == Ok(UpdateData(Entries(vs), today, daysLimit, showQuickContact))
  {
    var es := Entries(vs);
    assert AllValid(es) by {
      forall k | 0 <= k < |es| ensures ValidMonthDay(es[k].birthdayDate) {
        assert es[k] == EntryOf(vs[k]);
      }
    }
    LegacyUpdateDataAgrees(es, today, daysLimit, showQuickContact);
  }

  class BirthdayService {
    var daysLimit: int
    var showQuickContact: bool
    var disableLocalization: bool
    var needToRefreshLocalization: bool
    /** Locale.getDefault().getLanguage(), which onUpdateData may change. */
    var defaultLanguage: string

    /** A new extension: every field holds Java's default value. */
    constructor (defaultLanguage: string)
      ensures daysLimit == 0 && !showQuickContact && !disableLocalization
      ensures !needToRefreshLocalization && this.defaultLanguage == defaultLanguage
    {
      daysLimit := 0;
      showQuickContact := false;
      disableLocalization := false;
      needToRefreshLocalization := false;
      this.defaultLanguage := defaultLanguage;
    }

    /**
     * updatePreferences(): Integer.valueOf on the days limit ("7" when
     * unset) throws NumberFormatException before any field changes;
     * otherwise every setting is read, and the refresh flag records whether
     * disableLocalization changed.
     */
    method UpdatePreferences(prefs: Preferences) returns (thrown: Option<JavaException>)
      modifies this
      ensures ParseInt(prefs.daysLimit.GetOr(DEFAULT_DAYS_LIMIT)).None? ==>
        thrown == Some(NumberFormatException) && unchanged(this)
      ensures ParseInt(prefs.daysLimit.GetOr(DEFAULT_DAYS_LIMIT)).Some? ==>
        && thrown == None
        && daysLimit == ParseInt(prefs.daysLimit.GetOr(DEFAULT_DAYS_LIMIT)).value
        && showQuickContact == prefs.showQuickContact.GetOr(true)
        && disableLocalization == prefs.disableLocalization.GetOr(false)
        && needToRefreshLocalization == (old(disableLocalization) != disableLocalization)
        && defaultLanguage == old(defaultLanguage)
    {
      var parsed := ParseInt(prefs.daysLimit.GetOr(DEFAULT_DAYS_LIMIT));
      if parsed.None? {
        return Some(NumberFormatException);
      }
      daysLimit := parsed.value;
      showQuickContact := prefs.showQuickContact.GetOr(true);
      var previousDisableLocalizationValue := disableLocalization;
      disableLocalization := prefs.disableLocalization.GetOr(false);
      needToRefreshLocalization := previousDisableLocalizationValue != disableLocalization;
      return None;
    }

    /** onInitialize(isReconnect): the settings are read once; the content watch is not modelled. */
    method OnInitialize(prefs: Preferences) returns (thrown: Option<JavaException>)
      modifies this
      ensures thrown.None? <==> ParseInt(prefs.daysLimit.GetOr(DEFAULT_DAYS_LIMIT)).Some?
      ensures thrown.None? ==> daysLimit == ParseInt(prefs.daysLimit.GetOr(DEFAULT_DAYS_LIMIT)).value
    {
      thrown := UpdatePreferences(prefs);
    }

    /**
     * The body of the loop up to the limit test: toDateTime(today), March
     * 1st for Feb 29 when that throws, None when it throws for any other
     * date (the caller rethrows); then the days until the event or, once
     * it has passed, until the same day next year.
     */
    static method DaysUntilBirthday(birthdayDate: MonthDay, today: Date) returns (days: Option<int>)
      requires ValidDate(today)
      ensures days == BirthdayDays(birthdayDate, today)
    {
      var birthdayEvent := InYear(birthdayDate, today.year);
      if birthdayEvent.None? {
        if birthdayDate.day == 29 && birthdayDate.month == 2 {
          // Birthday on February 29th (leap year) -> March 1st
          birthdayEvent := InYear(MonthDay(3, 1), today.year);
        } else {
          return None;
        }
      }
      var event := birthdayEvent.value;
      if !DateBefore(event, today) {
        days := Some(DaysBetween(today, event));
      } else {
        // the next birthday event is next year
        days := Some(DaysBetween(today, PlusYears(event, 1)));
      }
    }

    /**
     * The branch of the loop for a birthday within the limit: count it,
     * take its name for the titles if it is the first, and append its body
     * text.
     */
    static method AnnounceBirthday(ghost shown: seq<Shown>, ghost added: Shown, upcomingBirthdays: int,
                                   collapsedTitle: string, expandedTitleName: string, body: seq<BodyPart>,
                                   birthday: Birthday, days: int, todayYear: int)
      returns (upcoming: int, collapsed: string, expanded: string, extended: seq<BodyPart>)
      requires birthday.birthdayDate.Some? && added == Shown(EntryOf(birthday.View()), days)
      requires upcomingBirthdays == |shown| && body == Body(shown, todayYear)
      requires shown != [] ==> collapsedTitle == expandedTitleName == shown[0].entry.displayName
      ensures upcoming == |shown + [added]| && extended == Body(shown + [added], todayYear)
      ensures collapsed == expanded == (shown + [added])[0].entry.displayName
    {
      upcoming := upcomingBirthdays + 1;
      collapsed, expanded := collapsedTitle, expandedTitleName;
      if upcoming == 1 {
        collapsed := birthday.displayName;
        expanded := birthday.displayName;
      }
      // more than one birthday: the contact's name
      extended := body;
      ghost var name: seq<BodyPart> := [];
      if upcoming > 1 {
        extended := extended + [ContactLine(birthday.displayName)];
        name := [ContactLine(birthday.displayName)];
      }
      assert extended == body + name;
      ghost var age: seq<BodyPart> := [];
      if !birthday.unknownYear {
        extended := extended + [AgeText(todayYear - birthday.year)];
        age := [AgeText(todayYear - birthday.year)];
      }
      assert extended == body + name + age;
      var daysFormat := if days == 0 then WHEN_TODAY_FORMAT
        else if days == 1 then WHEN_TOMORROW_FORMAT
        else WHEN_DAYS_FORMAT;
      extended := extended + [WhenText(daysFormat, days)];
      assert name + age + [WhenText(daysFormat, days)] == EntryParts(added, |shown| > 0, todayYear);
      AppendPieces(body, name, age, [WhenText(daysFormat, days)]);
      BodyStep(shown, added, todayYear);
    }

    /**
     * The loop of onUpdateData over the sorted birthdays, with `today` the
     * day it runs: as in the current tree, except that a date with no event
     * this year other than Feb 29 ends the loop with the exception.
     */
    method CountUpcoming(ghost es: seq<Entry>, birthdays: seq<Birthday>, today: Date)
      returns (thrown: Option<JavaException>, upcomingBirthdays: int, collapsedTitle: string,
               expandedTitleName: string, body: seq<BodyPart>, ghost shown: seq<Shown>)
      requires ValidDate(today) && |es| == |birthdays|
      requires forall k :: 0 <= k < |birthdays| ==>
        birthdays[k].birthdayDate.Some? && es[k] == EntryOf(birthdays[k].View())
      ensures thrown.Some? ==> LegacyScan(es, today, daysLimit) == Thrown(thrown.value)
      ensures thrown.None? ==> LegacyScan(es, today, daysLimit) == Ok(shown) && upcomingBirthdays == |shown|
      ensures thrown.None? && shown != [] ==> collapsedTitle == expandedTitleName == shown[0].entry.displayName
      ensures thrown.None? ==> body == Body(shown, today.year)
    {
      thrown := None;
      upcomingBirthdays := 0;
      collapsedTitle := "";
      expandedTitleName := "";
      body := [];
      shown := [];
      var i := 0;
      assert AfterShown(shown, LegacyScan(es[i..], today, daysLimit)) == LegacyScan(es, today, daysLimit) by {
        assert es[i..] == es;
        var whole := LegacyScan(es, today, daysLimit);
        if whole.Ok? {
          assert shown + whole.value == whole.value;
        }
      }
      while i < |birthdays|
        invariant 0 <= i <= |birthdays|
        invariant LegacyScan(es, today, daysLimit) == AfterShown(shown, LegacyScan(es[i..], today, daysLimit))
        invariant upcomingBirthdays == |shown|
        invariant shown != [] ==> collapsedTitle == expandedTitleName == shown[0].entry.displayName
        invariant body == Body(shown, today.year)
      {
        var birthday := birthdays[i];
        LegacyScanStep(es, i, today, daysLimit);
        var days := DaysUntilBirthday(birthday.birthdayDate.value, today);
        if days.None? {
          // rethrown
          return Some(IllegalFieldValueException), upcomingBirthdays, collapsedTitle, expandedTitleName, body, shown;
        }
        if days.value <= daysLimit {
          ghost var added := Shown(es[i], days.value);
          upcomingBirthdays, collapsedTitle, expandedTitleName, body :=
            AnnounceBirthday(shown, added, upcomingBirthdays, collapsedTitle, expandedTitleName, body, birthday, days.value,
                             today.year);
          AfterShownAppend(shown, added, LegacyScan(es[i + 1..], today, daysLimit));
          shown := shown + [added];
        } else {
          // all visible birthdays have been processed
          break;
        }
        i := i + 1;
      }
      if i == |birthdays| {
        assert es[i..] == [];
      }
      assert shown + [] == shown;
    }

    /**
     * publishUpdate after the loop: nothing when no birthday was counted;
     * otherwise the first name, followed by " + " and the number of the
     * others when there are any, and the click intent of the list's first
     * birthday.
     */
    method PublishUpdate(ghost es: seq<Entry>, ghost shown: seq<Shown>, birthdays: seq<Birthday>,
                         upcomingBirthdays: int, collapsedTitle: string, expandedTitleName: string,
                         body: seq<BodyPart>, todayYear: int)
      returns (data: ExtensionData)
      requires |shown| <= |es| == |birthdays| && upcomingBirthdays == |shown|
      requires birthdays != [] ==> birthdays[0].birthdayDate.Some? && es[0] == EntryOf(birthdays[0].View())
      requires shown != [] ==> collapsedTitle == expandedTitleName == shown[0].entry.displayName
      requires body == Body(shown, todayYear)
      ensures data == Render(es, shown, todayYear, showQuickContact)
    {
      if upcomingBirthdays > 0 {
        var first := birthdays[0];
        var clickIntent := if showQuickContact then QuickContact(first.lookupKey) else ViewContact(first.contactId);
        var title := collapsedTitle;
        if upcomingBirthdays > 1 {
          title := collapsedTitle + " + " + Decimal(upcomingBirthdays - 1);
        }
        data := Visible(title, expandedTitleName, body, clickIntent);
      } else {
        data := Hidden;
      }
    }

    /** The loop of onUpdateData and the publishUpdate that follows it, unless the loop throws. */
    method PublishedData(birthdays: seq<Birthday>, ghost views: seq<BirthdayView>, today: Date)
      returns (r: Result<ExtensionData>)
      requires ValidDate(today) && views == Views(birthdays) && AllDated(views)
      ensures r == LegacyUpdateData(Entries(views), today, daysLimit, showQuickContact)
    {
      ghost var es := Entries(views);
      var thrown, upcomingBirthdays, collapsedTitle, expandedTitleName, body, shown := CountUpcoming(es, birthdays, today);
      if thrown.Some? {
        return Thrown(thrown.value);
      }
      var data := PublishUpdate(es, shown, birthdays, upcomingBirthdays, collapsedTitle, expandedTitleName, body,
                                today.year);
      r := Ok(data);
    }

    /**
     * birthdayRetriever.getContactWithBirthdays(context), on the day
     * `clock`; `views` is what the returned birthdays hold.
     */
    static method FetchBirthdays(provider: ContactsProvider, clock: Date)
      returns (birthdays: seq<Birthday>, ghost views: seq<BirthdayView>)
      ensures views == Views(birthdays)
      ensures provider.birthdayEvents.None? ==> birthdays == []
      ensures Retrieved(views, clock)
    {
      ghost var unsorted;
      birthdays, unsorted := GetContactWithBirthdays(provider, clock);
      views := Views(birthdays);
      forall k | 0 <= k < |birthdays| ensures Announceable(views[k]) {
        assert birthdays[k] in birthdays;
      }
    }

    /**
     * onUpdateData(reason): the sorted birthdays are fetched; the settings
     * are read again when they changed (an unparsable days limit escapes as
     * NumberFormatException); the language is switched when localization
     * was toggled or is disabled; and the birthdays within the limit are
     * published. `clock` is the day it runs; `systemLanguage` the language
     * of the system configuration; `views` is what the fetched birthdays
     * hold.
     */
    method OnUpdateData(reason: UpdateReason, prefs: Preferences, provider: ContactsProvider, clock: Date,
                        systemLanguage: string)
      returns (r: Result<ExtensionData>, birthdays: seq<Birthday>, ghost views: seq<BirthdayView>)
      requires ValidDate(clock)
      modifies this
      ensures reason == SettingsChanged && ParseInt(prefs.daysLimit.GetOr(DEFAULT_DAYS_LIMIT)).None? ==>
        r == Thrown(NumberFormatException) && unchanged(this)
      ensures reason == OtherReason ==>
        && daysLimit == old(daysLimit) && showQuickContact == old(showQuickContact)
        && disableLocalization == old(disableLocalization)
      ensures reason == SettingsChanged && ParseInt(prefs.daysLimit.GetOr(DEFAULT_DAYS_LIMIT)).Some? ==>
        daysLimit == ParseInt(prefs.daysLimit.GetOr(DEFAULT_DAYS_LIMIT)).value
      ensures reason == OtherReason || ParseInt(prefs.daysLimit.GetOr(DEFAULT_DAYS_LIMIT)).Some? ==>
        && defaultLanguage == LanguageAfterUpdate(needToRefreshLocalization, disableLocalization,
                                                  old(defaultLanguage), systemLanguage)
        && views == Views(birthdays)
        && Retrieved(views, clock)
        && r == LegacyUpdateData(Entries(views), clock, daysLimit, showQuickContact)
    {
      birthdays, views := FetchBirthdays(provider, clock);
      if reason == SettingsChanged {
        var thrown := UpdatePreferences(prefs);
        if thrown.Some? {
          return Thrown(thrown.value), birthdays, views;
        }
      }
      r := Refresh(birthdays, views, clock, systemLanguage);
    }

    /**
     * onUpdateData once the settings are read: the language is switched
     * when localization was toggled or is disabled, and the birthdays
     * within the limit are published.
     */
    method Refresh(birthdays: seq<Birthday>, ghost views: seq<BirthdayView>, clock: Date, systemLanguage: string)
      returns (r: Result<ExtensionData>)
      requires ValidDate(clock) && views == Views(birthdays) && AllDated(views)
      modifies this
      ensures daysLimit == old(daysLimit) && showQuickContact == old(showQuickContact)
      ensures disableLocalization == old(disableLocalization)
      ensures needToRefreshLocalization == old(needToRefreshLocalization)
      ensures defaultLanguage == LanguageAfterUpdate(needToRefreshLocalization, disableLocalization,
                                                     old(defaultLanguage), systemLanguage)
      ensures views == Views(birthdays)
      ensures r == LegacyUpdateData(Entries(views), clock, daysLimit, showQuickContact)
    {
      Localize(systemLanguage);
      r := PublishedData(birthdays, views, clock);
    }

    /** Disable/enable Android localization: only the language changes. */
    method Localize(systemLanguage: string)
      modifies this
      ensures daysLimit == old(daysLimit) && showQuickContact == old(showQuickContact)
      ensures disableLocalization == old(disableLocalization)
      ensures needToRefreshLocalization == old(needToRefreshLocalization)
      ensures defaultLanguage == LanguageAfterUpdate(needToRefreshLocalization, disableLocalization,
                                                     old(defaultLanguage), systemLanguage)
    {
      defaultLanguage := LanguageAfterUpdate(needToRefreshLocalization, disableLocalization, defaultLanguage,
                                             systemLanguage);
    }
  }
}
