# DashClock Birthday, modelled in Dafny

DashClock Birthday is a DashClock extension for Android. It reads the
birthday events of the phone's contacts and shows the ones due within a
configurable number of days. The repository holds two versions of the same
extension:

- the current tree, under `android/src/main/java/...`, which can restrict the
  birthdays to one contact group and falls back to `DISPLAY_NAME` when
  `DISPLAY_NAME_PRIMARY` is empty;
- the older tree, under `src/...`, with no group setting. It reads the
  settings after fetching the birthdays, and it throws where the current tree
  skips an invalid date.

This project models the three core classes of both trees:

- `Birthday`: one contact's birthday, ordered by `compareTo`. Birthdays still
  to come this year sort first and the ones already passed sort last.
- `BirthdayRetriever`: parses the contact events with the date pattern. The
  current tree joins them with the chosen group's members. The result is
  sorted.
- `BirthdayService`: keeps the settings in fields, localizes the
  extension, counts the birthdays within the limit and publishes the
  extension's status, title, body and click intent.

Files and modules:

| file | module | what it holds |
|---|---|---|
| `java_lang.dfy` | `JavaLang` | `null` as `Option`, exceptions as `Result`, `String.compareTo`, `Integer.valueOf`, decimal rendering |
| `calendar.dfy` | `Calendar` | Joda-Time's `MonthDay` and `DateTime` reduced to the calendar day: leap years, `toDateTime`, `plusYears`, `Days.daysBetween` |
| `date_pattern.dfy` | `DatePattern` | the pattern `(\d{4}\|-)-(\d{2})-(\d{2})` with `find()`, and the date it yields |
| `ordering.dfy` | `BirthdayOrdering` | the part of `compareTo` shared by both trees, and the rank it orders by |
| `android_birthday.dfy`, `legacy_birthday.dfy` | `AndroidBirthday`, `LegacyBirthday` | the `Birthday` classes |
| `android_retriever.dfy`, `legacy_retriever.dfy` | `AndroidRetriever`, `LegacyRetriever` | `buildBirthday`, the `CursorJoiner` join, the collection loop and `Collections.sort` |
| `extension_status.dfy` | `ExtensionStatus` | the update loop as a function on entries, the published `ExtensionData`, the localization rule |
| `announce_order.dfy` | `AnnounceOrder` | why the loop may stop at the first birthday beyond the limit, and the case where it may not |
| `android_service.dfy`, `legacy_service.dfy` | `AndroidService`, `LegacyService` | the `BirthdayService` classes |

The following become parameters:

- the content provider: a value holding the birthday events, the contacts
  and the group memberships;
- the stored preferences;
- the system language;
- the day the update runs (`clock`).

The methods that build `Birthday` objects return fresh objects, and each
method is proved against a function of its inputs:

- the collection loops against `Collected` and `AllBuilt`;
- the sort against sortedness plus a permutation;
- the service's update loop against `Scan` and `LegacyScan`, and the
  published data against `UpdateData` and `LegacyUpdateData`.

## Model

| member | source | states |
|---|---|---|
| JavaLang.StringCompareToZero | android/src/main/java/fr/nicopico/dashclock/birthday/data/Birthday.java:91 | `String.compareTo` is 0 exactly when the two names are equal |
| JavaLang.StringCompareToSwap | android/src/main/java/fr/nicopico/dashclock/birthday/data/Birthday.java:91 | swapping the names negates `String.compareTo` |
| JavaLang.StringCompareToTransitive | android/src/main/java/fr/nicopico/dashclock/birthday/data/Birthday.java:91 | `String.compareTo` is a transitive strict order |
| JavaLang.DecimalRoundTrip | android/src/main/java/fr/nicopico/dashclock/birthday/BirthdayService.java:207-209 | reading back the decimal text of a count gives the count |
| JavaLang.ParseIntOfDecimal | android/src/main/java/fr/nicopico/dashclock/birthday/BirthdayService.java:78-80 | `Integer.valueOf` accepts the decimal text of every int, with or without a minus sign, and returns that int |
| JavaLang.ParseIntRejectsNonDigits | android/src/main/java/fr/nicopico/dashclock/birthday/BirthdayService.java:78-80 | `Integer.valueOf` throws when a character after the first is not an ASCII digit (other Unicode decimal digits are not modelled) |
| Calendar.InYearFailsOnlyOnLeapDay | android/src/main/java/fr/nicopico/dashclock/birthday/BirthdayService.java:137-149 | for a valid month and day, `toDateTime` fails only for Feb 29 in a common year |
| Calendar.PlusYears | android/src/main/java/fr/nicopico/dashclock/birthday/BirthdayService.java:158 | `plusYears` keeps the month and the day, except Feb 29, which it clamps to Feb 28 in a common year; the result is a valid date |
| Calendar.DayNumberOrder | android/src/main/java/fr/nicopico/dashclock/birthday/BirthdayService.java:152-159 | the day count `Days.daysBetween` counts with is increasing exactly along the calendar order, and is one-to-one |
| Calendar.DayNumberNextDay | android/src/main/java/fr/nicopico/dashclock/birthday/BirthdayService.java:152-159 | the next calendar day, including across a month and a year end, is one day later |
| DatePattern.GroupsAt | android/src/main/java/fr/nicopico/dashclock/birthday/data/BirthdayRetriever.java:55 | a match gives a four-digit year group or "-", then two-digit month and day groups |
| DatePattern.FindFrom | android/src/main/java/fr/nicopico/dashclock/birthday/data/BirthdayRetriever.java:217-219 | `find()` fails exactly when no position matches, and otherwise returns the groups of a position that matches |
| DatePattern.ParseIsoDate | android/src/main/java/fr/nicopico/dashclock/birthday/data/BirthdayRetriever.java:225-233 | a `yyyy-mm-dd` date with any suffix gives back its month/day and its year |
| DatePattern.ParseYearlessDate | android/src/main/java/fr/nicopico/dashclock/birthday/data/BirthdayRetriever.java:225-233 | a `--mm-dd` date gives back its month/day with no year |
| DatePattern.ParseBirthDateMeaning | android/src/main/java/fr/nicopico/dashclock/birthday/data/BirthdayRetriever.java:217-241 | no match means no date; a match gives a date exactly when its month and day form a valid `MonthDay`, and the year is known exactly when the year group is not "-" |
| BirthdayOrdering.GetSign | android/src/main/java/fr/nicopico/dashclock/birthday/data/Birthday.java:106-108 | the sign is +1 exactly for values >= 0 (zero counts as positive) and -1 otherwise |
| BirthdayOrdering.CompareDatedIsRankOrder | android/src/main/java/fr/nicopico/dashclock/birthday/data/Birthday.java:85-97 | `compareTo` on dated birthdays orders by (passed or not, month/day, name) |
| BirthdayOrdering.TodayIsUpcoming | android/src/main/java/fr/nicopico/dashclock/birthday/data/Birthday.java:85 | a birthday on TODAY counts as still to come |
| BirthdayOrdering.PassedSortsLast | android/src/main/java/fr/nicopico/dashclock/birthday/data/Birthday.java:94-97 | a passed birthday sorts after one still to come, from both sides |
| BirthdayOrdering.SameSideOrder | android/src/main/java/fr/nicopico/dashclock/birthday/data/Birthday.java:85-93 | on the same side of TODAY, birthdays order by month/day, then by name |
| BirthdayOrdering.CompareDatedZero | android/src/main/java/fr/nicopico/dashclock/birthday/data/Birthday.java:85-97 | `compareTo` is 0 exactly for the same date and the same name |
| BirthdayOrdering.CompareDatedAntisymmetric | android/src/main/java/fr/nicopico/dashclock/birthday/data/Birthday.java:85-97 | swapping the birthdays negates the sign of `compareTo` |
| AndroidBirthday.ChooseDisplayNamePrefersPrimary | android/src/main/java/fr/nicopico/dashclock/birthday/data/Birthday.java:60 | the display name is `DISPLAY_NAME_PRIMARY` unless that is empty; then it is `DISPLAY_NAME`; it is null exactly when both are missing |
| AndroidBirthday.Birthday.constructor | android/src/main/java/fr/nicopico/dashclock/birthday/data/Birthday.java:42-70 | a found contact gives its lookup key and chosen name; a missing one gives "0" and "[UNKNOWN]"; no date yet, unknown year, year 0, TODAY fixed |
| AndroidBirthday.CompareIsRankOrder | android/src/main/java/fr/nicopico/dashclock/birthday/data/Birthday.java:73-98 | with the failsafe, `compareTo` still orders by a rank that puts undated birthdays first |
| AndroidBirthday.CompareAntisymmetric | android/src/main/java/fr/nicopico/dashclock/birthday/data/Birthday.java:73-98 | `compareTo` is antisymmetric in sign |
| AndroidBirthday.CompareTransitive | android/src/main/java/fr/nicopico/dashclock/birthday/data/Birthday.java:73-98 | `compareTo` is transitive, and strict when either step is strict, so `Collections.sort` may rely on it |
| AndroidBirthday.CompareUndated | android/src/main/java/fr/nicopico/dashclock/birthday/data/Birthday.java:74-83 | two undated birthdays tie; an undated one sorts before a dated one |
| LegacyBirthday.Birthday.constructor | src/fr/nicopico/dashclock/birthday/data/Birthday.java:43-74 | a found contact gives its key, name and photo URIs; a missing one gives "0", "[UNKNOWN]" and no photos; no date yet, unknown year, year 0 |
| LegacyBirthday.CompareZero | src/fr/nicopico/dashclock/birthday/data/Birthday.java:76-91 | `compareTo` is 0 exactly for the same date and name, so a birthday ties with itself |
| LegacyBirthday.CompareAntisymmetric | src/fr/nicopico/dashclock/birthday/data/Birthday.java:76-91 | `compareTo` is antisymmetric in sign |
| LegacyBirthday.CompareTransitive | src/fr/nicopico/dashclock/birthday/data/Birthday.java:76-91 | `compareTo` is transitive, and strict when either step is strict |
| AndroidRetriever.BuiltBirthdayShape | android/src/main/java/fr/nicopico/dashclock/birthday/data/BirthdayRetriever.java:211-244 | a null date gives nothing; a built birthday has a name, the parsed valid month/day, a year in 0..9999 known exactly when the year group is not "-", and the day's TODAY |
| AndroidRetriever.NamelessContactRejected | android/src/main/java/fr/nicopico/dashclock/birthday/data/BirthdayRetriever.java:222-223 | a contact with no display name yields no birthday, even when its date parses |
| AndroidRetriever.BuildBirthday | android/src/main/java/fr/nicopico/dashclock/birthday/data/BirthdayRetriever.java:211-244 | returns null exactly when the row yields no birthday; otherwise a fresh `Birthday` whose fields are the row's parsed birthday |
| AndroidRetriever.NextResult | android/src/main/java/fr/nicopico/dashclock/birthday/data/BirthdayRetriever.java:100-105 | the joiner says LEFT only with a birthday row left, BOTH only when both heads carry the same key, and RIGHT only with a group row left |
| AndroidRetriever.JoinTagsWithoutGroup | android/src/main/java/fr/nicopico/dashclock/birthday/data/BirthdayRetriever.java:185-188 | against the empty group cursor, every birthday row is LEFT |
| AndroidRetriever.CollectedWithoutGroup | android/src/main/java/fr/nicopico/dashclock/birthday/data/BirthdayRetriever.java:98-131 | with no group selected, every birthday the rows yield is kept, in row order |
| AndroidRetriever.JoinTagsWithGroup | android/src/main/java/fr/nicopico/dashclock/birthday/data/BirthdayRetriever.java:98-131 | with both cursors ordered by lookup key, where a key may repeat, the joiner pairs off each key's birthday rows in order with the group rows of that key: a row is BOTH exactly when fewer earlier rows carry its key than the group cursor does, and LEFT otherwise |
| AndroidRetriever.JoinTagsWithUniqueGroupKeys | android/src/main/java/fr/nicopico/dashclock/birthday/data/BirthdayRetriever.java:100-124 | with each group member listed once, a birthday row is BOTH exactly when its contact is in the group and it is the first row of that contact; a member's further birthday rows are LEFT |
| AndroidRetriever.SecondRowOfMemberIsLeft | android/src/main/java/fr/nicopico/dashclock/birthday/data/BirthdayRetriever.java:100-124 | a group member with two birthday rows is joined only once, so its second birthday is LEFT and is dropped when a group is selected |
| AndroidRetriever.CollectedComparable | android/src/main/java/fr/nicopico/dashclock/birthday/data/BirthdayRetriever.java:105-131 | every kept birthday has the day's TODAY, a valid date and a name |
| AndroidRetriever.InsertKeepsOrder | android/src/main/java/fr/nicopico/dashclock/birthday/data/BirthdayRetriever.java:156 | inserting a birthday after the ones that do not sort after it keeps the list sorted |
| AndroidRetriever.Insert | android/src/main/java/fr/nicopico/dashclock/birthday/data/BirthdayRetriever.java:156 | one insertion step of the sort: the same birthdays plus one, still sorted by `compareTo` |
| AndroidRetriever.Sort | android/src/main/java/fr/nicopico/dashclock/birthday/data/BirthdayRetriever.java:156 | `Collections.sort`: a permutation of the list, sorted by `compareTo` |
| AndroidRetriever.JoinBirthdays | android/src/main/java/fr/nicopico/dashclock/birthday/data/BirthdayRetriever.java:98-131 | the joiner loop collects exactly the kept birthdays of the rows, in row order, all fresh, comparable and announceable |
| AndroidRetriever.GetContactWithBirthdays | android/src/main/java/fr/nicopico/dashclock/birthday/data/BirthdayRetriever.java:68-158 | a null cursor gives the empty list; otherwise the result is a sorted permutation of the kept birthdays of the joined rows, each with a valid date and a name |
| LegacyRetriever.BuiltBirthdayShape | src/fr/nicopico/dashclock/birthday/data/BirthdayRetriever.java:90-119 | a row yields a birthday exactly when its date is not null and parses; the birthday has that month/day and a year known exactly when the year group is not "-" |
| LegacyRetriever.BuildBirthday | src/fr/nicopico/dashclock/birthday/data/BirthdayRetriever.java:90-119 | returns null exactly when the row yields no birthday; otherwise a fresh `Birthday` with the row's parsed birthday |
| LegacyRetriever.AllBuiltComparable | src/fr/nicopico/dashclock/birthday/data/BirthdayRetriever.java:74-80 | every collected birthday has the day's TODAY and a valid date |
| LegacyRetriever.AllBuiltLength | src/fr/nicopico/dashclock/birthday/data/BirthdayRetriever.java:74-80 | the loop keeps one birthday per row whose date parses, and none for any other row |
| LegacyRetriever.InsertKeepsOrder | src/fr/nicopico/dashclock/birthday/data/BirthdayRetriever.java:86 | inserting a birthday after the ones that do not sort after it keeps the list sorted |
| LegacyRetriever.Insert | src/fr/nicopico/dashclock/birthday/data/BirthdayRetriever.java:86 | one insertion step: the same birthdays plus one, still sorted |
| LegacyRetriever.Sort | src/fr/nicopico/dashclock/birthday/data/BirthdayRetriever.java:86 | `Collections.sort`: a permutation of the list, sorted by `compareTo` |
| LegacyRetriever.CollectBirthdays | src/fr/nicopico/dashclock/birthday/data/BirthdayRetriever.java:74-80 | the cursor loop collects exactly the rows' birthdays in row order, all fresh, comparable and with valid dates |
| LegacyRetriever.GetContactWithBirthdays | src/fr/nicopico/dashclock/birthday/data/BirthdayRetriever.java:51-88 | a null cursor gives the empty list; otherwise the result is a sorted permutation of the rows' birthdays |
| ExtensionStatus.EventThisYearMeaning | android/src/main/java/fr/nicopico/dashclock/birthday/BirthdayService.java:137-149 | there is an event this year exactly for a valid month/day; it falls on that day, except Feb 29 in a common year, which moves to March 1st |
| ExtensionStatus.DaysUntilBounds | android/src/main/java/fr/nicopico/dashclock/birthday/BirthdayService.java:152-159 | the day count for an event this year lies in 0..365, and is 0 exactly when the event is today |
| ExtensionStatus.Scan | android/src/main/java/fr/nicopico/dashclock/birthday/BirthdayService.java:134-202 | the loop never announces more birthdays than the list holds, and every one it announces is within the limit |
| ExtensionStatus.ScanIsPrefix | android/src/main/java/fr/nicopico/dashclock/birthday/BirthdayService.java:134-202 | with valid dates, the announced birthdays are a prefix of the list, each with its own day count |
| ExtensionStatus.ScanStopsBeyondLimit | android/src/main/java/fr/nicopico/dashclock/birthday/BirthdayService.java:198-201 | when the loop stops before the end, the first birthday not announced is beyond the limit |
| ExtensionStatus.LegacyScanAgrees | src/fr/nicopico/dashclock/birthday/BirthdayService.java:115-182 | with valid dates, the older loop does not throw and announces what the current one does |
| ExtensionStatus.InvalidEntryHandling | src/fr/nicopico/dashclock/birthday/BirthdayService.java:121-129 | a date with no event this year is skipped by the current tree and makes the older tree throw `IllegalFieldValueException` |
| ExtensionStatus.FormatFor | android/src/main/java/fr/nicopico/dashclock/birthday/BirthdayService.java:184-194 | the "today" wording exactly for 0 days, "tomorrow" exactly for 1, "in n days" otherwise |
| ExtensionStatus.Render | android/src/main/java/fr/nicopico/dashclock/birthday/BirthdayService.java:204-225 | the extension is hidden exactly when no birthday was counted |
| ExtensionStatus.CollapsedTitleReadsBack | android/src/main/java/fr/nicopico/dashclock/birthday/BirthdayService.java:207-209 | the status starts with the first name; with others it goes on with " + " and a number that reads back as the count of the others |
| ExtensionStatus.EntryPartsContents | android/src/main/java/fr/nicopico/dashclock/birthday/BirthdayService.java:171-196 | one birthday's body text names the contact only when it is not the first, gives the age only when the year is known, and always gives the days |
| ExtensionStatus.BodyNames | android/src/main/java/fr/nicopico/dashclock/birthday/BirthdayService.java:171-174 | the body names every announced contact except the first, in order |
| ExtensionStatus.BodyWhens | android/src/main/java/fr/nicopico/dashclock/birthday/BirthdayService.java:183-196 | the body gives the day count of every announced birthday, in order |
| ExtensionStatus.BodyAges | android/src/main/java/fr/nicopico/dashclock/birthday/BirthdayService.java:176-181 | the body gives the age of every announced birthday with a known year, in order |
| ExtensionStatus.UpdateDataVisibility | android/src/main/java/fr/nicopico/dashclock/birthday/BirthdayService.java:204-243 | with valid dates, the extension is hidden exactly when the list is empty or its first birthday is beyond the limit; otherwise the title and the click intent are the first birthday's |
| ExtensionStatus.LegacyUpdateDataAgrees | src/fr/nicopico/dashclock/birthday/BirthdayService.java:115-205 | with valid dates, both trees publish the same data; a first entry with no event makes the older tree throw |
| ExtensionStatus.LanguageFollowsSetting | android/src/main/java/fr/nicopico/dashclock/birthday/BirthdayService.java:110-125 | with localization disabled the language is English; after re-enabling it is the system's; a second update with no change keeps the language |
| AnnounceOrder.NextOccurrence | android/src/main/java/fr/nicopico/dashclock/birthday/BirthdayService.java:152-159 | the loop's day count is the distance from today to this year's event, or to next year's once this year's has passed |
| AnnounceOrder.UpcomingOccursThisYear | android/src/main/java/fr/nicopico/dashclock/birthday/data/Birthday.java:85-97 | a birthday sorted among the ones to come next occurs this year |
| AnnounceOrder.PassedOccursNextYear | android/src/main/java/fr/nicopico/dashclock/birthday/data/Birthday.java:94-97 | a passed birthday next occurs next year, on the same day (or Feb 28 for Feb 29), except Feb 29 on March 1st of a common year |
| AnnounceOrder.DaysFollowOrder | android/src/main/java/fr/nicopico/dashclock/birthday/BirthdayService.java:198-201 | along `compareTo`'s order the day counts never decrease, unless the later birthday is Feb 29 on March 1st of a common year |
| AnnounceOrder.AnnouncedIsWithinLimit | android/src/main/java/fr/nicopico/dashclock/birthday/BirthdayService.java:161-162 | a birthday is meant to be announced exactly when its day count is within the limit, and with that count |
| AnnounceOrder.ScanIsAnnouncedWhenAscending | android/src/main/java/fr/nicopico/dashclock/birthday/BirthdayService.java:198-201 | when the day counts never decrease along the list, stopping at the first one beyond the limit loses nothing |
| AnnounceOrder.SortedScanIsAnnounced | android/src/main/java/fr/nicopico/dashclock/birthday/BirthdayService.java:134-202 | on the sorted list, unless a Feb 29 birthday is celebrated today, the loop announces exactly the birthdays within the limit |
| AnnounceOrder.LeapDayBirthdayMissed | android/src/main/java/fr/nicopico/dashclock/birthday/BirthdayService.java:134-202 | on March 1st, 2023, a sorted list where June 10 precedes Feb 29 announces nothing, although the Feb 29 birthday is celebrated that day |
| AndroidService.SortedListIsSortedEntries | android/src/main/java/fr/nicopico/dashclock/birthday/BirthdayService.java:104-105 | the retriever's sorted list, read by the loop, is sorted entries with valid dates |
| AndroidService.BirthdayService.constructor | android/src/main/java/fr/nicopico/dashclock/birthday/BirthdayService.java:52-57 | the fields start at Java's defaults: limit 0, flags false, no group |
| AndroidService.BirthdayService.UpdatePreferences | android/src/main/java/fr/nicopico/dashclock/birthday/BirthdayService.java:77-95 | an unparsable limit throws `NumberFormatException` and changes nothing; otherwise the fields take the stored values or the defaults "7", true, false and no group, and the refresh flag records whether the localization setting changed |
| AndroidService.BirthdayService.OnInitialize | android/src/main/java/fr/nicopico/dashclock/birthday/BirthdayService.java:60-75 | initialization succeeds exactly when the stored limit parses, and then sets the limit and a group id |
| AndroidService.BirthdayService.DaysUntilBirthday | android/src/main/java/fr/nicopico/dashclock/birthday/BirthdayService.java:135-159 | the loop's day count for one birthday, or none for a date with no event |
| AndroidService.BirthdayService.AnnounceBirthday | android/src/main/java/fr/nicopico/dashclock/birthday/BirthdayService.java:162-197 | counting one more birthday extends the count, the titles and the body exactly as the body of the announced list |
| AndroidService.BirthdayService.CountUpcoming | android/src/main/java/fr/nicopico/dashclock/birthday/BirthdayService.java:127-202 | the loop counts exactly the birthdays the scan announces, titles them with the first, and builds their body |
| AndroidService.BirthdayService.PublishUpdate | android/src/main/java/fr/nicopico/dashclock/birthday/BirthdayService.java:204-225 | the published data is the rendering of the counted birthdays |
| AndroidService.BirthdayService.PublishedData | android/src/main/java/fr/nicopico/dashclock/birthday/BirthdayService.java:127-225 | the loop and the publication together give `UpdateData` of the list |
| AndroidService.BirthdayService.FetchBirthdays | android/src/main/java/fr/nicopico/dashclock/birthday/BirthdayService.java:104-105 | the fetched list is sorted and comparable, with valid dates and names |
| AndroidService.BirthdayService.Localize | android/src/main/java/fr/nicopico/dashclock/birthday/BirthdayService.java:107-125 | the language follows the localization rule; no other field changes |
| AndroidService.BirthdayService.Refresh | android/src/main/java/fr/nicopico/dashclock/birthday/BirthdayService.java:103-225 | fetching, localizing and publishing keep the settings and publish `UpdateData` of the sorted list |
| AndroidService.BirthdayService.OnUpdateData | android/src/main/java/fr/nicopico/dashclock/birthday/BirthdayService.java:98-226 | a settings change with an unparsable limit throws and changes nothing; otherwise the settings are reread only on a settings change, and the extension publishes `UpdateData` of the sorted list |
| LegacyService.RetrievedListNeverThrows | src/fr/nicopico/dashclock/birthday/BirthdayService.java:115-129 | on the list the retriever returns, the older loop never throws and publishes what the current loop does |
| LegacyService.BirthdayService.constructor | src/fr/nicopico/dashclock/birthday/BirthdayService.java:48-52 | the fields start at Java's defaults |
| LegacyService.BirthdayService.UpdatePreferences | src/fr/nicopico/dashclock/birthday/BirthdayService.java:67-77 | an unparsable limit throws and changes nothing; otherwise the fields take the stored values or the defaults, and the refresh flag records a change of the localization setting |
| LegacyService.BirthdayService.OnInitialize | src/fr/nicopico/dashclock/birthday/BirthdayService.java:54-65 | initialization succeeds exactly when the stored limit parses, and then sets the limit |
| LegacyService.BirthdayService.DaysUntilBirthday | src/fr/nicopico/dashclock/birthday/BirthdayService.java:116-139 | the loop's day count for one birthday, or none where the loop rethrows |
| LegacyService.BirthdayService.AnnounceBirthday | src/fr/nicopico/dashclock/birthday/BirthdayService.java:142-177 | counting one more birthday extends the count, the titles and the body exactly as the body of the announced list |
| LegacyService.BirthdayService.CountUpcoming | src/fr/nicopico/dashclock/birthday/BirthdayService.java:108-182 | the loop throws exactly when the older scan throws, and otherwise counts, titles and describes what it announces |
| LegacyService.BirthdayService.PublishUpdate | src/fr/nicopico/dashclock/birthday/BirthdayService.java:184-205 | the published data is the rendering of the counted birthdays |
| LegacyService.BirthdayService.PublishedData | src/fr/nicopico/dashclock/birthday/BirthdayService.java:108-205 | the loop and the publication together give `LegacyUpdateData` of the list |
| LegacyService.BirthdayService.FetchBirthdays | src/fr/nicopico/dashclock/birthday/BirthdayService.java:81 | the fetched list is sorted and comparable, with valid dates |
| LegacyService.BirthdayService.Localize | src/fr/nicopico/dashclock/birthday/BirthdayService.java:88-106 | the language follows the localization rule; no other field changes |
| LegacyService.BirthdayService.Refresh | src/fr/nicopico/dashclock/birthday/BirthdayService.java:88-205 | localizing and publishing keep the settings and give `LegacyUpdateData` of the fetched list |
| LegacyService.BirthdayService.OnUpdateData | src/fr/nicopico/dashclock/birthday/BirthdayService.java:80-206 | the birthdays are fetched first; a settings change with an unparsable limit then throws and changes nothing; otherwise the extension publishes `LegacyUpdateData` of the sorted list |

## Left out

- Cursors, the content resolver, `Context`, `SharedPreferences` and
  `Resources` are values or parameters. Closing cursors and registering
  the content watch (`addWatchContentUris`) are not modelled.
- `DateTime` is reduced to the calendar day. The time of day, the time zone
  and daylight saving time are not modelled, so `Days.daysBetween` counts
  whole calendar days.
- Both the retriever and the service use the same day: the `TODAY` of every
  `Birthday` and the service's `today` come from one `clock` value. An update
  that spans midnight is not modelled.
- AndroidRetriever.JoinTagsWithGroup: takes as given that both cursors come
  back ordered by lookup key, as their `ORDER BY LOOKUP_KEY` asks, with
  `String.compareTo` standing for SQLite's collation. The lemma does not
  need the keys to be unique. The birthday cursor has one row per birthday
  event, so a contact with two birthday events (from two raw contacts, say)
  repeats its key, although `CursorJoiner` expects unique keys. The joiner
  then pairs the rows off: with a group selected, a member's second
  birthday row comes out LEFT and is dropped; with no group selected, it is
  kept (`SecondRowOfMemberIsLeft`, `JoinTagsWithUniqueGroupKeys`). On
  cursors not ordered by key, the joiner is modelled as written, but
  nothing is proved about it.
- Strings are sequences of `char`, and `String.compareTo` compares them one
  `char` at a time, like Java's UTF-16 units.
- JavaLang.ParseInt: treats only the ASCII characters '0' to '9' as digits.
  `Integer.valueOf` uses `Character.digit`, which also accepts the other
  Unicode decimal digits (Arabic-Indic or fullwidth digits, for example).
  For a stored days limit written with such digits, the model throws
  `NumberFormatException` where Java sets the limit.
- JavaLang.ParseIntRejectsNonDigits: its "not a digit" means "not an ASCII
  digit", for the same reason; a non-ASCII decimal digit is rejected here
  and accepted by Java.
- DatePattern.FindFrom: reads `\d` as an ASCII digit. Android's ICU-based
  `java.util.regex` takes `\d` as any Unicode decimal digit, so a birthday
  date written with other decimal digits finds no match here, and yields
  no birthday.
- Localized strings (`single_birthday_title_format`, `age_format`, the
  "when" formats) are kept as tokens that carry their arguments. The body is
  a list of parts rather than text.
- `buildClickIntent` is kept as a `ClickIntent` value holding the lookup key
  or the contact id.
- The debug mode of the current retriever (the column dump, the e-mail
  intent and resetting the debug preference) is not modelled; it does not
  change the result.
- `Collections.sort` is modelled by an insertion sort. The model proves a
  permutation and sortedness, but not stability.
- The `Configuration`/`Locale` update is reduced to the service's
  `defaultLanguage` field, and `Locale.getDefault()` is that field.
- `needToRefreshLocalization` is never reset by `onUpdateData`, as written;
  `LanguageFollowsSetting` states what a later update then does.
- The int counters and ages are unbounded; int overflow cannot arise with a
  realistic contact list.
- AndroidService.BirthdayService.OnUpdateData: requires `contactGroupId` to
  be set. It does not model a call before a successful `onInitialize`, where
  the Java code would use a null retriever.
- LegacyService.BirthdayService.OnUpdateData: does not model a call before
  `onInitialize`, for the same reason.
- LegacyBirthday.Birthday.constructor: models `DISPLAY_NAME_PRIMARY` as a
  string, never null. A null name would make `compareTo` throw on a tie.
- AndroidService.BirthdayService.OnUpdateData: links the fetched list to the
  joined rows only through `Retrieved` (sorted, comparable, valid,
  named). The exact contents are stated by
  `AndroidRetriever.GetContactWithBirthdays`, not repeated here.
- LegacyService.BirthdayService.OnUpdateData: the same holds, with
  `LegacyRetriever.GetContactWithBirthdays`.
- ExtensionStatus.Scan: states only the bounds. What it announces is stated
  by `ScanIsPrefix`, `ScanStopsBeyondLimit` and
  `AnnounceOrder.SortedScanIsAnnounced`.

## Findings

| source | as written | input that shows it | evidently intended | confidence | as-written member | corrected member |
|---|---|---|---|---|---|---|
| android/src/main/java/fr/nicopico/dashclock/birthday/BirthdayService.java:134-202 | `compareTo` sorts a Feb 29 birthday among the passed ones on March 1st of a common year, yet the loop moves it to March 1st (today, 0 days). The loop then stops at the first birthday beyond the limit. | today 2023-03-01, limit 7, birthdays June 10 (101 days) and Feb 29: the sorted list is [June 10, Feb 29] and nothing is announced | every birthday within the limit is announced, including Feb 29 celebrated today | not executed | AnnounceOrder.LeapDayBirthdayMissed | AnnounceOrder.Announced |

`AnnounceOrder.Announced` is the set of birthdays the extension is meant
to announce. `AnnounceOrder.AnnouncedIsWithinLimit` proves that it holds
exactly the birthdays within the limit.
`AnnounceOrder.SortedScanIsAnnounced` proves that the loop as written
gives that same list on every other day.
