/**
 * The birthday pattern `(\d{4}|-)-(\d{2})-(\d{2})` applied with
 * Matcher.find(): the ISO 8601 extended calendar date YYYY-MM-DD
 * (section 4.1.2.2 of ISO 8601:2004) and the year-less --MM-DD form that
 * Android contacts store. Both source trees compile the same pattern.
 */
module DatePattern {
  import opened JavaLang
  import opened Calendar

  /** The three capture groups of a successful find(). */
  datatype DateMatch = DateMatch(yearGroup: string, monthGroup: string, dayGroup: string)

  predicate DigitsAt(s: string, i: int, n: nat) {
    0 <= i && i + n <= |s| && AllDigits(s[i..i + n])
  }

  /** The first alternative of group 1: `\d{4}-\d{2}-\d{2}` starts at i. */
  predicate YearFormAt(s: string, i: int) {
    DigitsAt(s, i, 4) && i + 10 <= |s| && s[i + 4] == '-' && DigitsAt(s, i + 5, 2)
    && s[i + 7] == '-' && DigitsAt(s, i + 8, 2)
  }

  /** The second alternative of group 1: `--\d{2}-\d{2}` starts at i. */
  predicate YearlessFormAt(s: string, i: int) {
    0 <= i && i + 7 <= |s| && s[i] == '-' && s[i + 1] == '-' && DigitsAt(s, i + 2, 2)
    && s[i + 4] == '-' && DigitsAt(s, i + 5, 2)
  }

  /** The pattern matches some text starting at position i. */
  predicate MatchesAt(s: string, i: int) {
    YearFormAt(s, i) || YearlessFormAt(s, i)
  }

  /**
   * The groups of the match at i. The alternatives start with a digit and
   * with '-' respectively, so at most one of them applies at a position.
   */
  function GroupsAt(s: string, i: int): (m: DateMatch)
    requires MatchesAt(s, i)
    ensures m.yearGroup == "-" || (|m.yearGroup| == 4 && AllDigits(m.yearGroup))
    ensures |m.monthGroup| == 2 && AllDigits(m.monthGroup)
    ensures |m.dayGroup| == 2 && AllDigits(m.dayGroup)
  {
    if YearFormAt(s, i) then DateMatch(s[i..i + 4], s[i + 5..i + 7], s[i + 8..i + 10])
    else DateMatch("-", s[i + 2..i + 4], s[i + 5..i + 7])
  }

  /**
   * Matcher.find() from position `from`: the groups of the leftmost match
   * at or after `from`, or None when there is none.
   */
  function FindFrom(s: string, from: nat): (r: Option<DateMatch>)
    requires from <= |s|
    ensures r.None? <==> forall i :: from <= i <= |s| ==> !MatchesAt(s, i)
    ensures r.Some? ==> exists i :: from <= i <= |s| && MatchesAt(s, i) && r.value == GroupsAt(s, i)
                                   && forall j :: from <= j < i ==> !MatchesAt(s, j)
    decreases |s| - from
  {
    if MatchesAt(s, from) then Some(GroupsAt(s, from))
    else if from == |s| then None
    else FindFrom(s, from + 1)
  }

  /** Matcher.find() on a fresh matcher. */
  function Find(s: string): Option<DateMatch> {
    FindFrom(s, 0)
  }

  /** What buildBirthday extracts from a start date that yields a birthday. */
  datatype BirthDate = BirthDate(date: MonthDay, year: Option<int>)

  /**
   * The date analysis of buildBirthday: find the pattern, build
   * `new MonthDay(group 2, group 3)` (None when the constructor throws),
   * and read group 1 as the year unless it is "-".
   */
  function ParseBirthDate(s: string): Option<BirthDate> {
    match Find(s)
    case None => None
    case Some(m) =>
      var md := MonthDay(DigitsValue(m.monthGroup), DigitsValue(m.dayGroup));
      if !ValidMonthDay(md) then None
      else Some(BirthDate(md, if m.yearGroup == "-" then None else Some(DigitsValue(m.yearGroup))))
  }

  /** The full ISO 8601 form YYYY-MM-DD. */
  function IsoDate(year: nat, md: MonthDay): string
    requires year < 10000 && ValidMonthDay(md)
  {
    Padded(year, 4) + "-" + Padded(md.month, 2) + "-" + Padded(md.day, 2)
  }

  /** The year-less form --MM-DD. */
  function YearlessDate(md: MonthDay): string
    requires ValidMonthDay(md)
  {
    "--" + Padded(md.month, 2) + "-" + Padded(md.day, 2)
  }

  /**
   * A date written as YYYY-MM-DD parses back to its month, day and year,
   * whatever follows it (a time part, for instance).
   */
  lemma ParseIsoDate(year: nat, md: MonthDay, rest: string)
    requires year < 10000 && ValidMonthDay(md)
    ensures ParseBirthDate(IsoDate(year, md) + rest) == Some(BirthDate(md, Some(year)))
  {
    var s := IsoDate(year, md) + rest;
    assert s[0..4] == Padded(year, 4);
    assert s[5..7] == Padded(md.month, 2);
    assert s[8..10] == Padded(md.day, 2);
    assert YearFormAt(s, 0);
    PaddedRoundTrip(year, 4);
    PaddedRoundTrip(md.month, 2);
    PaddedRoundTrip(md.day, 2);
  }

  /** A date written as --MM-DD parses back to its month and day, with no year. */
  lemma ParseYearlessDate(md: MonthDay, rest: string)
    requires ValidMonthDay(md)
    ensures ParseBirthDate(YearlessDate(md) + rest) == Some(BirthDate(md, None))
  {
    var s := YearlessDate(md) + rest;
    assert s[2..4] == Padded(md.month, 2);
    assert s[5..7] == Padded(md.day, 2);
    assert s[0] == '-' && !IsDigit(s[0]);
    assert !DigitsAt(s, 0, 4) by { assert !IsDigit(s[0..4][0]); }
    assert YearlessFormAt(s, 0);
    PaddedRoundTrip(md.month, 2);
    PaddedRoundTrip(md.day, 2);
  }

  /**
   * What a successful parse means: there is a leftmost match, the month and
   * day come from groups 2 and 3 and form a valid MonthDay, and a year is
   * present exactly when group 1 is not "-". No match, or an impossible
   * month/day, gives None.
   */
  lemma ParseBirthDateMeaning(s: string)
    ensures Find(s).None? ==> ParseBirthDate(s).None?
    ensures Find(s).Some? ==>
      var m := Find(s).value;
      var md := MonthDay(DigitsValue(m.monthGroup), DigitsValue(m.dayGroup));
      && (ParseBirthDate(s).Some? <==> ValidMonthDay(md))
      && (ParseBirthDate(s).Some? ==>
            ParseBirthDate(s).value.date == md
            && (ParseBirthDate(s).value.year.None? <==> m.yearGroup == "-"))
    ensures ParseBirthDate(s).Some? ==>
      ValidMonthDay(ParseBirthDate(s).value.date)
      && (ParseBirthDate(s).value.year.Some? ==> 0 <= ParseBirthDate(s).value.year.value <= 9999)
  {
    if Find(s).Some? {
      var m := Find(s).value;
      if m.yearGroup != "-" {
        assert DigitsValue(m.yearGroup) < Pow10(4) == 10000;
      }
    }
  }
}
