/**
 * BirthdayRetriever of the current source tree: it reads the contacts'
 * birthday events, joins them with the members of the selected contact
 * group (a merge of two cursors sorted by lookup key, as CursorJoiner does),
 * builds a Birthday for each kept row and sorts the list.
 */
module AndroidRetriever {
  import opened JavaLang
  import opened Calendar
  import opened DatePattern
  import opened AndroidBirthday

  /** A row of the birthday-event query: CONTACT_ID, START_DATE, LOOKUP_KEY. */
  datatype EventRow = EventRow(contactId: int, startDate: Option<string>, lookupKey: string)

  /** What the contacts provider answers to the queries the retriever makes. */
  datatype ContactsProvider = ContactsProvider(
    /** The birthday-event cursor, ordered by lookup key; None for a null cursor. */
    birthdayEvents: Option<seq<EventRow>>,
    /** For each group row id, the lookup keys of its members, ordered. */
    groupMembers: map<string, seq<string>>,
    /** The per-contact query made by the Birthday constructor. */
    contacts: map<int, ContactDetails>)

  /** The contact-group preference value meaning "every contact". */
  const NO_CONTACT_GROUP_SELECTED: string := "NO_CONTACT_GROUP_SELECTED"

  /** getGroupsCursor: an empty cursor when no group is selected, else the group's members. */
  function GroupsCursor(p: ContactsProvider, contactGroupId: string, noGroupSelected: bool): seq<string> {
    if noGroupSelected then []
    else if contactGroupId in p.groupMembers then p.groupMembers[contactGroupId]
    else []
  }

  function LookupContact(contacts: map<int, ContactDetails>, contactId: int): Option<ContactDetails> {
    if contactId in contacts then Some(contacts[contactId]) else None
  }

  // ---------------------------------------------------------------------------
  // buildBirthday
  // ---------------------------------------------------------------------------

  /** The Birthday that buildBirthday returns for a row, as a view; None for null. */
  function BuildSpec(row: EventRow, contacts: map<int, ContactDetails>, clock: Date): Option<BirthdayView> {
    if row.startDate.None? then None
    else
      match ParseBirthDate(row.startDate.value)
      case None => None
      case Some(parsed) =>
        var contact := LookupContact(contacts, row.contactId);
        var lookupKey := if contact.Some? then contact.value.lookupKey else UNKNOWN_LOOKUP_KEY;
        var displayName := if contact.Some? then ChooseDisplayName(contact.value) else Some(UNKNOWN_DISPLAY_NAME);
        if displayName.None? then None
        else Some(BirthdayView(row.contactId, lookupKey, displayName, Some(parsed.date),
                               parsed.year.None?, parsed.year.GetOr(0), MonthDayOf(clock)))
  }

  /**
   * What a built Birthday looks like: it has a display name, a valid date
   * and a four-digit year when the year is known; unknownYear keeps its
   * default together with year 0 otherwise.
   */
  lemma BuiltBirthdayShape(row: EventRow, contacts: map<int, ContactDetails>, clock: Date)
    ensures row.startDate.None? ==> BuildSpec(row, contacts, clock).None?
    ensures BuildSpec(row, contacts, clock).Some? ==>
      var v := BuildSpec(row, contacts, clock).value;
      && row.startDate.Some? && ParseBirthDate(row.startDate.value).Some?
      && v.displayName.Some? && v.birthdayDate.Some? && ValidMonthDay(v.birthdayDate.value)
      && v.birthdayDate.value == ParseBirthDate(row.startDate.value).value.date
      && (v.unknownYear ==> v.year == 0)
      && (!v.unknownYear <==> Find(row.startDate.value).value.yearGroup != "-")
      && 0 <= v.year <= 9999
      && Comparable(v, MonthDayOf(clock))
  {
    if row.startDate.Some? {
      ParseBirthDateMeaning(row.startDate.value);
    }
  }

  /** A contact whose display name is null yields no Birthday, even when its date parses. */
  lemma NamelessContactRejected(row: EventRow, contacts: map<int, ContactDetails>, clock: Date)
    requires row.contactId in contacts && ChooseDisplayName(contacts[row.contactId]).None?
    ensures BuildSpec(row, contacts, clock).None?
  {
  }

  /** buildBirthday(contentResolver, c). */
  method BuildBirthday(row: EventRow, contacts: map<int, ContactDetails>, clock: Date) returns (b: Birthday?)
    ensures b == null <==> BuildSpec(row, contacts, clock).None?
    ensures b != null ==> fresh(b) && b.View() == BuildSpec(row, contacts, clock).value
  {
    if row.startDate.None? {
      return null;
    }
    var regexMatcher := Find(row.startDate.value);
    if regexMatcher.None? {
      return null;
    }
    var m := regexMatcher.value;
    var birthday := new Birthday(LookupContact(contacts, row.contactId), row.contactId, clock);
    // Birthday must have a display name
    if birthday.displayName.None? {
      return null;
    }
    var md := MonthDay(DigitsValue(m.monthGroup), DigitsValue(m.dayGroup));
    if !ValidMonthDay(md) {
      // new MonthDay(...) throws; the exception is logged and null returned
      return null;
    }
    birthday.birthdayDate := Some(md);
    if m.yearGroup != "-" {
      birthday.year := DigitsValue(m.yearGroup);
      birthday.unknownYear := false;
    }
    return birthday;
  }

  // ---------------------------------------------------------------------------
  // The join
  // ---------------------------------------------------------------------------

  /** CursorJoiner.Result. */
  datatype JoinerResult = LEFT | RIGHT | BOTH

  /** CursorJoiner's next result for the rows at the heads of the two cursors. */
  function NextResult(rowKeys: seq<string>, keys: seq<string>): (r: JoinerResult)
    requires rowKeys != [] || keys != []
    ensures r == LEFT ==> rowKeys != []
    ensures r == BOTH ==> rowKeys != [] && keys != [] && rowKeys[0] == keys[0]
    ensures r == RIGHT ==> keys != []
  {
    if keys == [] then LEFT
    else if rowKeys == [] then RIGHT
    else
      var c := StringCompareTo(rowKeys[0], keys[0]);
      StringCompareToZero(rowKeys[0], keys[0]);
      if c < 0 then LEFT else if c == 0 then BOTH else RIGHT
  }

  /**
   * The result CursorJoiner reports for each birthday row (LEFT or BOTH),
   * merging the two key sequences; RIGHT results carry no birthday row and
   * leave no trace.
   */
  function JoinTags(rowKeys: seq<string>, keys: seq<string>): (tags: seq<JoinerResult>)
    ensures |tags| == |rowKeys|
    decreases |rowKeys| + |keys|
  {
    if rowKeys == [] then []
    else
      match NextResult(rowKeys, keys)
      case LEFT => [LEFT] + JoinTags(rowKeys[1..], keys)
      case BOTH => [BOTH] + JoinTags(rowKeys[1..], keys[1..])
      case RIGHT => JoinTags(rowKeys, keys[1..])
  }

  function RowKeys(rows: seq<EventRow>): (r: seq<string>)
    ensures |r| == |rows| && forall i :: 0 <= i < |rows| ==> r[i] == rows[i].lookupKey
  {
    if rows == [] then [] else [rows[0].lookupKey] + RowKeys(rows[1..])
  }

  /** The test in the join loop: the row built a Birthday, and it is BOTH, or LEFT with no group selected. */
  predicate Kept(built: Option<BirthdayView>, tag: JoinerResult, noGroupSelected: bool) {
    built.Some? && (tag == BOTH || (tag == LEFT && noGroupSelected))
  }

  /** The Birthdays the join loop adds to the result, in cursor order. */
  function Collected(rows: seq<EventRow>, tags: seq<JoinerResult>, noGroupSelected: bool,
                     contacts: map<int, ContactDetails>, clock: Date): seq<BirthdayView>
    requires |tags| == |rows|
  {
    if rows == [] then []
    else
      var n := |rows| - 1;
      Collected(rows[..n], tags[..n], noGroupSelected, contacts, clock) + KeptRow(rows[n], tags[n], noGroupSelected, contacts, clock)
  }

  /** The row's Birthday as a list of one when it is built and kept, nothing otherwise. */
  function KeptRow(row: EventRow, tag: JoinerResult, noGroupSelected: bool, contacts: map<int, ContactDetails>, clock: Date)
    : seq<BirthdayView>
  {
    var built := BuildSpec(row, contacts, clock);
    if Kept(built, tag, noGroupSelected) then [built.value] else []
  }

  /** Every row's Birthday, in order, with the nulls dropped. */
  function AllBuilt(rows: seq<EventRow>, contacts: map<int, ContactDetails>, clock: Date): seq<BirthdayView> {
    if rows == [] then []
    else
      var n := |rows| - 1;
      var built := BuildSpec(rows[n], contacts, clock);
      AllBuilt(rows[..n], contacts, clock) + (if built.Some? then [built.value] else [])
  }

  /** Ordered by lookup key, as the cursors' ORDER BY LOOKUP_KEY returns them; a key may repeat. */
  predicate KeySorted(keys: seq<string>) {
    forall i, j :: 0 <= i < j < |keys| ==> StringCompareTo(keys[i], keys[j]) <= 0
  }

  /** Ordered by lookup key with no key repeated. */
  predicate StrictlySorted(keys: seq<string>) {
    forall i, j :: 0 <= i < j < |keys| ==> StringCompareTo(keys[i], keys[j]) < 0
  }

  /** Against an empty group cursor every birthday row is LEFT. */
  lemma {:induction false} JoinTagsWithoutGroup(rowKeys: seq<string>)
    ensures forall i :: 0 <= i < |rowKeys| ==> JoinTags(rowKeys, [])[i] == LEFT
  {
    if rowKeys != [] {
      JoinTagsWithoutGroup(rowKeys[1..]);
    }
  }

  /** With no group selected the result is exactly the parseable birthdays, in cursor order. */
  lemma {:induction false} CollectedWithoutGroup(rows: seq<EventRow>, contacts: map<int, ContactDetails>, clock: Date)
    ensures Collected(rows, JoinTags(RowKeys(rows), []), true, contacts, clock) == AllBuilt(rows, contacts, clock)
  {
    JoinTagsWithoutGroup(RowKeys(rows));
    AllLeftCollected(rows, JoinTags(RowKeys(rows), []), contacts, clock);
  }

  lemma {:induction false} AllLeftCollected(rows: seq<EventRow>, tags: seq<JoinerResult>,
                                            contacts: map<int, ContactDetails>, clock: Date)
    requires |tags| == |rows| && forall i :: 0 <= i < |tags| ==> tags[i] == LEFT
    ensures Collected(rows, tags, true, contacts, clock) == AllBuilt(rows, contacts, clock)
  {
    if rows != [] {
      AllLeftCollected(rows[..|rows| - 1], tags[..|rows| - 1], contacts, clock);
    }
  }

  /** How many rows before row i carry its key. */
  function EarlierOfKey(rowKeys: seq<string>, i: nat): nat
    requires i < |rowKeys|
  {
    multiset(rowKeys[..i])[rowKeys[i]]
  }

  /**
   * The rows of each key are paired off in order with the group rows of
   * that key: BOTH while group rows of the key remain, LEFT after.
   */
  predicate PairedOff(tags: seq<JoinerResult>, rowKeys: seq<string>, keys: seq<string>) {
    |tags| == |rowKeys| &&
    forall i :: 0 <= i < |rowKeys| ==>
      (tags[i] == BOTH <==> EarlierOfKey(rowKeys, i) < multiset(keys)[rowKeys[i]])
      && (tags[i] == LEFT <==> EarlierOfKey(rowKeys, i) >= multiset(keys)[rowKeys[i]])
  }

  /**
   * With both cursors ordered by lookup key, the joiner pairs off the rows
   * of one key in order: a birthday row is BOTH exactly when fewer rows of
   * its key came before it than the group cursor holds, and LEFT otherwise.
   */
  lemma {:induction false} JoinTagsWithGroup(rowKeys: seq<string>, keys: seq<string>)
    requires KeySorted(rowKeys) && KeySorted(keys)
    ensures PairedOff(JoinTags(rowKeys, keys), rowKeys, keys)
    decreases |rowKeys| + |keys|
  {
    if rowKeys == [] {
    } else if keys == [] {
      JoinTagsWithoutGroup(rowKeys);
    } else {
      JoinTagsStep(rowKeys, keys);
      var c := StringCompareTo(rowKeys[0], keys[0]);
      if c < 0 {
        JoinTagsWithGroup(rowKeys[1..], keys);
        KeyBelowHead(rowKeys[0], keys);
        PairOffLeft(JoinTags(rowKeys[1..], keys), rowKeys, keys);
      } else if c == 0 {
        JoinTagsWithGroup(rowKeys[1..], keys[1..]);
        StringCompareToZero(rowKeys[0], keys[0]);
        PairOffBoth(JoinTags(rowKeys[1..], keys[1..]), rowKeys, keys);
      } else {
        JoinTagsWithGroup(rowKeys, keys[1..]);
        StringCompareToSwap(rowKeys[0], keys[0]);
        KeyBelowHead(keys[0], rowKeys);
        PairOffRight(JoinTags(rowKeys, keys[1..]), rowKeys, keys);
      }
    }
  }

  /** Removing the first row shifts the earlier-row counts of the others by one when they share its key. */
  lemma EarlierOfKeyTail(rowKeys: seq<string>, i: nat)
    requires 0 < i < |rowKeys|
    ensures EarlierOfKey(rowKeys, i) == EarlierOfKey(rowKeys[1..], i - 1) + (if rowKeys[0] == rowKeys[i] then 1 else 0)
  {
    assert rowKeys[..i] == [rowKeys[0]] + rowKeys[1..][..i - 1];
  }

  /** A LEFT step: a first row whose key is not in the group. */
  lemma PairOffLeft(tags: seq<JoinerResult>, rowKeys: seq<string>, keys: seq<string>)
    requires rowKeys != [] && rowKeys[0] !in keys && PairedOff(tags, rowKeys[1..], keys)
    ensures PairedOff([LEFT] + tags, rowKeys, keys)
  {
    forall i | 0 < i < |rowKeys| {
      EarlierOfKeyTail(rowKeys, i);
    }
  }

  /** A BOTH step: the first row pairs off with the first group row. */
  lemma PairOffBoth(tags: seq<JoinerResult>, rowKeys: seq<string>, keys: seq<string>)
    requires rowKeys != [] && keys != [] && rowKeys[0] == keys[0] && PairedOff(tags, rowKeys[1..], keys[1..])
    ensures PairedOff([BOTH] + tags, rowKeys, keys)
  {
    assert keys == [keys[0]] + keys[1..];
    assert multiset(keys) == multiset{keys[0]} + multiset(keys[1..]);
    forall i | 0 < i < |rowKeys| {
      EarlierOfKeyTail(rowKeys, i);
    }
  }

  /** A RIGHT step: a group row whose key no birthday row carries. */
  lemma PairOffRight(tags: seq<JoinerResult>, rowKeys: seq<string>, keys: seq<string>)
    requires keys != [] && keys[0] !in rowKeys && PairedOff(tags, rowKeys, keys[1..])
    ensures PairedOff(tags, rowKeys, keys)
  {
    assert keys == [keys[0]] + keys[1..];
    assert multiset(keys) == multiset{keys[0]} + multiset(keys[1..]);
  }

  /** A key below the head of a sequence ordered by key occurs nowhere in it. */
  lemma KeyBelowHead(k: string, keys: seq<string>)
    requires KeySorted(keys) && (keys != [] ==> StringCompareTo(k, keys[0]) < 0)
    ensures k !in keys
  {
    forall j | 0 <= j < |keys| ensures keys[j] != k {
      if j > 0 {
        StringCompareToZero(keys[0], keys[j]);
        if StringCompareTo(keys[0], keys[j]) < 0 {
          StringCompareToTransitive(k, keys[0], keys[j]);
        }
      }
      StringCompareToZero(k, keys[j]);
    }
  }

  /**
   * With every group member listed once, a birthday row is BOTH exactly
   * when its contact is in the group and the row is the first of that
   * contact's rows: a member's further birthday rows come out LEFT.
   */
  lemma JoinTagsWithUniqueGroupKeys(rowKeys: seq<string>, keys: seq<string>)
    requires KeySorted(rowKeys) && StrictlySorted(keys)
    ensures forall i :: 0 <= i < |rowKeys| ==>
      (JoinTags(rowKeys, keys)[i] == BOTH <==> rowKeys[i] in keys && (i == 0 || rowKeys[i - 1] != rowKeys[i]))
      && (JoinTags(rowKeys, keys)[i] == LEFT <==> !(rowKeys[i] in keys && (i == 0 || rowKeys[i - 1] != rowKeys[i])))
  {
    JoinTagsWithGroup(rowKeys, keys);
    forall i | 0 <= i < |rowKeys|
      ensures multiset(rowKeys[..i])[rowKeys[i]] < multiset(keys)[rowKeys[i]]
        <==> rowKeys[i] in keys && (i == 0 || rowKeys[i - 1] != rowKeys[i])
    {
      CountOfUnique(keys, rowKeys[i]);
      EarlierRowsOfKey(rowKeys, i);
    }
  }

  /** In a strictly ordered sequence a key occurs at most once. */
  lemma {:induction false} CountOfUnique(keys: seq<string>, k: string)
    requires StrictlySorted(keys)
    ensures multiset(keys)[k] == if k in keys then 1 else 0
  {
    if keys != [] {
      var rest := keys[1..];
      assert keys == [keys[0]] + rest;
      CountOfUnique(rest, k);
      KeyBelowHead(keys[0], rest);
    }
  }

  /** In a sequence ordered by key, no earlier element has the key of element i exactly when its predecessor has another key. */
  lemma EarlierRowsOfKey(r: seq<string>, i: nat)
    requires KeySorted(r) && i < |r|
    ensures multiset(r[..i])[r[i]] == 0 <==> i == 0 || r[i - 1] != r[i]
  {
    if i > 0 {
      if r[i - 1] == r[i] {
        assert r[..i][i - 1] == r[i];
      } else {
        forall j | 0 <= j < i ensures r[..i][j] != r[i] {
          if j < i - 1 && r[j] == r[i] {
            StringCompareToSwap(r[i - 1], r[i]);
            StringCompareToZero(r[i - 1], r[i]);
          }
        }
      }
    }
  }

  /**
   * A second birthday row for a contact of the selected group comes out of
   * the join as LEFT, not BOTH, so it is dropped.
   */
  lemma SecondRowOfMemberIsLeft(key: string)
    ensures JoinTags([key, key], [key]) == [BOTH, LEFT]
  {
    StringCompareToZero(key, key);
    assert [key, key][1..] == [key];
    assert [key][1..] == [];
  }

  // ---------------------------------------------------------------------------
  // Collections.sort
  // ---------------------------------------------------------------------------

  /** Putting x after every element not above it, and before the first one above it, keeps the order. */
  lemma InsertKeepsOrder(vs: seq<BirthdayView>, x: BirthdayView, j: nat, today: MonthDay)
    requires AllComparable(vs, today) && Comparable(x, today) && SortedViews(vs, today)
    requires j <= |vs| && forall k :: 0 <= k < j ==> Compare(vs[k], x) <= 0
    requires j < |vs| ==> Compare(vs[j], x) > 0
    ensures AllComparable(AddAt(vs, j, x), today)
    ensures SortedViews(AddAt(vs, j, x), today)
  {
    var t := AddAt(vs, j, x);
    if j < |vs| {
      CompareAntisymmetric(vs[j], x, today);
    }
    forall a, b | 0 <= a < b < |t| ensures Compare(t[a], t[b]) <= 0 {
      if b > j {
        // x sorts before vs[j], which sorts before every later element
        if j < b - 1 {
          CompareTransitive(x, vs[j], vs[b - 1], today);
        }
        if a < j {
          CompareTransitive(vs[a], x, vs[b - 1], today);
        }
      }
    }
  }

  predicate Sorted(s: seq<Birthday>, today: MonthDay)
    reads s
  {
    AllComparable(Views(s), today) && SortedViews(Views(s), today)
  }

  /** The views of a list with a Birthday added are the views with its view added at the same place. */
  lemma ViewsAddAt(r: seq<Birthday>, j: nat, x: Birthday)
    requires j <= |r|
    ensures Views(AddAt(r, j, x)) == AddAt(Views(r), j, x.View())
  {
    var t, vs := AddAt(r, j, x), Views(r);
    var ws := AddAt(vs, j, x.View());
    assert |Views(t)| == |ws|;
    forall k | 0 <= k < |t| ensures Views(t)[k] == ws[k] {
      if k < j {
        assert t[k] == r[k] && ws[k] == vs[k];
      } else if k > j {
        assert t[k] == r[k - 1] && ws[k] == vs[k - 1];
      }
    }
  }

  /** Inserts x after every element that does not compare above it. */
  method Insert(r: seq<Birthday>, x: Birthday, ghost today: MonthDay) returns (t: seq<Birthday>)
    requires Comparable(x.View(), today) && Sorted(r, today)
    ensures multiset(t) == multiset(r) + multiset{x}
    ensures Sorted(t, today)
  {
    ghost var vs := Views(r);
    var j := 0;
    while j < |r| && r[j].CompareTo(x) <= 0
      invariant 0 <= j <= |r|
      invariant forall k :: 0 <= k < j ==> Compare(vs[k], x.View()) <= 0
    {
      j := j + 1;
    }
    t := AddAt(r, j, x);
    AddAtMultiset(r, j, x);
    ViewsAddAt(r, j, x);
    InsertKeepsOrder(vs, x.View(), j, today);
  }

  /** Collections.sort(result): a sorted permutation of the list (insertion keeps it stable). */
  method Sort(s: seq<Birthday>, ghost today: MonthDay) returns (r: seq<Birthday>)
    requires AllComparable(Views(s), today)
    ensures multiset(r) == multiset(s)
    ensures Sorted(r, today)
  {
    ghost var vs := Views(s);
    r := [];
    var k := 0;
    while k < |s|
      invariant 0 <= k <= |s|
      invariant multiset(r) == multiset(s[..k])
      invariant Sorted(r, today)
    {
      assert Comparable(vs[k], today);
      r := Insert(r, s[k], today);
      PrefixStepMultiset(s, k);
      k := k + 1;
    }
    assert s[..k] == s;
  }

  /** A Birthday the service can announce: a valid date and a display name. */
  predicate Announceable(v: BirthdayView) {
    v.birthdayDate.Some? && ValidMonthDay(v.birthdayDate.value) && v.displayName.Some?
  }

  /** Every collected Birthday can be compared with the others and announced: it has a valid date, a name and the day's TODAY. */
  lemma {:induction false} CollectedComparable(rows: seq<EventRow>, tags: seq<JoinerResult>, noGroupSelected: bool,
                                               contacts: map<int, ContactDetails>, clock: Date)
    requires |tags| == |rows|
    ensures AllComparable(Collected(rows, tags, noGroupSelected, contacts, clock), MonthDayOf(clock))
    ensures forall v :: v in Collected(rows, tags, noGroupSelected, contacts, clock) ==> Announceable(v)
  {
    if rows != [] {
      var n := |rows| - 1;
      CollectedComparable(rows[..n], tags[..n], noGroupSelected, contacts, clock);
      BuiltBirthdayShape(rows[n], contacts, clock);
    }
  }

  /** One step of the join loop extends the collected prefix by the current row, if kept. */
  lemma CollectedStep(rows: seq<EventRow>, tags: seq<JoinerResult>, i: nat, noGroupSelected: bool,
                      contacts: map<int, ContactDetails>, clock: Date)
    requires |tags| == |rows| && i < |rows|
    ensures Collected(rows[..i + 1], tags[..i + 1], noGroupSelected, contacts, clock)
         == Collected(rows[..i], tags[..i], noGroupSelected, contacts, clock)
            + KeptRow(rows[i], tags[i], noGroupSelected, contacts, clock)
  {
    assert rows[..i + 1][..i] == rows[..i] && tags[..i + 1][..i] == tags[..i];
  }

  /** One step of CursorJoiner: the tag it reports for the current birthday row, if any. */
  lemma JoinTagsStep(rowKeys: seq<string>, keys: seq<string>)
    requires rowKeys != [] || keys != []
    ensures NextResult(rowKeys, keys) == LEFT ==> JoinTags(rowKeys, keys) == [LEFT] + JoinTags(rowKeys[1..], keys)
    ensures NextResult(rowKeys, keys) == BOTH ==> JoinTags(rowKeys, keys) == [BOTH] + JoinTags(rowKeys[1..], keys[1..])
    ensures NextResult(rowKeys, keys) == RIGHT ==> JoinTags(rowKeys, keys) == JoinTags(rowKeys, keys[1..])
  {
  }

  // ---------------------------------------------------------------------------
  // getContactWithBirthdays
  // ---------------------------------------------------------------------------

  /** The body of the joiner loop for a birthday row: build its Birthday and keep it if the join says so. */
  method CollectRow(collected: seq<Birthday>, row: EventRow, joinerResult: JoinerResult, noGroupSelected: bool,
                    contacts: map<int, ContactDetails>, clock: Date)
    returns (extended: seq<Birthday>)
    ensures Views(extended) == Views(collected) + KeptRow(row, joinerResult, noGroupSelected, contacts, clock)
    ensures forall b | b in extended :: b in collected || fresh(b)
  {
    var birthday := BuildBirthday(row, contacts, clock);
    extended := collected;
    if birthday != null && (joinerResult == BOTH || (joinerResult == LEFT && noGroupSelected)) {
      extended := collected + [birthday];
      assert extended[..|extended| - 1] == collected;
    }
  }

  /**
   * One turn of the loop over the joiner: a birthday row the joiner
   * reports is collected when kept, and the joiner moves past the rows it
   * compared.
   */
  method JoinStep(rows: seq<EventRow>, keys: seq<string>, noGroupSelected: bool,
                  contacts: map<int, ContactDetails>, clock: Date, ghost allTags: seq<JoinerResult>,
                  collected: seq<Birthday>, i: nat, j: nat)
    returns (extended: seq<Birthday>, i': nat, j': nat)
    requires allTags == JoinTags(RowKeys(rows), keys)
    requires i <= |rows| && j <= |keys| && (i < |rows| || j < |keys|)
    requires JoinTags(RowKeys(rows)[i..], keys[j..]) == allTags[i..]
    requires Views(collected) == Collected(rows[..i], allTags[..i], noGroupSelected, contacts, clock)
    ensures i' <= |rows| && j' <= |keys| && |rows| - i' + |keys| - j' < |rows| - i + |keys| - j
    ensures JoinTags(RowKeys(rows)[i'..], keys[j'..]) == allTags[i'..]
    ensures Views(extended) == Collected(rows[..i'], allTags[..i'], noGroupSelected, contacts, clock)
    ensures forall b | b in extended :: b in collected || fresh(b)
  {
    var joinerResult := NextResult(RowKeys(rows)[i..], keys[j..]);
    JoinTagsStep(RowKeys(rows)[i..], keys[j..]);
    extended, i', j' := collected, i, j;
    if joinerResult == LEFT || joinerResult == BOTH {
      assert allTags[i] == joinerResult;
      CollectedStep(rows, allTags, i, noGroupSelected, contacts, clock);
      extended := CollectRow(collected, rows[i], joinerResult, noGroupSelected, contacts, clock);
      assert RowKeys(rows)[i..][1..] == RowKeys(rows)[i + 1..];
      assert allTags[i..][1..] == allTags[i + 1..];
      if joinerResult == BOTH {
        assert keys[j..][1..] == keys[j + 1..];
        i', j' := i + 1, j + 1;
      } else {
        i' := i + 1;
      }
    } else {
      assert keys[j..][1..] == keys[j + 1..];
      j' := j + 1;
    }
  }

  /**
   * The loop over the joiner: the Birthdays of the kept rows, in cursor
   * order, each a new object.
   */
  method JoinBirthdays(rows: seq<EventRow>, keys: seq<string>, noGroupSelected: bool,
                       contacts: map<int, ContactDetails>, clock: Date)
    returns (collected: seq<Birthday>)
    ensures Views(collected) == Collected(rows, JoinTags(RowKeys(rows), keys), noGroupSelected, contacts, clock)
    ensures forall b | b in collected :: fresh(b)
    ensures AllComparable(Views(collected), MonthDayOf(clock))
    ensures forall k :: 0 <= k < |collected| ==> Announceable(collected[k].View())
  {
    ghost var allTags := JoinTags(RowKeys(rows), keys);
    collected := [];
    var i, j := 0, 0;
    while i < |rows| || j < |keys|
      invariant 0 <= i <= |rows| && 0 <= j <= |keys|
      invariant JoinTags(RowKeys(rows)[i..], keys[j..]) == allTags[i..]
      invariant Views(collected) == Collected(rows[..i], allTags[..i], noGroupSelected, contacts, clock)
      invariant forall b | b in collected :: fresh(b)
      decreases |rows| - i + |keys| - j
    {
      collected, i, j := JoinStep(rows, keys, noGroupSelected, contacts, clock, allTags, collected, i, j);
    }
    assert rows[..i] == rows && allTags[..i] == allTags;
    CollectedComparable(rows, allTags, noGroupSelected, contacts, clock);
    assert forall k :: 0 <= k < |collected| ==> Views(collected)[k] in Views(collected);
  }

  /**
   * getContactWithBirthdays(context, contactGroupId) on the provider's data,
   * with `clock` the day it runs. `unsorted` is the list before the sort.
   */
  method GetContactWithBirthdays(p: ContactsProvider, contactGroupId: string, clock: Date)
    returns (result: seq<Birthday>, ghost unsorted: seq<Birthday>)
    ensures p.birthdayEvents.None? ==> result == [] && unsorted == []
    ensures p.birthdayEvents.Some? ==>
      var rows := p.birthdayEvents.value;
      var noGroupSelected := contactGroupId == NO_CONTACT_GROUP_SELECTED;
      Views(unsorted) == Collected(rows, JoinTags(RowKeys(rows), GroupsCursor(p, contactGroupId, noGroupSelected)),
                                   noGroupSelected, p.contacts, clock)
    ensures multiset(result) == multiset(unsorted)
    ensures forall b | b in result :: fresh(b) && Announceable(b.View())
    ensures Sorted(result, MonthDayOf(clock))
  {
    if p.birthdayEvents.None? {
      return [], [];
    }
    var noGroupSelected := contactGroupId == NO_CONTACT_GROUP_SELECTED;
    var cursorGroups := GroupsCursor(p, contactGroupId, noGroupSelected);
    var collected := JoinBirthdays(p.birthdayEvents.value, cursorGroups, noGroupSelected, p.contacts, clock);
    unsorted := collected;
    result := Sort(collected, MonthDayOf(clock));
    forall b | b in result ensures fresh(b) && Announceable(b.View()) {
      assert b in multiset(result);
      assert b in multiset(collected);
      assert b in collected;
    }
  }
}
