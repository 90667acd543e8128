/** The decisions inside the slash commands of bot/commands.py, without the Discord
    interaction around them: what autocomplete offers, which choices a command lists,
    how a new attendance type is checked, how the type list is split, and what clock-in
    and clock-out write to the store. */
module Commands {
  import opened Models
  import opened Text
  import opened Utils
  import opened Database

  /** An `app_commands.Choice`: the label shown and the value sent back. */
  datatype Choice = Choice(name: string, value: string)

  /** The most choices Discord accepts for one option. */
  const MaxChoices: nat := 25

  /** The choice offered for a type: its name, both shown and sent. */
  function ChoiceFor(t: AttendanceType): (c: Choice)
    ensures c.value == t.typeName && c.name == c.value
  {
    Choice(t.typeName, t.typeName)
  }

  /** `current.lower() in at.type_name.lower()` */
  predicate Matches(current: string, t: AttendanceType): (r: bool)
    ensures r <==> IsInfix(Lower(current), Lower(t.typeName))
  {
    Contains(Lower(current), Lower(t.typeName))
  }

  /** The first `n` elements of `s`, or all of them when there are fewer. */
  function Take<T(==)>(s: seq<T>, n: nat): (r: seq<T>)
    ensures |r| <= n && |r| <= |s|
    ensures |r| == n || |r| == |s|
    ensures StartsWithSeq(s, r)
  {
    if |s| <= n then s else s[..n]
  }

  // ===========================================================================
  // attendance_type_autocomplete and get_attendance_type_choices
  // ===========================================================================

  /** The choices for every type that matches `current`, in the order of `types`. */
  function AllMatches(types: seq<AttendanceType>, current: string): (r: seq<Choice>)
    ensures |r| <= |types|
  {
    if types == [] then []
    else
      var init := types[..|types| - 1];
      var last := types[|types| - 1];
      AllMatches(init, current) + if Matches(current, last) then [ChoiceFor(last)] else []
  }

  /** Every choice offered names a type of the list whose name contains `current`, ignoring case. */
  lemma {:induction false} AllMatchesSound(types: seq<AttendanceType>, current: string)
    ensures forall c :: c in AllMatches(types, current) ==>
      c.name == c.value && Contains(Lower(current), Lower(c.name)) && exists t :: t in types && c == ChoiceFor(t)
    decreases |types|
  {
    if types != [] {
      var init := types[..|types| - 1];
      AllMatchesSound(init, current);
      assert forall t :: t in init ==> t in types;
    }
  }

  /** Every type of the list whose name contains `current`, ignoring case, is offered. */
  lemma {:induction false} AllMatchesComplete(types: seq<AttendanceType>, current: string)
    ensures forall t :: t in types && Matches(current, t) ==> ChoiceFor(t) in AllMatches(types, current)
    decreases |types|
  {
    if types != [] {
      var init := types[..|types| - 1];
      AllMatchesComplete(init, current);
      assert types == init + [types[|types| - 1]];
    }
  }

  /** The matches among the first rows of the type list start the matches of the whole list. */
  lemma {:induction false} AllMatchesPrefix(types: seq<AttendanceType>, k: nat, current: string)
    requires k <= |types|
    ensures StartsWithSeq(AllMatches(types, current), AllMatches(types[..k], current))
    decreases |types|
  {
    if k < |types| {
      var init := types[..|types| - 1];
      assert init[..k] == types[..k];
      AllMatchesPrefix(init, k, current);
    } else {
      assert types[..k] == types;
    }
  }

  /** `attendance_type_autocomplete(interaction, current)` over the active types: scans
      them in order, appending the matching ones, and stops once 25 choices are collected. */
  method Autocomplete(types: seq<AttendanceType>, current: string) returns (choices: seq<Choice>)
    ensures choices == Take(AllMatches(types, current), MaxChoices)
    ensures |choices| <= MaxChoices
    ensures forall c :: c in choices ==> c.name == c.value && Contains(Lower(current), Lower(c.name))
  {
    choices := [];
    var i := 0;
    while i < |types|
      invariant 0 <= i <= |types|
      invariant choices == AllMatches(types[..i], current)
      invariant |choices| < MaxChoices
    {
      assert types[..i + 1][..i] == types[..i];
      if Matches(current, types[i]) {
        choices := choices + [ChoiceFor(types[i])];
      }
      i := i + 1;
      if |choices| >= MaxChoices {
        AllMatchesPrefix(types, i, current);
        TakeMatchesSound(types, current);
        return;
      }
    }
    assert types[..i] == types;
    TakeMatchesSound(types, current);
  }

  lemma TakeMatchesSound(types: seq<AttendanceType>, current: string)
    ensures forall c :: c in Take(AllMatches(types, current), MaxChoices) ==>
      c.name == c.value && Contains(Lower(current), Lower(c.name))
  {
    AllMatchesSound(types, current);
    var all := AllMatches(types, current);
    var r := Take(all, MaxChoices);
    forall c | c in r ensures c in all {
      var i :| 0 <= i < |r| && r[i] == c;
      assert all[i] == c;
    }
  }

  /** `get_attendance_type_choices()`: a choice for each of the first 25 active types, in order. */
  function TypeChoices(types: seq<AttendanceType>): (r: seq<Choice>)
    ensures |r| == |Take(types, MaxChoices)|
    ensures forall i :: 0 <= i < |r| ==> r[i] == ChoiceFor(types[i])
  {
    var shown := Take(types, MaxChoices);
    seq(|shown|, i requires 0 <= i < |shown| => ChoiceFor(shown[i]))
  }

  /** Every type matches the empty text. */
  lemma {:induction false} AllMatchEmpty(types: seq<AttendanceType>)
    ensures |AllMatches(types, "")| == |types|
    ensures forall i :: 0 <= i < |types| ==> AllMatches(types, "")[i] == ChoiceFor(types[i])
    decreases |types|
  {
    if types != [] {
      var init := types[..|types| - 1];
      AllMatchEmpty(init);
      EmptyIsInfix(Lower(types[|types| - 1].typeName));
      assert Lower("") == "";
    }
  }

  /** Before anything is typed, autocomplete offers exactly the command's choice list. */
  lemma AutocompleteEmptyIsTypeChoices(types: seq<AttendanceType>)
    ensures Take(AllMatches(types, ""), MaxChoices) == TypeChoices(types)
  {
    AllMatchEmpty(types);
  }

  // ===========================================================================
  // add_attendance_type
  // ===========================================================================

  const MaxTypeNameLength: nat := 50
  const MaxDescriptionLength: nat := 200

  /** What the add-attendance-type command answers, before the type is stored. */
  datatype AddTypeOutcome =
    | EmptyName
    | NameTooLong
    | DescriptionTooLong
    | Duplicate(name: string)
    | Created(name: string, description: string)

  /** The description as the command keeps it: stripped, and empty when absent. */
  function CleanDescription(description: Option<string>): (r: string)
    ensures description.None? ==> r == ""
    ensures description.Some? ==> r == Strip(description.value)
  {
    if description.Some? && description.value != "" then Strip(description.value) else ""
  }

  /** The checks of `add_attendance_type`, in their order: a blank name, a stripped name over
      50 characters, a stripped description over 200 characters, then a name in `existing`
      (the names `attendance_type_exists` reports). Only when all pass is the type created,
      with the stripped values. */
  function ValidateNewType(typeName: string, description: Option<string>, existing: set<string>): (r: AddTypeOutcome)
    ensures r.EmptyName? <==> AllSpace(typeName)
    ensures r.NameTooLong? <==> !AllSpace(typeName) && |Strip(typeName)| > MaxTypeNameLength
    ensures r.DescriptionTooLong? <==>
      !AllSpace(typeName) && |Strip(typeName)| <= MaxTypeNameLength &&
      |CleanDescription(description)| > MaxDescriptionLength
    ensures r.Duplicate? <==>
      !AllSpace(typeName) && |Strip(typeName)| <= MaxTypeNameLength &&
      |CleanDescription(description)| <= MaxDescriptionLength && Strip(typeName) in existing
    ensures r.Duplicate? ==> r.name == Strip(typeName)
    ensures r.Created? ==>
      && r.name == Strip(typeName) && r.description == CleanDescription(description)
      && 0 < |r.name| <= MaxTypeNameLength && |r.description| <= MaxDescriptionLength
      && r.name !in existing
  {
    if typeName == "" || |Strip(typeName)| == 0 then EmptyName
    else
      var cleanName := Strip(typeName);
      var cleanDescription := CleanDescription(description);
      if |cleanName| > MaxTypeNameLength then NameTooLong
      else if |cleanDescription| > MaxDescriptionLength then DescriptionTooLong
      else if cleanName in existing then Duplicate(cleanName)
      else Created(cleanName, cleanDescription)
  }

  /** A type the command accepts is accepted again, unchanged, when resubmitted in its cleaned form. */
  lemma CreatedIsStable(typeName: string, description: Option<string>, existing: set<string>)
    requires ValidateNewType(typeName, description, existing).Created?
    ensures var r := ValidateNewType(typeName, description, existing);
      ValidateNewType(r.name, Some(r.description), existing) == r
  {
    var r := ValidateNewType(typeName, description, existing);
    StripIdempotent(typeName);
    CleanDescriptionIdempotent(description);
    AcceptsClean(r.name, r.description, existing);
  }

  /** Cleaning a cleaned description changes nothing. */
  lemma CleanDescriptionIdempotent(description: Option<string>)
    ensures CleanDescription(Some(CleanDescription(description))) == CleanDescription(description)
  {
    if description.Some? {
      StripIdempotent(description.value);
    }
  }

  /** A cleaned, short enough, new name with a cleaned, short enough description is created as given. */
  lemma AcceptsClean(name: string, description: string, existing: set<string>)
    requires name != "" && Strip(name) == name && |name| <= MaxTypeNameLength
    requires CleanDescription(Some(description)) == description && |description| <= MaxDescriptionLength
    requires name !in existing
    ensures ValidateNewType(name, Some(description), existing) == Created(name, description)
  {
  }

  /** Once a type is created, submitting the same name again is refused as a duplicate. */
  lemma CreatedThenDuplicate(typeName: string, description: Option<string>, existing: set<string>)
    requires ValidateNewType(typeName, description, existing).Created?
    ensures var r := ValidateNewType(typeName, description, existing);
      ValidateNewType(typeName, description, existing + {r.name}) == Duplicate(r.name)
  {
  }

  // ===========================================================================
  // list_attendance_types
  // ===========================================================================

  /** What the list-attendance-types command shows: nothing to list, or the active and
      inactive types with the footer's two counts. */
  datatype TypeListing =
    | NoTypes
    | Listing(active: seq<AttendanceType>, inactive: seq<AttendanceType>, total: nat, activeCount: nat)

  /** `list_attendance_types()` over the rows `get_all_attendance_types` returns. */
  function ListTypes(all: seq<AttendanceType>): (r: TypeListing)
    ensures r.NoTypes? <==> all == []
    ensures r.Listing? ==>
      && (forall t :: t in r.active <==> t in all && t.isActive)
      && (forall t :: t in r.inactive <==> t in all && !t.isActive)
      && r.total == |all| && r.activeCount == |r.active|
  {
    if all == [] then NoTypes
    else
      var active := ActiveTypes(all);
      Listing(active, InactiveTypes(all), |all|, |active|)
  }

  /** The active and inactive lists split the types between them: every row lands in
      exactly one, so the footer's total is the active count plus the inactive count. */
  lemma {:induction false} ActiveInactivePartition(all: seq<AttendanceType>)
    ensures multiset(ActiveTypes(all)) + multiset(InactiveTypes(all)) == multiset(all)
    ensures |ActiveTypes(all)| + |InactiveTypes(all)| == |all|
  {
    if all != [] {
      ActiveInactivePartition(all[1..]);
      assert all == [all[0]] + all[1..];
    }
  }

  lemma ListingCounts(all: seq<AttendanceType>)
    requires all != []
    ensures var r := ListTypes(all);
      r.total == r.activeCount + |r.inactive|
  {
    ActiveInactivePartition(all);
  }

  // ===========================================================================
  // clock_in and clock_out
  // ===========================================================================

  /** How a clock-in or clock-out request ends. */
  datatype ClockResult =
    | Refused(reason: string)
    | UnknownType(name: string)
    | Recorded(record: AttendanceRecord)

  /** No record in `records` is stamped later than `now`: the database clock has not gone back.
      An equal stamp is allowed; the new record then comes first only by the larger-id
      tie-break of `Newer`. */
  predicate ClockNotBehind(records: seq<AttendanceRecord>, now: int) {
    forall x :: x in records && x.timestamp.Some? ==> x.timestamp.value <= now
  }

  /** `clock_in(interaction, attendance_type, notes)`: clean the notes, look up or create the
      user, and write a clock-in only when the gate allows it and the named type is an
      active one, in that order. `dbNow` is the database clock, `localNow` the bot's. */
  method ClockIn(store: AttendanceStore, discordId: string, displayName: string, typeName: string,
                 notes: Option<string>, dbNow: int, localNow: int) returns (result: ClockResult)
    requires store.Valid()
    modifies store
    ensures store.Valid()
    ensures store.users == UserAfterLookup(old(store.users), discordId, displayName, dbNow, localNow).0
    ensures store.types == old(store.types)
    ensures var userId := RowIdFor(old(store.users), discordId);
      var gate := CanClockIn(LatestRecord(old(store.records), userId));
      var typ := TypeByName(old(store.types), typeName);
      && (result.Refused? <==> !gate.allowed)
      && (result.Refused? ==> result.reason == gate.reason)
      && (result.UnknownType? <==> gate.allowed && typ.None?)
      && (result.Recorded? <==> gate.allowed && typ.Some?)
      && (result.Recorded? ==>
            && result.record == AttendanceRecord(|old(store.records)| + 1, userId, RecordType.ClockIn,
                                                 typ.value.id, Some(dbNow), ValidateNotes(notes))
            && store.records == old(store.records) + [result.record])
      && (!result.Recorded? ==> store.records == old(store.records))
    ensures result.Recorded? && ClockNotBehind(old(store.records), dbNow) ==>
      CanClockOut(LatestRecord(store.records, result.record.userId)).allowed
  {
    var cleanNotes := ValidateNotes(notes);
    var user := store.GetOrCreateUser(discordId, displayName, dbNow, localNow);
    var userId := user.id.value;
    var gate := CanClockIn(LatestRecord(store.records, userId));
    if !gate.allowed {
      return Refused(gate.reason);
    }
    var typ := TypeByName(store.types, typeName);
    if typ.None? {
      return UnknownType(typeName);
    }
    var recordsBefore := store.records;
    var record := store.CreateAttendanceRecord(userId, RecordType.ClockIn, typ.value.id, cleanNotes, dbNow);
    if ClockNotBehind(recordsBefore, dbNow) {
      ClockInThenCanClockOut(recordsBefore, record);
    }
    result := Recorded(record);
  }

  /** `clock_out(interaction, notes)`: clean the notes, look up or create the user, and
      write a clock-out, with no attendance type, only when the gate allows it. */
  method ClockOut(store: AttendanceStore, discordId: string, displayName: string,
                  notes: Option<string>, dbNow: int, localNow: int) returns (result: ClockResult)
    requires store.Valid()
    modifies store
    ensures store.Valid()
    ensures store.users == UserAfterLookup(old(store.users), discordId, displayName, dbNow, localNow).0
    ensures store.types == old(store.types)
    ensures var userId := RowIdFor(old(store.users), discordId);
      var gate := CanClockOut(LatestRecord(old(store.records), userId));
      && (result.Refused? <==> !gate.allowed)
      && (result.Refused? ==> result.reason == gate.reason)
      && (result.Recorded? <==> gate.allowed)
      && (result.Recorded? ==>
            && result.record == AttendanceRecord(|old(store.records)| + 1, userId, RecordType.ClockOut,
                                                 None, Some(dbNow), ValidateNotes(notes))
            && store.records == old(store.records) + [result.record])
      && (!result.Recorded? ==> store.records == old(store.records))
    ensures result.Recorded? && ClockNotBehind(old(store.records), dbNow) ==>
      CanClockIn(LatestRecord(store.records, result.record.userId)).allowed
  {
    var cleanNotes := ValidateNotes(notes);
    var user := store.GetOrCreateUser(discordId, displayName, dbNow, localNow);
    var userId := user.id.value;
    var gate := CanClockOut(LatestRecord(store.records, userId));
    if !gate.allowed {
      return Refused(gate.reason);
    }
    var recordsBefore := store.records;
    var record := store.CreateAttendanceRecord(userId, RecordType.ClockOut, None, cleanNotes, dbNow);
    if ClockNotBehind(recordsBefore, dbNow) {
      LatestAfterAppend(recordsBefore, record);
    }
    result := Recorded(record);
  }
}
