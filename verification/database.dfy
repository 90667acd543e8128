/** The attendance database of bot/database.py with the SQL abstracted away: the three
    tables are sequences of rows in insertion order, the queries are functions over them,
    and the statements that insert rows are methods of `AttendanceStore`. */
module Database {
  import opened Models
  import opened Text

  // ===========================================================================
  // The clock state gate
  // ===========================================================================

  /** What `can_clock_in` and `can_clock_out` answer: a decision and the reason shown to the user. */
  datatype Verdict = Verdict(allowed: bool, reason: string)

  /** `can_clock_in`, given the user's latest record: allowed when there is none or it is a clock-out. */
  function CanClockIn(latest: Option<AttendanceRecord>): (v: Verdict)
    ensures v.allowed <==> latest.None? || latest.value.recordType == ClockOut
  {
    if latest.None? then Verdict(true, "No previous records found")
    else if latest.value.recordType == ClockOut then Verdict(true, "Last record was clock-out")
    else Verdict(false, "Already clocked in. Please clock out first.")
  }

  /** `can_clock_out`, given the user's latest record: allowed only when it is a clock-in. */
  function CanClockOut(latest: Option<AttendanceRecord>): (v: Verdict)
    ensures v.allowed <==> latest.Some? && latest.value.recordType == ClockIn
  {
    if latest.None? then Verdict(false, "No clock-in record found. Please clock in first.")
    else if latest.value.recordType == ClockIn then Verdict(true, "Currently clocked in")
    else Verdict(false, "Not currently clocked in. Please clock in first.")
  }

  /** The gate is a two-state machine: whatever the latest record, exactly one of
      clocking in and clocking out is allowed. */
  lemma GateExclusive(latest: Option<AttendanceRecord>)
    ensures CanClockIn(latest).allowed != CanClockOut(latest).allowed
  {
    if latest.Some? {
      match latest.value.recordType
      case ClockIn =>
      case ClockOut =>
    }
  }

  // ===========================================================================
  // Record order: ORDER BY timestamp DESC
  // ===========================================================================

  /** `a` is listed before `b` by `ORDER BY timestamp DESC`. SQL leaves equal timestamps
      unordered; this model lists the later-inserted row (larger id) first, and rows
      without a timestamp last. */
  predicate Newer(a: AttendanceRecord, b: AttendanceRecord): (r: bool)
    ensures r ==> a != b && StampAtMost(b, a)
    ensures !r && a.id != b.id ==> StampAtMost(a, b)
  {
    match a.timestamp
    case None => b.timestamp.None? && a.id > b.id
    case Some(x) => b.timestamp.None? || x > b.timestamp.value || (x == b.timestamp.value && a.id > b.id)
  }

  /** `a`'s timestamp is no later than `b`'s, a missing timestamp counting as earliest. */
  predicate StampAtMost(a: AttendanceRecord, b: AttendanceRecord) {
    a.timestamp.None? || (b.timestamp.Some? && a.timestamp.value <= b.timestamp.value)
  }

  lemma NotNewerTransitive(a: AttendanceRecord, b: AttendanceRecord, c: AttendanceRecord)
    requires !Newer(a, b) && !Newer(b, c)
    ensures !Newer(a, c)
  {
  }

  lemma NewerTotal(a: AttendanceRecord, b: AttendanceRecord)
    requires a.id != b.id
    ensures Newer(a, b) || Newer(b, a)
  {
  }

  /** Listed newest first: no record is newer than one listed before it. */
  predicate NewestFirst(s: seq<AttendanceRecord>) {
    forall i, j :: 0 <= i < j < |s| ==> !Newer(s[j], s[i])
  }

  function Insert(x: AttendanceRecord, s: seq<AttendanceRecord>): (r: seq<AttendanceRecord>)
    requires NewestFirst(s)
    ensures NewestFirst(r)
    ensures multiset(r) == multiset(s) + multiset{x}
  {
    if s == [] || !Newer(s[0], x) then
      InsertFront(x, s);
      [x] + s
    else
      var t := Insert(x, s[1..]);
      assert s == [s[0]] + s[1..];
      InsertBehind(x, s, t);
      [s[0]] + t
  }

  /** A record no older than the head of a newest-first listing can go in front of it. */
  lemma InsertFront(x: AttendanceRecord, s: seq<AttendanceRecord>)
    requires NewestFirst(s) && (s == [] || !Newer(s[0], x))
    ensures NewestFirst([x] + s)
  {
    forall j | 0 <= j < |s| ensures !Newer(s[j], x) {
      if j > 0 { NotNewerTransitive(s[j], s[0], x); }
    }
    var r := [x] + s;
    forall i, j | 0 <= i < j < |r| ensures !Newer(r[j], r[i]) {
      assert r[j] == s[j - 1];
      if i > 0 { assert r[i] == s[i - 1]; }
    }
  }

  /** The head of a newest-first listing stays in front of the rest with a record older than it inserted. */
  lemma InsertBehind(x: AttendanceRecord, s: seq<AttendanceRecord>, t: seq<AttendanceRecord>)
    requires NewestFirst(s) && s != [] && Newer(s[0], x)
    requires NewestFirst(t) && multiset(t) == multiset(s[1..]) + multiset{x}
    ensures NewestFirst([s[0]] + t)
  {
    forall y | y in multiset(t) ensures !Newer(y, s[0]) {
      if y != x {
        assert y in multiset(s[1..]);
        var k :| 0 <= k < |s[1..]| && s[1..][k] == y;
        assert s[k + 1] == y;
      } else {
        NewerAsymmetric(s[0], x);
      }
    }
    var r := [s[0]] + t;
    forall i, j | 0 <= i < j < |r| ensures !Newer(r[j], r[i]) {
      assert r[j] == t[j - 1];
      if i > 0 { assert r[i] == t[i - 1]; } else { assert r[j] in multiset(t); }
    }
  }

  lemma NewerAsymmetric(a: AttendanceRecord, b: AttendanceRecord)
    requires Newer(a, b)
    ensures !Newer(b, a)
  {
  }

  /** The rows of `s` in `ORDER BY timestamp DESC` order (an insertion sort). */
  function SortNewestFirst(s: seq<AttendanceRecord>): (r: seq<AttendanceRecord>)
    ensures NewestFirst(r)
    ensures multiset(r) == multiset(s)
  {
    if s == [] then []
    else
      assert s == [s[0]] + s[1..];
      Insert(s[0], SortNewestFirst(s[1..]))
  }

  // ===========================================================================
  // Queries over the attendance_records table
  // ===========================================================================

  /** `WHERE user_id = ?`: the user's records, in table order. */
  function RecordsOf(records: seq<AttendanceRecord>, userId: int): (r: seq<AttendanceRecord>)
    ensures forall x :: x in r <==> x in records && x.userId == userId
    ensures forall x :: multiset(r)[x] == if x.userId == userId then multiset(records)[x] else 0
    ensures |r| <= |records|
  {
    if records == [] then []
    else
      var init := records[..|records| - 1];
      var rest := RecordsOf(init, userId);
      var last := records[|records| - 1];
      assert records == init + [last];
      assert multiset(records) == multiset(init) + multiset{last};
      if last.userId == userId then
        assert multiset(rest + [last]) == multiset(rest) + multiset{last};
        rest + [last]
      else
        rest
  }

  /** The user's records keep table order: those among the first `k` rows of the table
      start the user's records of the whole table. */
  lemma {:induction false} RecordsOfInOrder(records: seq<AttendanceRecord>, userId: int, k: nat)
    requires k <= |records|
    ensures StartsWithSeq(RecordsOf(records, userId), RecordsOf(records[..k], userId))
    decreases |records|
  {
    if k < |records| {
      var init := records[..|records| - 1];
      assert init[..k] == records[..k];
      RecordsOfInOrder(init, userId, k);
    } else {
      assert records[..k] == records;
    }
  }

  /** `prefix` is a leading part of `s`. */
  predicate StartsWithSeq<T(==)>(s: seq<T>, prefix: seq<T>) {
    |prefix| <= |s| && s[..|prefix|] == prefix
  }

  /** The newest of a list of records, or None when it is empty. */
  function NewestOf(s: seq<AttendanceRecord>): (r: Option<AttendanceRecord>)
    ensures r.None? <==> s == []
    ensures r.Some? ==> r.value in s && forall x :: x in s ==> !Newer(x, r.value)
  {
    if s == [] then None
    else
      match NewestOf(s[1..])
      case None => Some(s[0])
      case Some(y) =>
        if Newer(y, s[0]) then
          Some(y)
        else
          assert forall x :: x in s ==> !Newer(x, s[0]) by {
            forall x | x in s ensures !Newer(x, s[0]) {
              if x != s[0] {
                assert x in s[1..];
                NotNewerTransitive(x, y, s[0]);
              }
            }
          }
          Some(s[0])
  }

  /** `get_latest_record(user_id)`: the user's newest record, if any. */
  function LatestRecord(records: seq<AttendanceRecord>, userId: int): (r: Option<AttendanceRecord>)
    ensures r.None? <==> forall x :: x in records ==> x.userId != userId
    ensures r.Some? ==> r.value in records && r.value.userId == userId
    ensures r.Some? ==> forall x :: x in records && x.userId == userId ==> !Newer(x, r.value)
  {
    NewestOf(RecordsOf(records, userId))
  }

  /** Where a page starts: SQLite reads a negative offset as zero. */
  function PageStart(n: nat, offset: int): (k: nat)
    ensures k <= n
    ensures 0 <= offset <= n ==> k == offset
  {
    if offset < 0 then 0 else if offset > n then n else offset
  }

  /** `LIMIT limit OFFSET offset` as SQLite reads them: a negative limit means no limit and
      a negative offset counts as zero. */
  function Page<T>(s: seq<T>, limit: int, offset: int): (r: seq<T>)
    ensures var k := PageStart(|s|, offset);
      k + |r| <= |s| && r == s[k..k + |r|] &&
      (if 0 <= limit < |s| - k then |r| == limit else |r| == |s| - k)
  {
    var start := PageStart(|s|, offset);
    var rest := s[start..];
    if limit < 0 || limit >= |rest| then rest else rest[..limit]
  }

  /** A run of a newest-first listing is newest first, and holds rows of the listing. */
  lemma NewestFirstSlice(s: seq<AttendanceRecord>, k: nat, n: nat)
    requires NewestFirst(s) && k + n <= |s|
    ensures NewestFirst(s[k..k + n])
    ensures forall x :: x in s[k..k + n] ==> x in multiset(s)
  {
    var r := s[k..k + n];
    forall i, j | 0 <= i < j < |r| ensures !Newer(r[j], r[i]) {
      assert r[i] == s[k + i] && r[j] == s[k + j];
    }
    forall x | x in r ensures x in multiset(s) {
      var i :| 0 <= i < |r| && r[i] == x;
      assert s[k + i] == x;
    }
  }

  /** In a newest-first listing the timestamps never increase. */
  lemma NewestFirstStamps(s: seq<AttendanceRecord>)
    requires NewestFirst(s)
    ensures forall i, j :: 0 <= i < j < |s| ==> StampAtMost(s[j], s[i])
  {
    forall i, j | 0 <= i < j < |s| ensures StampAtMost(s[j], s[i]) {
      assert !Newer(s[j], s[i]);
    }
  }

  /** `get_user_records(user_id, limit, offset)`: one page of the user's records, newest first. */
  function UserRecords(records: seq<AttendanceRecord>, userId: int, limit: int, offset: int): (r: seq<AttendanceRecord>)
    ensures limit >= 0 ==> |r| <= limit
    ensures forall x :: x in r ==> x in records && x.userId == userId
    ensures NewestFirst(r)
    ensures forall i, j :: 0 <= i < j < |r| ==> StampAtMost(r[j], r[i])
    ensures limit < 0 && offset <= 0 ==> multiset(r) == multiset(RecordsOf(records, userId))
    ensures 0 <= limit && offset <= 0 ==>
      |r| == if limit < |RecordsOf(records, userId)| then limit else |RecordsOf(records, userId)|
    ensures r == Page(SortNewestFirst(RecordsOf(records, userId)), limit, offset)
  {
    var all := SortNewestFirst(RecordsOf(records, userId));
    var r := Page(all, limit, offset);
    var k := PageStart(|all|, offset);
    NewestFirstSlice(all, k, |r|);
    NewestFirstStamps(r);
    assert forall x :: x in r ==> x in multiset(RecordsOf(records, userId));
    r
  }

  /** The latest record is the first row of the newest-first listing, so the summary's
      status and the recent-activity list agree. */
  lemma {:induction false} LatestIsFirstListed(records: seq<AttendanceRecord>, userId: int)
    requires RecordsWellFormed(records)
    ensures var page := UserRecords(records, userId, 1, 0);
      LatestRecord(records, userId) == if page == [] then None else Some(page[0])
  {
    var mine := RecordsOf(records, userId);
    var all := SortNewestFirst(mine);
    var page := UserRecords(records, userId, 1, 0);
    var latest := LatestRecord(records, userId);
    if latest.Some? {
      var l := latest.value;
      assert l in multiset(all);
      var h := all[0];
      assert page == all[..1];
      assert h in multiset(mine);
      assert h in records && h.userId == userId;
      assert !Newer(l, h) by {
        var j :| 0 <= j < |all| && all[j] == l;
      }
      if h.id != l.id {
        NewerTotal(h, l);
        assert false;
      }
      SameIdSameRecord(records, h, l);
    } else {
      assert mine == [];
    }
  }

  /** In a well-formed table a record id names one row. */
  lemma SameIdSameRecord(records: seq<AttendanceRecord>, x: AttendanceRecord, y: AttendanceRecord)
    requires RecordsWellFormed(records) && x in records && y in records && x.id == y.id
    ensures x == y
  {
    var a :| 0 <= a < |records| && records[a] == x;
    var b :| 0 <= b < |records| && records[b] == y;
  }

  /** `MAX(timestamp)` over some records: the largest timestamp, ignoring rows without one. */
  function MaxStamp(s: seq<AttendanceRecord>): (m: Option<int>)
    ensures m.None? <==> forall x :: x in s ==> x.timestamp.None?
    ensures m.Some? ==> (exists x :: x in s && x.timestamp == m) &&
                        forall x :: x in s && x.timestamp.Some? ==> x.timestamp.value <= m.value
  {
    if s == [] then None
    else
      var rest := MaxStamp(s[1..]);
      var t := s[0].timestamp;
      assert forall x :: x in s ==> x == s[0] || x in s[1..];
      if t.None? then
        rest
      else if rest.None? || rest.value < t.value then
        t
      else
        rest
  }

  /** The user's records of one kind. */
  function RecordsOfType(records: seq<AttendanceRecord>, userId: int, kind: RecordType): (r: seq<AttendanceRecord>)
    ensures forall x :: x in r <==> x in records && x.userId == userId && x.recordType == kind
  {
    if records == [] then []
    else
      var rest := RecordsOfType(records[1..], userId, kind);
      assert forall x :: x in records <==> x == records[0] || x in records[1..];
      if records[0].userId == userId && records[0].recordType == kind then [records[0]] + rest else rest
  }

  // ===========================================================================
  // Queries over the users and attendance_types tables
  // ===========================================================================

  /** `WHERE discord_id = ?` on users: the row's position, if any. */
  function FindUser(users: seq<User>, discordId: string): (r: Option<nat>)
    ensures r.Some? ==> r.value < |users| && users[r.value].discordId == discordId
    ensures r.None? ==> forall i :: 0 <= i < |users| ==> users[i].discordId != discordId
  {
    if users == [] then None
    else if users[|users| - 1].discordId == discordId then Some(|users| - 1)
    else FindUser(users[..|users| - 1], discordId)
  }

  /** `WHERE id = ?` on users. */
  function FindUserById(users: seq<User>, userId: int): (r: Option<User>)
    ensures r.Some? ==> r.value in users && r.value.id == Some(userId)
    ensures r.None? ==> forall u :: u in users ==> u.id != Some(userId)
  {
    if users == [] then None
    else if users[0].id == Some(userId) then Some(users[0])
    else
      assert forall u :: u in users ==> u == users[0] || u in users[1..];
      FindUserById(users[1..], userId)
  }

  /** `get_user_attendance_summary(user_id)`: None for an unknown user; otherwise the stored
      username, the record count, the latest clock-in and clock-out times and whether the
      user is clocked in. */
  function Summary(users: seq<User>, records: seq<AttendanceRecord>, userId: int): (r: Option<AttendanceSummary>)
    ensures r.None? <==> forall u :: u in users ==> u.id != Some(userId)
    ensures r.Some? ==>
      && r.value.userId == userId
      && r.value.totalRecords == |RecordsOf(records, userId)|
      && r.value.isCurrentlyClockedIn == CanClockOut(LatestRecord(records, userId)).allowed
      && r.value.username == FindUserById(users, userId).value.username
      && r.value.latestClockIn == MaxStamp(RecordsOfType(records, userId, ClockIn))
      && r.value.latestClockOut == MaxStamp(RecordsOfType(records, userId, ClockOut))
      && (forall x :: x in records && x.userId == userId && x.recordType == ClockIn && x.timestamp.Some? ==>
            r.value.latestClockIn.Some? && x.timestamp.value <= r.value.latestClockIn.value)
      && (forall x :: x in records && x.userId == userId && x.recordType == ClockOut && x.timestamp.Some? ==>
            r.value.latestClockOut.Some? && x.timestamp.value <= r.value.latestClockOut.value)
  {
    match FindUserById(users, userId)
    case None => None
    case Some(u) =>
      var latest := LatestRecord(records, userId);
      Some(AttendanceSummary(
        userId,
        u.username,
        |RecordsOf(records, userId)|,
        MaxStamp(RecordsOfType(records, userId, ClockIn)),
        MaxStamp(RecordsOfType(records, userId, ClockOut)),
        latest.Some? && latest.value.recordType == ClockIn))
  }

  /** The summary's record count is the length of the user's unlimited record listing. */
  lemma SummaryCountsListing(users: seq<User>, records: seq<AttendanceRecord>, userId: int)
    requires Summary(users, records, userId).Some?
    ensures Summary(users, records, userId).value.totalRecords == |UserRecords(records, userId, -1, 0)|
  {
    var r := UserRecords(records, userId, -1, 0);
    assert |multiset(r)| == |multiset(RecordsOf(records, userId))|;
  }

  /** `get_attendance_types()`: the active types, in table order. */
  function ActiveTypes(types: seq<AttendanceType>): (r: seq<AttendanceType>)
    ensures forall t :: t in r <==> t in types && t.isActive
    ensures |r| <= |types|
  {
    if types == [] then []
    else
      var rest := ActiveTypes(types[1..]);
      assert forall t :: t in types <==> t == types[0] || t in types[1..];
      if types[0].isActive then [types[0]] + rest else rest
  }

  /** The inactive types, in table order. */
  function InactiveTypes(types: seq<AttendanceType>): (r: seq<AttendanceType>)
    ensures forall t :: t in r <==> t in types && !t.isActive
    ensures |r| <= |types|
  {
    if types == [] then []
    else
      var rest := InactiveTypes(types[1..]);
      assert forall t :: t in types <==> t == types[0] || t in types[1..];
      if !types[0].isActive then [types[0]] + rest else rest
  }

  /** `get_attendance_type_by_name(type_name)`: the active type with that name, if any. */
  function TypeByName(types: seq<AttendanceType>, name: string): (r: Option<AttendanceType>)
    ensures r.Some? ==> r.value in types && r.value.typeName == name && r.value.isActive
    ensures r.None? <==> forall t :: t in types ==> !(t.typeName == name && t.isActive)
  {
    if types == [] then None
    else if types[0].typeName == name && types[0].isActive then Some(types[0])
    else
      assert forall t :: t in types ==> t == types[0] || t in types[1..];
      TypeByName(types[1..], name)
  }

  /** The position of the type named `name`, active or not (the UNIQUE constraint on type_name). */
  function FindTypeName(types: seq<AttendanceType>, name: string): (r: Option<nat>)
    ensures r.Some? ==> r.value < |types| && types[r.value].typeName == name
    ensures r.None? ==> forall i :: 0 <= i < |types| ==> types[i].typeName != name
  {
    if types == [] then None
    else if types[|types| - 1].typeName == name then Some(|types| - 1)
    else FindTypeName(types[..|types| - 1], name)
  }

  ghost predicate HasTypeNamed(types: seq<AttendanceType>, name: string) {
    exists i :: 0 <= i < |types| && types[i].typeName == name
  }

  // ===========================================================================
  // Seeding the default attendance types
  // ===========================================================================

  /** The five types `_insert_default_attendance_types` seeds: name and description. */
  const DefaultTypes: seq<(string, string)> := [
    ("Regular Work", "Standard work hours"),
    ("Remote Work", "Working from home"),
    ("Overtime", "Work beyond regular hours"),
    ("Meeting", "Attending meetings"),
    ("Training", "Training or learning activities")
  ]

  /** `INSERT OR IGNORE INTO attendance_types (type_name, description)`: a new active row
      with the next id, unless a row with that name exists (active or not). */
  function InsertOrIgnore(types: seq<AttendanceType>, entry: (string, string)): (r: seq<AttendanceType>)
    ensures HasTypeNamed(types, entry.0) ==> r == types
    ensures !HasTypeNamed(types, entry.0) ==>
      r == types + [AttendanceType(Some(|types| + 1), entry.0, Some(entry.1), true)]
  {
    if FindTypeName(types, entry.0).Some? then types
    else types + [AttendanceType(Some(|types| + 1), entry.0, Some(entry.1), true)]
  }

  /** Inserting-or-ignoring keeps row ids at positions plus one and type names unique. */
  lemma InsertOrIgnoreWellFormed(types: seq<AttendanceType>, entry: (string, string))
    requires TypesWellFormed(types)
    ensures TypesWellFormed(InsertOrIgnore(types, entry))
  {
    if !HasTypeNamed(types, entry.0) {
      var r := InsertOrIgnore(types, entry);
      assert forall i :: 0 <= i < |types| ==> r[i] == types[i];
    }
  }

  /** The types table after inserting-or-ignoring each entry in turn. */
  function Seeded(types: seq<AttendanceType>, entries: seq<(string, string)>): (r: seq<AttendanceType>)
    ensures |types| <= |r| <= |types| + |entries|
    decreases |entries|
  {
    if entries == [] then types else Seeded(InsertOrIgnore(types, entries[0]), entries[1..])
  }

  /** Seeding from entry `i` on is one insert-or-ignore followed by seeding from `i + 1`. */
  lemma SeededStep(types: seq<AttendanceType>, entries: seq<(string, string)>, i: nat)
    requires i < |entries|
    ensures Seeded(types, entries[i..]) == Seeded(InsertOrIgnore(types, entries[i]), entries[i + 1..])
  {
    assert entries[i..][1..] == entries[i + 1..];
  }

  /** Seeding never changes or removes existing rows: it only appends. */
  lemma {:induction false} SeededExtends(types: seq<AttendanceType>, entries: seq<(string, string)>)
    ensures |Seeded(types, entries)| >= |types| && Seeded(types, entries)[..|types|] == types
    decreases |entries|
  {
    if entries != [] {
      var next := InsertOrIgnore(types, entries[0]);
      SeededExtends(next, entries[1..]);
      assert next[..|types|] == types;
    }
  }

  /** After seeding, a type exists under every seeded name. */
  lemma {:induction false} SeededHasAll(types: seq<AttendanceType>, entries: seq<(string, string)>)
    ensures forall k :: 0 <= k < |entries| ==> HasTypeNamed(Seeded(types, entries), entries[k].0)
    decreases |entries|
  {
    if entries != [] {
      var next := InsertOrIgnore(types, entries[0]);
      SeededHasAll(next, entries[1..]);
      SeededExtends(next, entries[1..]);
      var s := Seeded(types, entries);
      if !HasTypeNamed(types, entries[0].0) {
        assert next[|types|].typeName == entries[0].0;
      }
      var i :| 0 <= i < |next| && next[i].typeName == entries[0].0;
      assert s[i] == next[i];
      forall k | 1 <= k < |entries| ensures HasTypeNamed(s, entries[k].0) {
        assert entries[k] == entries[1..][k - 1];
      }
    }
  }

  /** Seeding a table that already holds every seeded name changes nothing. */
  lemma {:induction false} SeededNoop(types: seq<AttendanceType>, entries: seq<(string, string)>)
    requires forall k :: 0 <= k < |entries| ==> HasTypeNamed(types, entries[k].0)
    ensures Seeded(types, entries) == types
    decreases |entries|
  {
    if entries != [] {
      assert HasTypeNamed(types, entries[0].0);
      forall k | 0 <= k < |entries| - 1 ensures HasTypeNamed(types, entries[1..][k].0) {
        assert entries[1..][k] == entries[k + 1];
      }
      SeededNoop(types, entries[1..]);
    }
  }

  /** Seeding is idempotent: running `_insert_default_attendance_types` twice leaves the
      table as running it once did. */
  lemma SeededIdempotent(types: seq<AttendanceType>, entries: seq<(string, string)>)
    ensures Seeded(Seeded(types, entries), entries) == Seeded(types, entries)
  {
    SeededHasAll(types, entries);
    SeededNoop(Seeded(types, entries), entries);
  }

  /** Seeding an empty table yields exactly the five default types, active, with ids 1 to 5. */
  lemma SeededFresh()
    ensures var t := Seeded([], DefaultTypes);
      |t| == 5 &&
      forall i :: 0 <= i < 5 ==>
        t[i] == AttendanceType(Some(i + 1), DefaultTypes[i].0, Some(DefaultTypes[i].1), true)
  {
    var names := ["Regular Work", "Remote Work", "Overtime", "Meeting", "Training"];
    assert forall i :: 0 <= i < 5 ==> DefaultTypes[i].0 == names[i];
    assert names[2][0] != names[4][0];
    SeededAllNew([], DefaultTypes);
  }

  /** Appending a row of another name leaves a name absent. */
  lemma NotNamedAfterAppend(types: seq<AttendanceType>, row: AttendanceType, name: string)
    requires !HasTypeNamed(types, name) && row.typeName != name
    ensures !HasTypeNamed(types + [row], name)
  {
    var next := types + [row];
    forall k | 0 <= k < |next| ensures next[k].typeName != name {
      if k < |types| {
        assert next[k] == types[k];
      }
    }
  }

  /** The active row `INSERT OR IGNORE` creates for `entry` when the table holds `n` rows. */
  function NewTypeRow(n: nat, entry: (string, string)): AttendanceType {
    AttendanceType(Some(n + 1), entry.0, Some(entry.1), true)
  }

  /** Seeding with pairwise different names, none of them in the table yet, appends one
      active row per entry, in order, with the next ids. */
  lemma {:induction false} SeededAllNew(types: seq<AttendanceType>, entries: seq<(string, string)>)
    requires forall i, j :: 0 <= i < j < |entries| ==> entries[i].0 != entries[j].0
    requires forall i :: 0 <= i < |entries| ==> !HasTypeNamed(types, entries[i].0)
    ensures |Seeded(types, entries)| == |types| + |entries|
    ensures forall i :: 0 <= i < |entries| ==>
      Seeded(types, entries)[|types| + i] == NewTypeRow(|types| + i, entries[i])
    decreases |entries|
  {
    if entries != [] {
      var next := InsertOrIgnore(types, entries[0]);
      var rest := entries[1..];
      FirstOfNew(types, entries);
      SeededAllNew(next, rest);
      SeededExtends(next, rest);
      assert Seeded(types, entries) == Seeded(next, rest);
      RowsAfterFirst(types, entries, next, Seeded(next, rest));
    }
  }

  /** After the first of several new names is inserted, the others are still new and distinct. */
  lemma FirstOfNew(types: seq<AttendanceType>, entries: seq<(string, string)>)
    requires entries != []
    requires forall i, j :: 0 <= i < j < |entries| ==> entries[i].0 != entries[j].0
    requires forall i :: 0 <= i < |entries| ==> !HasTypeNamed(types, entries[i].0)
    ensures InsertOrIgnore(types, entries[0]) == types + [NewTypeRow(|types|, entries[0])]
    ensures var rest := entries[1..];
      && (forall i, j :: 0 <= i < j < |rest| ==> rest[i].0 != rest[j].0)
      && (forall i :: 0 <= i < |rest| ==> !HasTypeNamed(InsertOrIgnore(types, entries[0]), rest[i].0))
  {
    var row := NewTypeRow(|types|, entries[0]);
    var rest := entries[1..];
    forall i | 0 <= i < |rest| ensures !HasTypeNamed(types + [row], rest[i].0) {
      assert rest[i] == entries[i + 1];
      NotNamedAfterAppend(types, row, rest[i].0);
    }
    forall i, j | 0 <= i < j < |rest| ensures rest[i].0 != rest[j].0 {
      assert rest[i] == entries[i + 1] && rest[j] == entries[j + 1];
    }
  }

  /** The rows seeded from the first entry on are its row followed by those of the rest. */
  lemma RowsAfterFirst(types: seq<AttendanceType>, entries: seq<(string, string)>,
                       next: seq<AttendanceType>, t: seq<AttendanceType>)
    requires entries != [] && next == types + [NewTypeRow(|types|, entries[0])]
    requires |t| == |next| + |entries[1..]| && t[..|next|] == next
    requires forall i :: 0 <= i < |entries[1..]| ==> t[|next| + i] == NewTypeRow(|next| + i, entries[1..][i])
    ensures |t| == |types| + |entries|
    ensures forall i :: 0 <= i < |entries| ==> t[|types| + i] == NewTypeRow(|types| + i, entries[i])
  {
    forall i | 0 <= i < |entries| ensures t[|types| + i] == NewTypeRow(|types| + i, entries[i]) {
      if i == 0 {
        assert t[..|next|][|types|] == t[|types|];
      } else {
        assert entries[1..][i - 1] == entries[i];
        assert |next| + (i - 1) == |types| + i;
      }
    }
  }

  // ===========================================================================
  // Writing rows
  // ===========================================================================

  /** The row id `get_or_create_user` resolves `discordId` to: that of the existing row, or
      the next id when a row has to be created. */
  function RowIdFor(users: seq<User>, discordId: string): (r: nat)
    ensures 1 <= r <= |users| + 1
    ensures r <= |users| ==> users[r - 1].discordId == discordId
    ensures r == |users| + 1 <==> forall i :: 0 <= i < |users| ==> users[i].discordId != discordId
  {
    match FindUser(users, discordId)
    case Some(i) => i + 1
    case None => |users| + 1
  }

  /** The users table and the user `get_or_create_user` returns: the existing row for
      `discordId`, or a new row with the next id. The stored row is stamped by the
      database clock, the returned one by the bot's local clock. */
  function UserAfterLookup(users: seq<User>, discordId: string, username: string, dbNow: int, localNow: int)
    : (r: (seq<User>, User))
    ensures r.1.discordId == discordId
    ensures UsersWellFormed(users) ==>
      && UsersWellFormed(r.0)
      && r.1.id == Some(RowIdFor(users, discordId)) && 1 <= r.1.id.value <= |r.0|
      && r.0[r.1.id.value - 1].discordId == discordId
    ensures FindUser(users, discordId).Some? ==> r.0 == users && r.1 in users
    ensures FindUser(users, discordId).None? ==>
      && r.0 == users + [User(Some(|users| + 1), discordId, username, Some(dbNow))]
      && r.1 == User(Some(|users| + 1), discordId, username, Some(localNow))
  {
    match FindUser(users, discordId)
    case Some(i) => (users, users[i])
    case None =>
      assert forall k :: 0 <= k < |users| ==> users[k].discordId != discordId;
      (users + [User(Some(|users| + 1), discordId, username, Some(dbNow))],
       User(Some(|users| + 1), discordId, username, Some(localNow)))
  }

  /** Row ids are positions plus one and discord ids are unique. */
  predicate UsersWellFormed(users: seq<User>) {
    && (forall i :: 0 <= i < |users| ==> users[i].id == Some(i + 1))
    && (forall i, j :: 0 <= i < j < |users| ==> users[i].discordId != users[j].discordId)
  }

  /** Row ids are positions plus one and type names are unique. */
  predicate TypesWellFormed(types: seq<AttendanceType>) {
    && (forall i :: 0 <= i < |types| ==> types[i].id == Some(i + 1))
    && (forall i, j :: 0 <= i < j < |types| ==> types[i].typeName != types[j].typeName)
  }

  /** Row ids are positions plus one. */
  predicate RecordsWellFormed(records: seq<AttendanceRecord>) {
    forall i :: 0 <= i < |records| ==> records[i].id == i + 1
  }

  /** `get_or_create_user` is idempotent: a second call for the same discord id returns the
      same user row and adds no row, whatever name and clocks it is given. */
  lemma GetOrCreateIdempotent(users: seq<User>, discordId: string, name1: string, name2: string,
                              db1: int, local1: int, db2: int, local2: int)
    requires UsersWellFormed(users)
    ensures var (users1, u1) := UserAfterLookup(users, discordId, name1, db1, local1);
      var (users2, u2) := UserAfterLookup(users1, discordId, name2, db2, local2);
      users2 == users1 && u2.id == u1.id
  {
    var (users1, u1) := UserAfterLookup(users, discordId, name1, db1, local1);
    if FindUser(users, discordId).None? {
      assert users1[|users|].discordId == discordId;
    }
  }

  /** Appending a record stamped no earlier than every existing record makes it the
      user's latest record. */
  lemma LatestAfterAppend(records: seq<AttendanceRecord>, r: AttendanceRecord)
    requires RecordsWellFormed(records) && r.id == |records| + 1
    requires r.timestamp.Some?
    requires forall x :: x in records && x.timestamp.Some? ==> x.timestamp.value <= r.timestamp.value
    ensures LatestRecord(records + [r], r.userId) == Some(r)
  {
    assert r in records + [r];
  }

  /** The scenario of the test script: right after a clock-in that is stamped no earlier
      than the user's other records, the user can clock out and cannot clock in. */
  lemma ClockInThenCanClockOut(records: seq<AttendanceRecord>, r: AttendanceRecord)
    requires RecordsWellFormed(records) && r.id == |records| + 1
    requires r.recordType == ClockIn && r.timestamp.Some?
    requires forall x :: x in records && x.timestamp.Some? ==> x.timestamp.value <= r.timestamp.value
    ensures CanClockOut(LatestRecord(records + [r], r.userId)).allowed
    ensures !CanClockIn(LatestRecord(records + [r], r.userId)).allowed
  {
    LatestAfterAppend(records, r);
  }

  /** The in-memory database: one sequence per table, rows in insertion order. */
  class AttendanceStore {
    var users: seq<User>
    var types: seq<AttendanceType>
    var records: seq<AttendanceRecord>

    predicate Valid()
      reads this
    {
      UsersWellFormed(users) && TypesWellFormed(types) && RecordsWellFormed(records)
    }

    /** `init_database()` on a new database file: empty tables, then the default types. */
    constructor ()
      ensures Valid()
      ensures users == [] && records == []
      ensures types == Seeded([], DefaultTypes)
    {
      users := [];
      types := [];
      records := [];
      new;
      InsertDefaultTypes();
    }

    /** `_insert_default_attendance_types()`: insert-or-ignore each default type in turn. */
    method InsertDefaultTypes()
      requires Valid()
      modifies this
      ensures Valid()
      ensures types == Seeded(old(types), DefaultTypes)
      ensures users == old(users) && records == old(records)
    {
      InsertTypes(DefaultTypes);
    }

    /** The loop of `_insert_default_attendance_types()`: one `INSERT OR IGNORE` per entry. */
    method InsertTypes(entries: seq<(string, string)>)
      requires Valid()
      modifies this
      ensures Valid()
      ensures types == Seeded(old(types), entries)
      ensures users == old(users) && records == old(records)
    {
      var i := 0;
      while i < |entries|
        invariant 0 <= i <= |entries|
        invariant Valid()
        invariant Seeded(types, entries[i..]) == Seeded(old(types), entries)
        invariant users == old(users) && records == old(records)
      {
        SeededStep(types, entries, i);
        InsertOrIgnoreWellFormed(types, entries[i]);
        types := InsertOrIgnore(types, entries[i]);
        i := i + 1;
      }
    }

    /** `get_or_create_user(discord_id, username)`. */
    method GetOrCreateUser(discordId: string, username: string, dbNow: int, localNow: int) returns (u: User)
      requires Valid()
      modifies this
      ensures Valid()
      ensures (users, u) == UserAfterLookup(old(users), discordId, username, dbNow, localNow)
      ensures types == old(types) && records == old(records)
    {
      var found := FindUser(users, discordId);
      if found.Some? {
        u := users[found.value];
      } else {
        users := users + [User(Some(|users| + 1), discordId, username, Some(dbNow))];
        u := User(Some(|users|), discordId, username, Some(localNow));
      }
    }

    /** `create_attendance_record(user_id, record_type, attendance_type_id, notes)`: appends
        one row with the next id, stamped by the database clock, and returns it. Foreign keys
        are not checked: the connection that inserts never enables them. */
    method CreateAttendanceRecord(userId: int, recordType: RecordType, attendanceTypeId: Option<nat>,
                                  notes: Option<string>, dbNow: int) returns (r: AttendanceRecord)
      requires Valid()
      modifies this
      ensures Valid()
      ensures r == AttendanceRecord(|old(records)| + 1, userId, recordType, attendanceTypeId, Some(dbNow), notes)
      ensures records == old(records) + [r]
      ensures users == old(users) && types == old(types)
    {
      r := AttendanceRecord(|records| + 1, userId, recordType, attendanceTypeId, Some(dbNow), notes);
      records := records + [r];
    }
  }
}
