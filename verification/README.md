# Discord attendance bot — a verified model of its core

The Discord attendance bot lets members of a server clock in (naming a kind of work,
such as "Regular Work" or "Meeting") and clock out with slash commands, and keeps
every event in a SQLite database of users, attendance types and attendance records.
This project models, in Dafny, the parts of the bot that decide things:

- `models.dfy` (module `Models`): the user, attendance type, attendance record and
  summary records of `bot/models.py` as datatypes. `record_type` is the two-valued
  `RecordType`, as the table's CHECK constraint allows. Timestamps are integer seconds
  since the epoch.
- `text.dfy` (module `Text`): the Python string operations the bot relies on
  (`strip`, `lower`, `upper`, `in`, `isdigit`, `int`, `str`) on ASCII text.
- `utils.dfy` (module `Utils`): `format_timestamp`, `format_attendance_record`,
  `truncate_text` and `validate_notes`.
- `config.dfy` (module `Config`): the `GUILD_ID`, `DEBUG` and `LOG_LEVEL` rules and
  `Config.validate()`, with environment values passed in as `Option<string>`.
- `database.dfy` (module `Database`): the clock-in/clock-out gate, the queries of
  `bot/database.py` as functions over the three tables held as sequences in insertion
  order, and the class `AttendanceStore`, whose methods insert rows the way
  `init_database`, `_insert_default_attendance_types`, `get_or_create_user` and
  `create_attendance_record` do.
- `commands.dfy` (module `Commands`): the decisions inside the slash commands:
  autocomplete (a loop that stops at 25 choices), the choice list, the checks for adding
  a type, the active/inactive split of the type list, and the clock-in and clock-out
  flows that drive an `AttendanceStore`.

Modelling choices that fix what the SQL leaves open:

- Row ids. Rows are never deleted, so a row's id is its position plus one.
  `get_or_create_user` hands out the next id, and so does `INSERT OR IGNORE` when it
  inserts.
- Order of records. `ORDER BY timestamp DESC` puts the later timestamp first. For equal
  timestamps SQL fixes no order. The model breaks such ties by listing the larger id
  (the later insert) first, and lists records without a timestamp last. This order
  is `Database.Newer`.
- Clocks. `dbNow` stands for the database's `CURRENT_TIMESTAMP`; `localNow` stands for
  the bot's `datetime.now()`. They are separate parameters because a new user is stored
  with the first and returned with the second.
- Foreign keys. `create_attendance_record` opens its own connection, and that
  connection never runs `PRAGMA foreign_keys = ON`. So the model appends the record
  without checking the user id or the type id.
- Negative `LIMIT` and `OFFSET`. SQLite reads a negative `LIMIT` as "no limit" and a
  negative `OFFSET` as 0.

## Model

| member | source | states |
|---|---|---|
| Text.Strip | bot/utils.py:78 | the input is whitespace, then the result, then whitespace; the result is empty exactly when the input is all whitespace, otherwise it has no whitespace at either end |
| Text.StripFixed | bot/utils.py:78 | a string with no whitespace at either end is stripped to itself |
| Text.StripIdempotent | bot/utils.py:78 | stripping a stripped string changes nothing |
| Text.Lower | bot/commands.py:127 | `str.lower()`: same length, each character lower-cased and every other character kept |
| Text.Upper | bot/config.py:31 | `str.upper()`: same length, each character upper-cased and every other character kept |
| Text.Contains | bot/commands.py:127 | `sub in s` holds exactly when `sub` occurs in `s` at some position |
| Text.IsDecimal | bot/config.py:22 | `s.isdigit()` on ASCII text: non-empty and made of the digits 0 to 9 only |
| Text.ParseNat | bot/config.py:23 | `int(s)` of a digit string is zero exactly when every digit is '0' (the empty string included) |
| Text.NatToString | bot/utils.py:13 | `str(n)` is a non-empty digit string with no leading zero, and it starts with '0' only as "0", which is what 0 becomes |
| Text.IntToString | bot/utils.py:13 | `str(i)` starts with '-' exactly for negative `i`, followed by digits without a leading zero; for other `i` it is a digit string without a leading zero |
| Text.ParseNatToString | bot/config.py:23 | `int(str(n)) == n` for every natural number |
| Text.IntToStringRoundTrip | bot/utils.py:12-13 | the decimal written for any integer, sign included, parses back to that integer |
| Utils.FormatTimestamp | bot/utils.py:7-13 | the result is `<t:` + a signed numeral that parses back to the seconds + `:` + style + `>` |
| Utils.Label | bot/utils.py:52 | the label is never empty, and its first character, the green circle, appears exactly for a clock-in |
| Utils.TimePart | bot/utils.py:53 | the time part starts with "Unknown time" exactly when the record has no timestamp, and otherwise is the Discord markup of that timestamp in style "f" |
| Utils.TimePartEnds | bot/utils.py:53 | the time part opens with '<' exactly when the record has a timestamp, and ends with '>' or the 'e' of "Unknown time" |
| Utils.Headline | bot/utils.py:55 | the first line opens with the label, " - " and the time part |
| Utils.HeadlineEnd | bot/utils.py:55 | the first line is never empty and ends with '>' or 'e', the end of its time part |
| Utils.TypeSuffix | bot/utils.py:57-58 | " (name)" exactly for a clock-in given a non-empty type name, else nothing |
| Utils.NotesLine | bot/utils.py:60-61 | a newline, the memo sign and the notes exactly when the notes are non-empty, else nothing |
| Utils.FormatAttendanceRecord | bot/utils.py:50-55 | the rendering starts with the clock-in label exactly for clock-ins and with the clock-out label exactly for clock-outs |
| Utils.FormatShowsUnknownTime | bot/utils.py:53-55 | the rendering starts with "label - " and the record's own time part; "Unknown time" stands there exactly when the record has no timestamp |
| Utils.FormatShowsTypeName | bot/utils.py:57-58 | " (name)" follows the time exactly for a clock-in given a non-empty type name |
| Utils.FormatShowsNotes | bot/utils.py:60-61 | the rendering ends with a newline, the memo sign and the notes exactly when the notes are non-empty |
| Utils.PyPrefix | bot/utils.py:70 | Python's `s[:k]` is a prefix of `s`, of length `min(k, len(s))` for `k >= 0` and `max(len(s) + k, 0)` for negative `k` |
| Utils.TruncateText | bot/utils.py:65-70 | text that fits is returned unchanged; longer text becomes a prefix of it plus "..."; that is exactly `max_length` long when `max_length >= 3`; for `max_length < 3`, Python's negative slice keeps `max(len(text) + max_length - 3, 0)` characters before the "..." |
| Utils.ValidateNotes | bot/utils.py:72-84 | None exactly for absent, empty or blank notes; otherwise 1 to 500 characters, no leading whitespace, a prefix of the stripped notes: all of them when they fit, else exactly their first 500 characters |
| Utils.ValidateNotesIdempotent | bot/utils.py:72-84 | cleaning notes that needed no truncation a second time changes nothing |
| Config.GuildId | bot/config.py:18-24 | a number exactly when the value is set and its stripped form is a non-empty digit string; that number printed is the stripped digits without leading zeros |
| Config.TrimLeadingZeros | bot/config.py:23 | dropping leading zeros keeps a numeral canonical and keeps its value |
| Config.NatToStringOfParse | bot/config.py:23 | `str(int(d))` is the digit string `d` without its leading zeros |
| Config.GuildIdRoundTrip | bot/config.py:21-23 | a GUILD_ID holding any number, padded with the same blanks on both sides, yields that number |
| Config.Debug | bot/config.py:30 | true exactly when DEBUG is set to a four-letter value that lower-cases to "true"; unset means false |
| Config.LogLevel | bot/config.py:31 | "INFO" when unset; otherwise the value with every letter upper-cased and nothing else changed |
| Config.DiscordToken | bot/config.py:15 | the DISCORD_TOKEN value, or "" when unset |
| Config.MissingVars | bot/config.py:36-39 | empty exactly when the token is non-empty, else just "DISCORD_TOKEN" |
| Config.JoinComma | bot/config.py:42 | `", ".join(names)`: empty for no names, the name itself for one, else the first name followed by ", " |
| Config.Validate | bot/config.py:33-42 | fails exactly when DISCORD_TOKEN is empty, with a message that starts "Missing required environment variables: " and names DISCORD_TOKEN |
| Database.CanClockIn | bot/database.py:183-193 | allowed exactly when there is no latest record or it is a clock-out |
| Database.CanClockOut | bot/database.py:195-205 | allowed exactly when the latest record is a clock-in |
| Database.GateExclusive | bot/database.py:183-205 | for every latest record, exactly one of clocking in and clocking out is allowed |
| Database.Newer | bot/database.py:297 | one row is listed before another only when it is a different row with no earlier timestamp; of two rows with different ids, one that is not listed first has no later timestamp |
| Database.Insert | bot/database.py:297 | inserting a record into a newest-first listing keeps it newest first and adds exactly that record |
| Database.SortNewestFirst | bot/database.py:297 | `ORDER BY timestamp DESC` yields a newest-first permutation of its input |
| Database.RecordsOf | bot/database.py:296 | `WHERE user_id = ?` keeps each of the user's records exactly as often as the table holds it, and no other record |
| Database.RecordsOfInOrder | bot/database.py:296 | the user's records keep table order: those among the first rows of the table start the user's records of the whole table |
| Database.NewestOf | bot/database.py:167-168 | `ORDER BY timestamp DESC LIMIT 1` is None exactly for no rows, else a row no other row is newer than |
| Database.LatestRecord | bot/database.py:160-181 | None exactly when the user has no records; otherwise one of the user's records that none of their records is newer than |
| Database.Page | bot/database.py:298 | `LIMIT ? OFFSET ?` is the run of rows starting at the offset (0 when negative), `limit` long or up to the end |
| Database.PageStart | bot/database.py:298 | where the page starts: the offset itself when it lies within the rows, and never past the last row |
| Database.UserRecords | bot/database.py:285-313 | the page at `offset` of the user's records sorted newest first; at most `limit` records, all the user's, with non-increasing timestamps; from offset 0, exactly `min(limit, count)` records, and with no limit all of the user's records |
| Database.NewestFirstSlice | bot/database.py:297-298 | any run of a newest-first listing is newest first and holds rows of the listing |
| Database.NewestFirstStamps | bot/database.py:297 | in a newest-first listing the timestamps never increase |
| Database.LatestIsFirstListed | bot/database.py:160-181 | the latest record is the first row of the user's listing, and None when the listing is empty |
| Database.MaxStamp | bot/database.py:262-267 | `MAX(timestamp)` is None when no row has a timestamp, else a timestamp that occurs and bounds them all |
| Database.RecordsOfType | bot/database.py:264-266 | the user's records of one record type, exactly |
| Database.FindUser | bot/database.py:94-99 | `WHERE discord_id = ?` finds a row with that discord id, or reports that there is none |
| Database.FindUserById | bot/database.py:248-258 | `WHERE u.id = ?` finds a user with that id, or reports that there is none |
| Database.RowIdFor | bot/database.py:100-118 | the id `get_or_create_user` resolves to is at most one past the last row; it names the row with that discord id when there is one, and is the next id exactly when no row has that discord id |
| Database.Summary | bot/database.py:244-283 | None exactly for an unknown user; otherwise the stored username, the user's record count, the latest clock-in and clock-out times as `MAX(timestamp)` of each type (bounding all of theirs), and "clocked in" equal to what `can_clock_out` answers |
| Database.SummaryCountsListing | bot/database.py:248-260 | the summary's record count equals the number of records the unlimited listing returns |
| Database.ActiveTypes | bot/database.py:124-140 | exactly the active types, so inactive ones are never offered |
| Database.InactiveTypes | bot/commands.py:394 | exactly the inactive types |
| Database.TypeByName | bot/database.py:142-158 | an active type with that name, or None exactly when no active type has it |
| Database.FindTypeName | bot/database.py:39 | finds a type row with that name, active or not, or reports that there is none |
| Database.InsertOrIgnore | bot/database.py:83-86 | a name already present (active or not) leaves the table unchanged; a new name appends one active row with the next id |
| Database.Seeded | bot/database.py:82-86 | the types table after inserting-or-ignoring each entry in turn grows by at most one row per entry |
| Database.InsertOrIgnoreWellFormed | bot/database.py:39 | insert-or-ignore keeps type names unique and ids at positions plus one |
| Database.SeededExtends | bot/database.py:82-86 | seeding only appends rows: existing types are untouched |
| Database.SeededHasAll | bot/database.py:82-86 | after seeding, a type exists under every seeded name |
| Database.SeededNoop | bot/database.py:82-86 | seeding a table that has every seeded name changes nothing |
| Database.SeededIdempotent | bot/database.py:71-87 | seeding twice leaves the table as seeding once did |
| Database.SeededAllNew | bot/database.py:82-86 | seeding with pairwise different names that are not yet in the table appends one active row per entry, in order, with the next ids |
| Database.SeededFresh | bot/database.py:73-79 | seeding an empty table gives exactly the five default types, active, with ids 1 to 5, in order |
| Database.UserAfterLookup | bot/database.py:89-122 | an existing discord id returns its row and adds none; a new one appends one row with the next id; the returned id names the row for that discord id and the table stays well formed |
| Database.GetOrCreateIdempotent | bot/database.py:89-122 | a second lookup of the same discord id adds no user and returns the same id |
| Database.LatestAfterAppend | bot/database.py:207-242 | a record appended with a timestamp no earlier than any other becomes its user's latest record |
| Database.ClockInThenCanClockOut | test_bot.py:44-57 | right after such a clock-in the user can clock out and cannot clock in |
| Database.AttendanceStore.constructor | bot/database.py:19-69 | a new database has no users and no records, and its types are the seeded defaults |
| Database.AttendanceStore.InsertDefaultTypes | bot/database.py:71-87 | the types table becomes its old contents seeded with the five default types, and nothing else changes |
| Database.AttendanceStore.InsertTypes | bot/database.py:82-86 | the loop leaves the types table equal to seeding its old contents with the entries in order, and changes nothing else |
| Database.AttendanceStore.GetOrCreateUser | bot/database.py:89-122 | the users table and the returned user are those of `UserAfterLookup`; the other tables are unchanged |
| Database.AttendanceStore.CreateAttendanceRecord | bot/database.py:207-242 | appends exactly one record with the next id, the given user, type, attendance type id and notes, stamped by the database clock; nothing else changes |
| Commands.Matches | bot/commands.py:127 | a type matches exactly when the lower-cased text occurs in its lower-cased name |
| Commands.ChoiceFor | bot/commands.py:34 | a type's choice sends back its name, and shows the same name |
| Commands.Take | bot/commands.py:35 | `s[:25]`: a prefix of `s` with 25 elements, or all of `s` when it is shorter |
| Commands.AllMatches | bot/commands.py:126-128 | the matching types' choices in list order, never more than there are types |
| Commands.AllMatchesSound | bot/commands.py:126-128 | every choice names a listed type whose name contains the typed text, ignoring case |
| Commands.AllMatchesComplete | bot/commands.py:126-128 | every listed type whose name contains the typed text, ignoring case, is offered |
| Commands.AllMatchesPrefix | bot/commands.py:126-131 | the matches among the first rows are the start of the matches of all rows |
| Commands.Autocomplete | bot/commands.py:116-133 | the loop with its early stop returns exactly the first min(25, matches) matching choices, each one matching |
| Commands.TakeMatchesSound | bot/commands.py:126-131 | every choice kept after the cut at 25 matches the typed text |
| Commands.TypeChoices | bot/commands.py:29-35 | a choice for each of the first 25 active types, in order |
| Commands.AllMatchEmpty | bot/commands.py:127 | every type matches the empty text |
| Commands.AutocompleteEmptyIsTypeChoices | bot/commands.py:29-35 | before anything is typed, autocomplete offers exactly the command's choice list |
| Commands.CleanDescription | bot/commands.py:321 | the description is stripped, and empty when absent |
| Commands.ValidateNewType | bot/commands.py:310-353 | refuses a blank name, then a stripped name over 50, then a stripped description over 200, then an existing name, each exactly when the earlier checks pass; otherwise creates the type with the stripped values |
| Commands.CleanDescriptionIdempotent | bot/commands.py:321 | cleaning an already cleaned description changes nothing |
| Commands.CreatedIsStable | bot/commands.py:320-321 | an accepted type is accepted unchanged when resubmitted in its cleaned form |
| Commands.CreatedThenDuplicate | bot/commands.py:342-350 | once a name is created, submitting it again is refused as a duplicate |
| Commands.ListTypes | bot/commands.py:375-440 | nothing to list exactly when there are no types; otherwise the active and the inactive types and the footer's total and active counts |
| Commands.ActiveInactivePartition | bot/commands.py:393-394 | the active and inactive lists together hold every type exactly once |
| Commands.ListingCounts | bot/commands.py:438-440 | the footer's total is the active count plus the number of inactive types |
| Commands.ClockIn | bot/commands.py:46-113 | the user is looked up or created; a record is written exactly when the gate allows and the type is an active one, checked in that order; the record carries the cleaned notes and the type's id; after it, with a clock that has not gone back, the user can clock out |
| Commands.ClockOut | bot/commands.py:140-195 | the user is looked up or created; a clock-out with no type is written exactly when the gate allows; after it, with a clock that has not gone back, the user can clock in again |

## Left out

- Discord itself: interactions, deferring, follow-up messages, embeds and their colours (`create_success_embed`, `create_error_embed`, `create_info_embed`), the cog setup and the bot's life cycle and signal handling in `bot/main.py`.
- The `my_summary` command's rendering of an embed. Its data comes from `Database.Summary` and `Database.UserRecords`, and its text from `Utils.FormatAttendanceRecord` and `Utils.TruncateText`; the command itself is not modelled.
- The exception handlers of every command and of `get_attendance_type_choices` and `attendance_type_autocomplete`. Their fallback replies (a "System Error" message, a lone "Regular Work" choice) are not modelled, because nothing in the model raises.
- aiosqlite, SQL text, indexes, `PRAGMA` and commits: the three tables are sequences.
- `get_all_attendance_types`, `attendance_type_exists` and `create_attendance_type` are called by the commands (`bot/commands.py:343`, `bot/commands.py:353`, `bot/commands.py:381`) but are not defined in `bot/database.py`. As written, list-attendance-types, and add-attendance-type once its length checks pass, end in the "System Error" reply. The model describes what the commands would do if those calls existed: `Commands.ListTypes` takes the rows they would return as a parameter, and `Commands.ValidateNewType` takes the set of existing names. Storing the new type is not modelled.
- Commands.ClockIn: the "Failed to create user record." reply is not modelled, because every stored user has an id, so `user.id is None` cannot happen.
- Commands.ClockOut: the same "Failed to create user record." reply is not modelled, for the same reason.
- Database.Summary: if a user had records of one type and none of them had a timestamp, `MAX(timestamp)` would be NULL and the source would raise. The model returns no time instead. Every insert stamps `CURRENT_TIMESTAMP`, so the case does not arise.
- Concurrency: every command is an async handler and every database call opens its own connection, so two commands of the same user can interleave. For example, two clock-ins can both pass `can_clock_in` (`bot/commands.py:71`) before either reaches `create_attendance_record` (`bot/commands.py:89`), which writes two clock-ins in a row. Interleaving is not modelled.
- Commands.ClockIn: runs the whole command as one atomic step, so "a clock-in is written exactly when `can_clock_in` allows it" holds only when commands of the same user do not interleave.
- Commands.ClockOut: runs the whole command as one atomic step, so "a clock-out is written exactly when `can_clock_out` allows it" holds only when commands of the same user do not interleave.
- Dates and time zones: `datetime.fromisoformat`, `dt.timestamp()`, `datetime.now()` and the UTC default of `format_timestamp` are replaced by integer seconds.
- Unicode: `strip`, `lower`, `upper` and `isdigit` are modelled on ASCII characters only.
- `load_dotenv`, `os.getenv` at import time, `DATABASE_PATH`, `setup_logging` and all logging.
- `Config.GUILD_ID` is set to None and `_get_guild_id` is never called (`bot/config.py:16`, `bot/main.py:49`). The model has `Config.GuildId` for what `_get_guild_id` would return, but nothing stores it.
- Pydantic validation in `bot/models.py`, and the request models `ClockInRequest` and `ClockOutRequest`, which the commands import but never use.
- Ties between equal timestamps in `ORDER BY timestamp DESC`: SQL leaves their order open, and the model picks the larger id first.
- Commands.ClockNotBehind: allows the new record's stamp to equal earlier ones. `CURRENT_TIMESTAMP` has one-second resolution (`bot/database.py:52`), so a clock-in and a clock-out in the same second carry equal stamps, and `ORDER BY timestamp DESC LIMIT 1` (`bot/database.py:167-168`) may then return either of them. For equal stamps the claims below rest on the model's larger-id tie-break, not on a promise of SQLite.
- Commands.ClockIn: "after it the user can clock out" holds in SQLite only when the new stamp is strictly later than the user's other stamps; with an equal stamp it rests on the larger-id tie-break.
- Commands.ClockOut: "after it the user can clock in again" holds in SQLite only when the new stamp is strictly later than the user's other stamps; with an equal stamp it rests on the larger-id tie-break.
- Database.LatestAfterAppend: with a stamp equal to another record's, the appended record is the latest only under the larger-id tie-break; SQLite may return the other record.
- Database.ClockInThenCanClockOut: the same dependence on the tie-break when the clock-in shares its second with the user's previous record, as two commands run milliseconds apart do.
