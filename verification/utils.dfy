/** The text helpers of bot/utils.py: Discord timestamp markup, the one-line
    rendering of an attendance record, truncation and note cleaning. */
module Utils {
  import opened Models
  import opened Text

  const ClockInLabel: string := "\U{1F7E2} Clock In"
  const ClockOutLabel: string := "\U{1F534} Clock Out"
  const UnknownTime: string := "Unknown time"
  /** Starts the notes line of a rendered record: a newline and the memo emoji. */
  const NotesMarker: string := "\n\U{1F4DD} "
  /** Longest notes text the bot keeps. */
  const MaxNotesLength: nat := 500

  // ---------------------------------------------------------------------------
  // format_timestamp
  // ---------------------------------------------------------------------------

  /** A signed decimal numeral as `str(int)` writes it: an optional minus sign, then
      digits with no leading zero, except "0" itself (so never "-0"). */
  predicate IsSignedDecimal(d: string) {
    if d != [] && d[0] == '-' then IsDecimal(d[1..]) && d[1] != '0'
    else IsDecimal(d) && (d[0] == '0' ==> d == "0")
  }

  /** `markup` is Discord's timestamp markup for `seconds` shown in `style`. */
  ghost predicate IsTimestampMarkup(markup: string, seconds: int, style: string) {
    exists d: string {:trigger ParseInt(d)} ::
      IsSignedDecimal(d) && ParseInt(d) == seconds && markup == "<t:" + d + ":" + style + ">"
  }

  /** `format_timestamp(dt, style)` with `dt` already converted to epoch seconds. */
  function FormatTimestamp(seconds: int, style: string): (r: string)
    ensures IsTimestampMarkup(r, seconds, style)
    ensures StartsWith(r, "<t:") && EndsWith(r, ">")
  {
    var d := IntToString(seconds);
    IntToStringRoundTrip(seconds);
    var r := "<t:" + d + ":" + style + ">";
    assert IsSignedDecimal(d) && ParseInt(d) == seconds && r == "<t:" + d + ":" + style + ">";
    r
  }

  // ---------------------------------------------------------------------------
  // format_attendance_record
  // ---------------------------------------------------------------------------

  /** The label that opens a rendered record; its first character, the green or the red
      circle, tells the two kinds apart. */
  function Label(t: RecordType): (r: string)
    ensures |r| > 0 && (r[0] == ClockInLabel[0] <==> t == ClockIn)
  {
    if t == ClockIn then ClockInLabel else ClockOutLabel
  }

  /** The time part of a rendered record: Discord markup, or "Unknown time" when the record has none. */
  function TimePart(timestamp: Option<int>): (r: string)
    ensures timestamp.None? <==> StartsWith(r, UnknownTime)
    ensures timestamp.Some? ==> IsTimestampMarkup(r, timestamp.value, "f")
  {
    if timestamp.Some? then
      var r := FormatTimestamp(timestamp.value, "f");
      assert r[0] == r[..3][0] != UnknownTime[0];
      r
    else
      UnknownTime
  }

  /** The time part opens with '<' when there is a timestamp and with 'U' otherwise,
      and it closes with '>' or with the 'e' of "Unknown time". */
  lemma TimePartEnds(timestamp: Option<int>)
    ensures var t := TimePart(timestamp);
      |t| > 0 && (t[0] == '<' <==> timestamp.Some?) && t[|t| - 1] in ">e"
  {
    var t := TimePart(timestamp);
    if timestamp.Some? {
      assert t[0] == t[..3][0];
      assert t[|t| - 1] == t[|t| - 1..][0];
    } else {
      assert t[0] == 'U';
    }
  }

  /** The first line's opening: the record's label, a dash and its time. */
  function Headline(record: AttendanceRecord): (h: string)
    ensures StartsWith(h, Label(record.recordType) + " - ")
    ensures h[|Label(record.recordType) + " - "|..] == TimePart(record.timestamp)
  {
    var head := Label(record.recordType) + " - ";
    var h := head + TimePart(record.timestamp);
    assert h[..|head|] == head;
    h
  }

  /** The headline is never empty and ends with the last character of its time part. */
  lemma HeadlineEnd(record: AttendanceRecord)
    ensures var h := Headline(record);
      |h| > 0 && h[|h| - 1] in ">e"
  {
    var h := Headline(record);
    var head := Label(record.recordType) + " - ";
    var t := TimePart(record.timestamp);
    TimePartEnds(record.timestamp);
    assert h[|head|..] == t;
    assert h[|h| - 1] == t[|t| - 1];
  }

  /** The attendance-type name in parentheses, shown for named clock-ins only. */
  function TypeSuffix(recordType: RecordType, typeName: Option<string>): (s: string)
    ensures s != "" <==> typeName.Some? && typeName.value != "" && recordType == ClockIn
    ensures s != "" ==> s == " (" + typeName.value + ")"
  {
    if typeName.Some? && typeName.value != "" && recordType == ClockIn then " (" + typeName.value + ")" else ""
  }

  /** The notes line, present when the record has non-empty notes. */
  function NotesLine(notes: Option<string>): (s: string)
    ensures s != "" <==> notes.Some? && notes.value != ""
    ensures s != "" ==> s == NotesMarker + notes.value
  {
    if notes.Some? && notes.value != "" then NotesMarker + notes.value else ""
  }

  /** `format_attendance_record(record, attendance_type_name)`: the label, the time, the
      type name in parentheses for a named clock-in, and a notes line when there are notes. */
  function FormatAttendanceRecord(record: AttendanceRecord, typeName: Option<string>): (r: string)
    ensures StartsWith(r, ClockInLabel) <==> record.recordType == ClockIn
    ensures StartsWith(r, ClockOutLabel) <==> record.recordType == ClockOut
  {
    var tag := Label(record.recordType);
    var h := Headline(record);
    var rest := TypeSuffix(record.recordType, typeName) + NotesLine(record.notes);
    var r := h + rest;
    SplitConcat(tag, " - ");
    SplitConcat(h, rest);
    PrefixOfPrefix(h, tag + " - ", tag);
    PrefixOfPrefix(r, h, tag);
    assert r[0] == tag[0];
    assert ClockInLabel[0] != ClockOutLabel[0];
    ConcatAssoc(h, TypeSuffix(record.recordType, typeName), NotesLine(record.notes));
    r
  }

  /** The tag and a dash are followed by the record's own time, and "Unknown time" takes
      the place of the time exactly when the record has no timestamp. */
  lemma FormatShowsUnknownTime(record: AttendanceRecord, typeName: Option<string>)
    ensures var r := FormatAttendanceRecord(record, typeName);
      var head := Label(record.recordType) + " - ";
      StartsWith(r, head + TimePart(record.timestamp)) &&
      StartsWith(r, head) && (StartsWith(r[|head|..], UnknownTime) <==> record.timestamp.None?)
  {
    var head := Label(record.recordType) + " - ";
    var t := TimePart(record.timestamp);
    var rest := TypeSuffix(record.recordType, typeName) + NotesLine(record.notes);
    assert Headline(record) == head + t by {
      var h := Headline(record);
      assert h == h[..|head|] + h[|head|..];
    }
    var r := FormatAttendanceRecord(record, typeName);
    assert r == (head + t) + rest by {
      ConcatAssoc(Headline(record), TypeSuffix(record.recordType, typeName), NotesLine(record.notes));
    }
    SplitConcat(head + t, rest);
    ConcatAssoc(head, t, rest);
    SplitConcat(head, t + rest);
    SplitConcat(t, rest);
    if record.timestamp.Some? && |r[|head|..]| >= |UnknownTime| {
      TimePartEnds(record.timestamp);
      var after := r[|head|..];
      assert after[..|UnknownTime|][0] == after[0] == t[0] == '<';
      assert UnknownTime[0] == 'U';
      assert after[..|UnknownTime|] != UnknownTime;
    }
  }

  /** The type name follows the time, in parentheses, exactly for a clock-in given a non-empty name. */
  lemma FormatShowsTypeName(record: AttendanceRecord, typeName: Option<string>)
    ensures var r := FormatAttendanceRecord(record, typeName);
      var named := typeName.Some? && typeName.value != "" && record.recordType == ClockIn;
      var at := |Headline(record)|;
      at <= |r| &&
      (StartsWith(r[at..], " (") <==> named) &&
      (named ==> StartsWith(r[at..], " (" + typeName.value + ")"))
  {
    var r := FormatAttendanceRecord(record, typeName);
    var h := Headline(record);
    var suffix := TypeSuffix(record.recordType, typeName);
    var tail := NotesLine(record.notes);
    ConcatAssoc(h, suffix, tail);
    SplitConcat(h, suffix + tail);
    if suffix != "" {
      SplitConcat(suffix, tail);
    } else if tail != "" {
      assert (suffix + tail)[0] == NotesMarker[0] == '\n';
    }
  }

  /** The record ends with a notes line exactly when it has non-empty notes. */
  lemma FormatShowsNotes(record: AttendanceRecord, typeName: Option<string>)
    ensures var r := FormatAttendanceRecord(record, typeName);
      record.notes.Some? && record.notes.value != "" <==> EndsWith(r, NotesMarker + record.notes.GetOr(""))
  {
    var r := FormatAttendanceRecord(record, typeName);
    var line := Headline(record) + TypeSuffix(record.recordType, typeName);
    var tail := NotesLine(record.notes);
    assert r == line + tail;
    if tail == "" {
      HeadlineEnd(record);
      assert line[|line| - 1] in ">e)";
      assert r[|r| - 1] != ' ';
    } else {
      assert r[|r| - |tail|..] == tail;
    }
  }

  // ---------------------------------------------------------------------------
  // truncate_text
  // ---------------------------------------------------------------------------

  /** Python's `s[:k]`, where a negative `k` counts from the end. */
  function PyPrefix(s: string, k: int): (r: string)
    ensures StartsWith(s, r)
    ensures 0 <= k <= |s| ==> |r| == k
    ensures |r| == if k >= 0 then (if k < |s| then k else |s|) else (if |s| + k > 0 then |s| + k else 0)
  {
    if k >= 0 then s[..if k < |s| then k else |s|]
    else s[..if |s| + k > 0 then |s| + k else 0]
  }

  /** `truncate_text(text, max_length)`: text that is too long is cut and ends in "...". */
  function TruncateText(text: string, maxLength: int): (r: string)
    ensures |text| <= maxLength ==> r == text
    ensures |text| > maxLength ==> EndsWith(r, "...") && StartsWith(text, r[..|r| - 3])
    ensures |text| > maxLength >= 3 ==> |r| == maxLength && r[..maxLength - 3] == text[..maxLength - 3]
    ensures |text| > maxLength && maxLength < 3 ==> |r| > maxLength
    ensures |text| > maxLength && maxLength < 3 ==>
      |r| == (if |text| + maxLength - 3 > 0 then |text| + maxLength - 3 else 0) + 3
  {
    if |text| <= maxLength then text
    else
      var r := PyPrefix(text, maxLength - 3) + "...";
      assert r[..|r| - 3] == PyPrefix(text, maxLength - 3);
      r
  }

  // ---------------------------------------------------------------------------
  // validate_notes
  // ---------------------------------------------------------------------------

  /** `validate_notes(notes)`: strip, keep at most 500 characters, and turn absent,
      empty and blank notes into None. */
  function ValidateNotes(notes: Option<string>): (r: Option<string>)
    ensures r.None? <==> notes.None? || AllSpace(notes.value)
    ensures r.Some? ==>
      && 0 < |r.value| <= MaxNotesLength
      && !IsSpace(r.value[0])
      && StartsWith(Strip(notes.value), r.value)
      && (|Strip(notes.value)| <= MaxNotesLength ==> r.value == Strip(notes.value))
    ensures notes.Some? && |Strip(notes.value)| > MaxNotesLength ==>
      r == Some(Strip(notes.value)[..MaxNotesLength])
  {
    if notes.None? || notes.value == "" then None
    else
      var cleaned := Strip(notes.value);
      if |cleaned| > MaxNotesLength then Some(cleaned[..MaxNotesLength])
      else if cleaned != "" then Some(cleaned)
      else None
  }

  /** Cleaning notes that needed no truncation a second time changes nothing. */
  lemma {:induction false} ValidateNotesIdempotent(notes: Option<string>)
    requires notes.Some? ==> |Strip(notes.value)| <= MaxNotesLength
    ensures ValidateNotes(ValidateNotes(notes)) == ValidateNotes(notes)
  {
    if notes.Some? && !AllSpace(notes.value) {
      var cleaned := Strip(notes.value);
      assert ValidateNotes(notes) == Some(cleaned);
      StripIdempotent(notes.value);
      assert !AllSpace(cleaned) by {
        assert !IsSpace(cleaned[0]);
      }
    }
  }
}
