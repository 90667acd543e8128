/** The records the bot stores and passes around (bot/models.py), as values.
    Timestamps are integer seconds since the Unix epoch. */
module Models {

  datatype Option<+T> = None | Some(value: T) {
    function GetOr(default: T): T {
      match this
      case Some(v) => v
      case None => default
    }
  }

  /** `record_type`, which the attendance_records table restricts to 'clock_in' and 'clock_out'. */
  datatype RecordType = ClockIn | ClockOut

  /** A Discord user known to the bot; `id` is unset until the row exists. */
  datatype User = User(id: Option<nat>, discordId: string, username: string, createdAt: Option<int>)

  /** A category of work a clock-in can name. */
  datatype AttendanceType = AttendanceType(
    id: Option<nat>,
    typeName: string,
    description: Option<string>,
    isActive: bool)

  /** One clock-in or clock-out event. Every record the bot handles has been read back
      from its table, so its row id is always set. */
  datatype AttendanceRecord = AttendanceRecord(
    id: nat,
    userId: int,
    recordType: RecordType,
    attendanceTypeId: Option<nat>,
    timestamp: Option<int>,
    notes: Option<string>)

  /** The per-user report behind the my-summary command. */
  datatype AttendanceSummary = AttendanceSummary(
    userId: int,
    username: string,
    totalRecords: nat,
    latestClockIn: Option<int>,
    latestClockOut: Option<int>,
    isCurrentlyClockedIn: bool)
}
