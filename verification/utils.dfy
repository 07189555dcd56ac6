/** The decision helpers of attendance/utils.py: the schedule-window check,
    the parent-notification policy and the attendance percentage. Token
    signing (`generate_qr_code`, `verify_qr_data`) is represented by an
    oracle parameter of the scan pipeline instead. */
module Utils {
  import opened Basics
  import opened Calendar
  import opened Models

  // ------------------------------------------------------------ schedule window

  datatype WindowVerdict = InWindow | NotScheduled(day: string) | OutsideClassTime

  /** An explicit tolerance wins; `None` falls back to the settings' value. */
  function EffectiveTolerance(tolerance: Option<int>, settings: Settings): int {
    match tolerance
    case Some(t) => t
    case None => settings.scanToleranceMinutes
  }

  /** Neither `start - tol` nor `end + tol` leaves the calendar day. */
  predicate NoWrap(subject: Subject, tol: int) {
    && 0 <= subject.startTime.Micros() - MinutesMicros(tol) < DayMicros
    && 0 <= subject.endTime.Micros() + MinutesMicros(tol) < DayMicros
  }

  /** `is_within_time_window(subject, now, tolerance)`, given the settings row
      that `get_settings` returned. Bounds are times of day, so a bound pushed
      past midnight wraps around as `.time()` does. */
  function IsWithinTimeWindow(subject: Subject, now: Instant, tolerance: Option<int>, settings: Settings): (v: WindowVerdict)
    ensures v.NotScheduled? <==> !ScheduledOn(subject.daysOfWeek, DayCode(now.date))
    ensures v.NotScheduled? ==> v.day == DayCode(now.date)
    ensures var tol := EffectiveTolerance(tolerance, settings);
            ScheduledOn(subject.daysOfWeek, DayCode(now.date)) && NoWrap(subject, tol) ==>
              (v.InWindow? <==>
                 subject.startTime.Micros() - MinutesMicros(tol)
                 <= now.time.Micros()
                 <= subject.endTime.Micros() + MinutesMicros(tol))
  {
    var tol := EffectiveTolerance(tolerance, settings);
    var day := DayCode(now.date);
    if !ScheduledOn(subject.daysOfWeek, day) then NotScheduled(day)
    else
      var lo := ShiftedMicros(subject.startTime, -tol);
      var hi := ShiftedMicros(subject.endTime, tol);
      if lo <= now.time.Micros() <= hi then InWindow else OutsideClassTime
  }

  /** Omitting the tolerance is the same as passing the settings' value, and an
      explicit tolerance makes the settings' value irrelevant. */
  lemma ToleranceDefaulting(subject: Subject, now: Instant, settings: Settings, other: Settings, t: int)
    ensures IsWithinTimeWindow(subject, now, None, settings)
            == IsWithinTimeWindow(subject, now, Some(settings.scanToleranceMinutes), other)
    ensures IsWithinTimeWindow(subject, now, Some(t), settings)
            == IsWithinTimeWindow(subject, now, Some(t), other)
  {
  }

  /** Both ends of a non-empty widened window are accepted; one microsecond beyond either
      end is rejected. */
  lemma WindowBoundsInclusive(subject: Subject, now: Instant, t: int, settings: Settings)
    requires ScheduledOn(subject.daysOfWeek, DayCode(now.date))
    requires NoWrap(subject, t)
    requires subject.startTime.Micros() - MinutesMicros(t) <= subject.endTime.Micros() + MinutesMicros(t)
    ensures now.time.Micros() == subject.startTime.Micros() - MinutesMicros(t)
            ==> IsWithinTimeWindow(subject, now, Some(t), settings) == InWindow
    ensures now.time.Micros() == subject.endTime.Micros() + MinutesMicros(t)
            ==> IsWithinTimeWindow(subject, now, Some(t), settings) == InWindow
    ensures now.time.Micros() == subject.startTime.Micros() - MinutesMicros(t) - 1
            ==> IsWithinTimeWindow(subject, now, Some(t), settings) == OutsideClassTime
    ensures now.time.Micros() == subject.endTime.Micros() + MinutesMicros(t) + 1
            ==> IsWithinTimeWindow(subject, now, Some(t), settings) == OutsideClassTime
  {
    var x := now.time.Micros();
    var lo := subject.startTime.Micros() - MinutesMicros(t);
    var hi := subject.endTime.Micros() + MinutesMicros(t);
    var v := IsWithinTimeWindow(subject, now, Some(t), settings);
    assert v.InWindow? <==> lo <= x <= hi;
    assert !v.NotScheduled?;
  }

  /** Without a midnight wrap, a larger tolerance accepts every scan a smaller one does. */
  lemma ToleranceMonotone(subject: Subject, now: Instant, t1: int, t2: int, settings: Settings)
    requires t1 <= t2
    requires NoWrap(subject, t1) && NoWrap(subject, t2)
    requires IsWithinTimeWindow(subject, now, Some(t1), settings) == InWindow
    ensures IsWithinTimeWindow(subject, now, Some(t2), settings) == InWindow
  {
  }

  /** As written, a window that wraps past midnight rejects scans during the
      class itself: a class 00:05-01:00 with tolerance 15 becomes the empty
      range [23:50, 01:15] and a Monday scan at 00:30 is refused. */
  lemma MidnightWrapRejectsClassTime()
    ensures var subject := Subject(1, 7, "A", None, Items(["MON"]), Time(0, 5, 0, 0), Time(1, 0, 0, 0), []);
            var now := Instant(Date(2026, 10, 12), Time(0, 30, 0, 0));
            DayCode(now.date) == "MON"
            && IsWithinTimeWindow(subject, now, Some(15), DefaultSettings) == OutsideClassTime
  {
  }

  // ------------------------------------------------------------ notifications

  function AbsentOf(student: nat): Record -> bool {
    (r: Record) => r.student == student && r.status == Absent
  }

  /** The student's ABSENT records over all subjects and all dates. */
  function AbsenceCount(rs: seq<Record>, student: nat): nat {
    Count(rs, AbsentOf(student))
  }

  datatype NotifyResult = NotifyResult(db: Db, created: Option<Notification>)

  /** `trigger_parent_notification(record)`: reads the settings singleton
      (creating it if missing), then notifies only for ABSENT records — at once
      when auto-SMS is on, otherwise once the student's absence count reaches
      the threshold, with the threshold prefix. */
  function TriggerParentNotification(db: Db, record: Record): (res: NotifyResult)
    ensures res.db.records == db.records
    ensures res.db.settings == GetSettings(db.settings).0
    ensures record.status != Absent ==> res.created.None?
    ensures res.created.None? ==> res.db.notifications == db.notifications
    ensures res.created.Some? ==>
              && res.db.notifications == db.notifications + [res.created.value]
              && res.created.value.student == record.student
              && res.created.value.record == record.KeyOf()
              && res.created.value.status == Sent
    ensures var st := GetSettings(db.settings).1;
            record.status == Absent && st.enableAutoSms ==>
              res.created.Some? && res.created.value.prefix == NoPrefix
    ensures var st := GetSettings(db.settings).1;
            record.status == Absent && !st.enableAutoSms ==>
              && (res.created.Some? <==> AbsenceCount(db.records, record.student) >= st.absenceAlertThreshold)
              && (res.created.Some? ==> res.created.value.prefix == ThresholdPrefix(st.absenceAlertThreshold))
  {
    var (table, st) := GetSettings(db.settings);
    var db1 := db.(settings := table);
    if record.status != Absent then NotifyResult(db1, None)
    else
      var prefix :=
        if st.enableAutoSms then Some(NoPrefix)
        else if AbsenceCount(db.records, record.student) >= st.absenceAlertThreshold
        then Some(ThresholdPrefix(st.absenceAlertThreshold))
        else None;
      match prefix
      case None => NotifyResult(db1, None)
      case Some(p) =>
        var n := Notification(record.student, record.KeyOf(), p, Sent);
        NotifyResult(db1.(notifications := db.notifications + [n]), Some(n))
  }

  /** Because the threshold test is `>=`, once an absence notifies, any later
      state with at least as many absences notifies too. */
  lemma ThresholdKeepsNotifying(db: Db, later: Db, record: Record)
    requires later.settings == db.settings
    requires AbsenceCount(later.records, record.student) >= AbsenceCount(db.records, record.student)
    requires TriggerParentNotification(db, record).created.Some?
    ensures TriggerParentNotification(later, record).created.Some?
  {
  }

  // ------------------------------------------------------------ percentages

  /** `part / whole * 100`, or 0 for an empty whole. */
  function Percentage(part: nat, whole: nat): real {
    if whole == 0 then 0.0 else part as real / whole as real * 100.0
  }

  /** The percentage is the share of `part` in `whole`, scaled to 100, and lies
      in [0, 100] when the part is no larger than the whole. */
  lemma PercentageMeaning(part: nat, whole: nat)
    ensures whole == 0 ==> Percentage(part, whole) == 0.0
    ensures whole > 0 ==> Percentage(part, whole) * (whole as real) == (part as real) * 100.0
    ensures part <= whole ==> 0.0 <= Percentage(part, whole) <= 100.0
  {
    if whole > 0 {
      var q := part as real / whole as real;
      assert q * whole as real == part as real;
      assert part <= whole ==> q <= 1.0;
    }
  }

  /** The dictionary `calculate_attendance_percentage` returns; the
      percentage is derived from the counts. */
  datatype AttendanceStats = AttendanceStats(total: nat, present: nat, late: nat, absent: nat)
  {
    function Percent(): real {
      Percentage(present + late, total)
    }
  }

  /** The filters of `calculate_attendance_percentage`: a missing subject or
      date bound does not filter, and both date bounds are inclusive. */
  function StatsQuery(student: nat, subject: Option<nat>, dateFrom: Option<CivilDate>, dateTo: Option<CivilDate>): Record -> bool {
    (r: Record) =>
      && r.student == student
      && (subject.None? || r.subject == subject.value)
      && (dateFrom.None? || NotAfter(dateFrom.value, r.date))
      && (dateTo.None? || NotAfter(r.date, dateTo.value))
  }

  function QueryWithStatus(q: Record -> bool, s: string): Record -> bool {
    (r: Record) => q(r) && r.status == s
  }

  /** `calculate_attendance_percentage(student, subject, date_from, date_to)`:
      the student's records, narrowed by subject and by an inclusive date
      range when given, counted by status. */
  function CalculateAttendancePercentage(
    records: seq<Record>, student: nat, subject: Option<nat>,
    dateFrom: Option<CivilDate>, dateTo: Option<CivilDate>): (s: AttendanceStats)
    ensures var q := StatsQuery(student, subject, dateFrom, dateTo);
            && s.total == Count(records, q)
            && s.present == Count(records, QueryWithStatus(q, Present))
            && s.late == Count(records, QueryWithStatus(q, Late))
            && s.absent == Count(records, QueryWithStatus(q, Absent))
    ensures s.present + s.late + s.absent <= s.total
  {
    var q := StatsQuery(student, subject, dateFrom, dateTo);
    var rs := Filter(records, q);
    FilteredStatusCounts(records, q);
    var present := CountStatus(rs, Present);
    var late := CountStatus(rs, Late);
    AttendanceStats(|rs|, present, late, CountStatus(rs, Absent))
  }

  /** The reported percentage of counts that `CalculateAttendancePercentage`
      can return is the present-or-late share of the counted records, 0 when
      none match, and always within [0, 100]. */
  lemma StatsPercentMeaning(s: AttendanceStats)
    requires s.present + s.late + s.absent <= s.total
    ensures 0.0 <= s.Percent() <= 100.0
    ensures s.total == 0 ==> s.Percent() == 0.0
    ensures s.total > 0 ==> s.Percent() * (s.total as real) == ((s.present + s.late) as real) * 100.0
  {
    PercentageMeaning(s.present + s.late, s.total);
  }

  /** Counting a status among the filtered records is counting records that
      match the filter and carry that status; the three listed statuses never
      exceed the filtered total. */
  lemma FilteredStatusCounts(records: seq<Record>, q: Record -> bool)
    ensures CountStatus(Filter(records, q), Present) == Count(records, QueryWithStatus(q, Present))
    ensures CountStatus(Filter(records, q), Late) == Count(records, QueryWithStatus(q, Late))
    ensures CountStatus(Filter(records, q), Absent) == Count(records, QueryWithStatus(q, Absent))
    ensures CountStatus(Filter(records, q), Present) + CountStatus(Filter(records, q), Late)
            + CountStatus(Filter(records, q), Absent) <= |Filter(records, q)|
  {
    CountOfFilter(records, q, StatusIs(Present), QueryWithStatus(q, Present));
    CountOfFilter(records, q, StatusIs(Late), QueryWithStatus(q, Late));
    CountOfFilter(records, q, StatusIs(Absent), QueryWithStatus(q, Absent));
    StatusPartition(Filter(records, q));
  }

  /** The date filters are inclusive: a matching record dated on either bound
      is counted. */
  lemma DateBoundsInclusive(
    records: seq<Record>, r: Record, subject: Option<nat>, dateFrom: CivilDate, dateTo: CivilDate)
    requires subject.None? || r.subject == subject.value
    requires r.date == dateFrom || r.date == dateTo
    requires NotAfter(dateFrom, dateTo)
    ensures CalculateAttendancePercentage(records + [r], r.student, subject, Some(dateFrom), Some(dateTo)).total
            == CalculateAttendancePercentage(records, r.student, subject, Some(dateFrom), Some(dateTo)).total + 1
  {
    var q := StatsQuery(r.student, subject, Some(dateFrom), Some(dateTo));
    CountAppend(records, [r], q);
  }
}
