/** The teacher views of attendance/views_teacher.py: the manual mark (an
    upsert on the per-day key followed by the notification rule), the
    classroom roster with today's statuses, and the dashboard's weekly
    status counts. */
module Teacher {
  import opened Basics
  import opened Calendar
  import opened Models
  import opened Utils

  // ------------------------------------------------------------ manual mark

  /** The record at the key after `update_or_create`: the existing one with
      status and method replaced, or a new one with the field defaults for
      everything else. */
  function Upsert(rs: seq<Record>, k: Key, status: string): (res: (seq<Record>, Record))
    ensures res.1.KeyOf() == k && res.1.status == status && res.1.scanMethod == Manual
    ensures res.1 in res.0
    ensures |res.0| == |rs| || res.0 == rs + [res.1]
    ensures |res.0| == |rs| + 1 <==> !HasKey(rs, k)
    ensures forall j :: 0 <= j < |rs| && rs[j].KeyOf() != k ==> res.0[j] == rs[j]
    ensures forall j :: 0 <= j < |rs| && rs[j].KeyOf() == k && FindIndex(rs, KeyIs(k)) != Some(j) ==> res.0[j] == rs[j]
    // an existing record keeps every other field; a new one has the field defaults
    ensures forall i :: 0 <= i < |rs| && rs[i].KeyOf() == k && (forall j :: 0 <= j < i ==> rs[j].KeyOf() != k) ==>
              res.1 == rs[i].(status := status, scanMethod := Manual) && res.0 == rs[i := res.1]
    ensures !HasKey(rs, k) ==> res.1 == NewRecord(k).(status := status, scanMethod := Manual) && res.0 == rs + [res.1]
  {
    match FindIndex(rs, KeyIs(k))
    case Some(i) =>
      var r := rs[i].(status := status, scanMethod := Manual);
      assert rs[i := r][i] == r;
      (rs[i := r], r)
    case None =>
      var r := NewRecord(k).(status := status, scanMethod := Manual);
      (rs + [r], r)
  }

  /** Under the uniqueness constraint an upsert leaves exactly one record at
      the key, keeps keys unique, and touches no record of another key. */
  lemma UpsertKeepsOneRecord(rs: seq<Record>, k: Key, status: string)
    requires UniqueKeys(rs)
    ensures var (rs', r) := Upsert(rs, k, status);
            && UniqueKeys(rs')
            && Count(rs', KeyIs(k)) == 1
            && forall j :: 0 <= j < |rs'| && rs'[j].KeyOf() == k ==> rs'[j] == r
  {
    var (rs', r) := Upsert(rs, k, status);
    match FindIndex(rs, KeyIs(k))
    case Some(i) =>
      assert rs' == rs[i := r];
      forall a, b | 0 <= a < |rs'| && 0 <= b < |rs'| && rs'[a].KeyOf() == rs'[b].KeyOf()
        ensures a == b
      {
        assert rs'[a].KeyOf() == rs[a].KeyOf() && rs'[b].KeyOf() == rs[b].KeyOf();
      }
      forall j | 0 <= j < |rs'| && rs'[j].KeyOf() == k ensures rs'[j] == r {
        assert rs[j].KeyOf() == rs[i].KeyOf();
      }
      CountUpdate(rs, i, r, KeyIs(k));
      UniqueKeysAtMostOne(rs, k);
      assert KeyIs(k)(rs[i]);
    case None =>
      assert rs' == rs + [r];
      forall a, b | 0 <= a < |rs'| && 0 <= b < |rs'| && rs'[a].KeyOf() == rs'[b].KeyOf()
        ensures a == b
      {
        if a < |rs| && b < |rs| {
          assert rs'[a] == rs[a] && rs'[b] == rs[b];
        }
      }
      CountAppend(rs, [r], KeyIs(k));
      assert Count([r], KeyIs(k)) == 1 by {
        assert [r][1..] == [];
      }
  }

  /** Repeating a manual mark with the same status changes nothing more. */
  lemma UpsertIdempotent(rs: seq<Record>, k: Key, status: string)
    ensures var once := Upsert(rs, k, status);
            Upsert(once.0, k, status) == (once.0, once.1)
  {
    var (rs', r) := Upsert(rs, k, status);
    match FindIndex(rs, KeyIs(k))
    case Some(i) =>
      assert forall j :: 0 <= j < i ==> rs'[j] == rs[j];
      FindIndexIsFirst(rs', KeyIs(k), i);
      assert rs'[i].(status := status, scanMethod := Manual) == rs'[i];
      assert rs'[i := rs'[i]] == rs';
    case None =>
      assert forall j :: 0 <= j < |rs| ==> rs'[j] == rs[j];
      FindIndexIsFirst(rs', KeyIs(k), |rs|);
      assert rs'[|rs|].(status := status, scanMethod := Manual) == rs'[|rs|];
      assert rs'[|rs| := rs'[|rs|]] == rs';
  }

  /** `FindIndex` returns the first position that satisfies the predicate. */
  lemma FindIndexIsFirst<T>(xs: seq<T>, p: T -> bool, i: nat)
    requires i < |xs| && p(xs[i])
    requires forall j :: 0 <= j < i ==> !p(xs[j])
    ensures FindIndex(xs, p) == Some(i)
  {
    var r := FindIndex(xs, p);
    assert r.Some?;
  }

  /** The POST fields of the manual form, or a GET request. */
  datatype ManualRequest = Get | Post(studentId: Option<int>, status: Option<string>)

  /** Why a request ends in a server error: `redirect` read before it is bound
      (it is imported locally only at the end of the POST branch), or a
      missing status reaching the non-null column. */
  datatype Crash = UnboundRedirect | NullStatus

  datatype ManualOutcome =
    | Marked(record: Record, notification: Option<Notification>)
    | SubjectNotFound
    | StudentNotFound
    | ServerError(cause: Crash)

  datatype ManualResult = ManualResult(db: Db, outcome: ManualOutcome)

  /** `get_object_or_404(Subject, id=subject_id, teacher=request.user)`. */
  function OwnedSubject(school: School, teacher: nat, subjectId: int): (r: Option<Subject>)
    ensures r.Some? ==> r.value in school.subjects && r.value.id == subjectId && r.value.teacher == Some(teacher)
    ensures r.None? <==> forall s :: s in school.subjects ==> !(s.id == subjectId && s.teacher == Some(teacher))
  {
    Find(school.subjects, (s: Subject) => s.id == subjectId && s.teacher == Some(teacher))
  }

  /** `mark_manual_attendance` for the signed-in teacher on date `today`. */
  function MarkManualAttendance(db: Db, school: School, teacher: nat, subjectId: int, req: ManualRequest, today: CivilDate): (res: ManualResult)
    ensures !res.outcome.Marked? ==> res.db == db
    ensures req.Get? ==> res.outcome == ServerError(UnboundRedirect)
    ensures req.Post? ==>
              && (res.outcome == SubjectNotFound <==> OwnedSubject(school, teacher, subjectId).None?)
              && (res.outcome == StudentNotFound <==>
                    OwnedSubject(school, teacher, subjectId).Some?
                    && (req.studentId.None? || StudentById(school, req.studentId.value).None?))
    ensures req.Post? && OwnedSubject(school, teacher, subjectId).Some?
            && req.studentId.Some? && StudentById(school, req.studentId.value).Some? ==>
              var subject := OwnedSubject(school, teacher, subjectId).value;
              var student := StudentById(school, req.studentId.value).value;
              var k := Key(student.id, subject.id, today);
              && (res.outcome == ServerError(UnboundRedirect) <==> !Enrolled(subject, student.id))
              && (res.outcome == ServerError(NullStatus) <==> Enrolled(subject, student.id) && req.status.None?)
              && (res.outcome.Marked? <==> Enrolled(subject, student.id) && req.status.Some?)
              && (res.outcome.Marked? ==>
                    var saved := Upsert(db.records, k, req.status.value);
                    && res.db.records == saved.0
                    && res.outcome.record == saved.1
                    && (req.status.value != Absent ==>
                          res.outcome.notification.None? && res.db.notifications == db.notifications
                          && res.db.settings == db.settings)
                    && (req.status.value == Absent ==>
                          var n := TriggerParentNotification(db.(records := saved.0), saved.1);
                          res.db == n.db && res.outcome.notification == n.created))
  {
    match req
    case Get => ManualResult(db, ServerError(UnboundRedirect))
    case Post(studentId, status) =>
      match OwnedSubject(school, teacher, subjectId)
      case None => ManualResult(db, SubjectNotFound)
      case Some(subject) =>
        var student := if studentId.None? then None else StudentById(school, studentId.value);
        match student
        case None => ManualResult(db, StudentNotFound)
        case Some(st) =>
          if !Enrolled(subject, st.id) then ManualResult(db, ServerError(UnboundRedirect))
          else if status.None? then ManualResult(db, ServerError(NullStatus))
          else
            var (rs, r) := Upsert(db.records, Key(st.id, subject.id, today), status.value);
            var db1 := db.(records := rs);
            if status.value == Absent then
              var n := TriggerParentNotification(db1, r);
              ManualResult(n.db, Marked(r, n.created))
            else ManualResult(db1, Marked(r, None))
  }

  /** The notification rule runs after the save: with auto-SMS off, a manual
      ABSENT mark notifies exactly when the student's absences, this one
      included, reach the threshold. */
  lemma ManualAbsenceCountsItself(db: Db, school: School, teacher: nat, subjectId: int, sid: int, today: CivilDate)
    requires UniqueKeys(db.records)
    requires !GetSettings(db.settings).1.enableAutoSms
    requires MarkManualAttendance(db, school, teacher, subjectId, Post(Some(sid), Some(Absent)), today).outcome.Marked?
    ensures var res := MarkManualAttendance(db, school, teacher, subjectId, Post(Some(sid), Some(Absent)), today);
            var st := GetSettings(db.settings).1;
            && AbsenceCount(res.db.records, res.outcome.record.student) >= 1
            && (res.outcome.notification.Some? <==>
                  AbsenceCount(res.db.records, res.outcome.record.student) >= st.absenceAlertThreshold)
            && (res.outcome.notification.Some? ==>
                  res.outcome.notification.value.prefix == ThresholdPrefix(st.absenceAlertThreshold))
  {
    var res := MarkManualAttendance(db, school, teacher, subjectId, Post(Some(sid), Some(Absent)), today);
    var r := res.outcome.record;
    var rs := res.db.records;
    assert r in rs;
    var i :| 0 <= i < |rs| && rs[i] == r;
    assert AbsentOf(r.student)(rs[i]);
  }

  /** A manual ABSENT mark on a new key that brings the student's count from
      one below the threshold to the threshold notifies, even with auto-SMS
      off; a first-time mark below it does not. */
  lemma ManualAbsenceReachesThreshold(db: Db, school: School, teacher: nat, subjectId: int, sid: int, today: CivilDate)
    requires UniqueKeys(db.records)
    requires !GetSettings(db.settings).1.enableAutoSms
    requires MarkManualAttendance(db, school, teacher, subjectId, Post(Some(sid), Some(Absent)), today).outcome.Marked?
    requires !HasKey(db.records, MarkManualAttendance(db, school, teacher, subjectId, Post(Some(sid), Some(Absent)), today).outcome.record.KeyOf())
    ensures var res := MarkManualAttendance(db, school, teacher, subjectId, Post(Some(sid), Some(Absent)), today);
            var st := GetSettings(db.settings).1;
            res.outcome.notification.Some? <==>
              AbsenceCount(db.records, res.outcome.record.student) + 1 >= st.absenceAlertThreshold
  {
    var res := MarkManualAttendance(db, school, teacher, subjectId, Post(Some(sid), Some(Absent)), today);
    var r := res.outcome.record;
    assert res.db.records == db.records + [r];
    CountAppend(db.records, [r], AbsentOf(r.student));
    assert Count([r], AbsentOf(r.student)) == 1 by {
      assert [r][1..] == [];
    }
  }

  // ------------------------------------------------------------ classroom view

  const Pending: string := "PENDING"

  /** One roster line: the enrolled student and the status shown for today. */
  datatype RosterRow = RosterRow(student: nat, status: string)

  function TodayOf(subjectId: nat, today: CivilDate): Record -> bool {
    (r: Record) => r.subject == subjectId && r.date == today
  }

  /** A student's status in the roster: their record today, else PENDING. */
  function RosterStatus(records: seq<Record>, subjectId: nat, today: CivilDate, student: nat): (s: string)
    ensures !HasKey(records, Key(student, subjectId, today)) ==> s == Pending
    ensures UniqueKeys(records) ==>
              forall r :: r in records && r.KeyOf() == Key(student, subjectId, today) ==> s == r.status
  {
    match FindIndex(records, KeyIs(Key(student, subjectId, today)))
    case None => Pending
    case Some(i) =>
      assert forall j :: 0 <= j < |records| && records[j].KeyOf() == records[i].KeyOf() && UniqueKeys(records) ==> j == i;
      records[i].status
  }

  datatype Classroom = Classroom(
    rows: seq<RosterRow>,
    total: nat,
    present: nat,
    late: nat,
    absent: nat,
    pending: nat)
  {
    /** `(present + late) / total * 100`, or 0 for an empty roster. */
    function Percent(): real {
      Percentage(present + late, total)
    }
  }

  function RowStatusIs(s: string): RosterRow -> bool {
    (row: RosterRow) => row.status == s
  }

  /** `classroom_view` for the subject on date `today`. */
  function ClassroomView(records: seq<Record>, subject: Subject, today: CivilDate): (c: Classroom)
    ensures |c.rows| == c.total == |subject.students|
    ensures forall i :: 0 <= i < |c.rows| ==>
              && c.rows[i].student == subject.students[i]
              && c.rows[i].status == RosterStatus(records, subject.id, today, subject.students[i])
    ensures c.present == Count(c.rows, RowStatusIs(Present))
    ensures c.late == Count(c.rows, RowStatusIs(Late))
    ensures c.absent == Count(c.rows, RowStatusIs(Absent))
    ensures c.pending == Count(c.rows, RowStatusIs(Pending))
  {
    var rows := seq(|subject.students|, i requires 0 <= i < |subject.students| =>
                      RosterRow(subject.students[i], RosterStatus(records, subject.id, today, subject.students[i])));
    Classroom(rows, |rows|,
              Count(rows, RowStatusIs(Present)), Count(rows, RowStatusIs(Late)),
              Count(rows, RowStatusIs(Absent)), Count(rows, RowStatusIs(Pending)))
  }

  function OtherRowStatus(): RosterRow -> bool {
    (row: RosterRow) => !(ListedStatus(row.status) || row.status == Pending)
  }

  lemma {:induction false} RowStatusPartition(rows: seq<RosterRow>)
    ensures Count(rows, RowStatusIs(Present)) + Count(rows, RowStatusIs(Late))
            + Count(rows, RowStatusIs(Absent)) + Count(rows, RowStatusIs(Pending))
            + Count(rows, OtherRowStatus()) == |rows|
  {
    if |rows| > 0 {
      RowStatusPartition(rows[1..]);
    }
  }

  lemma RowCountsAddUp(rows: seq<RosterRow>)
    ensures Count(rows, RowStatusIs(Present)) + Count(rows, RowStatusIs(Late))
            + Count(rows, RowStatusIs(Absent)) + Count(rows, RowStatusIs(Pending)) <= |rows|
    ensures Count(rows, RowStatusIs(Present)) + Count(rows, RowStatusIs(Late))
            + Count(rows, RowStatusIs(Absent)) + Count(rows, RowStatusIs(Pending)) == |rows|
            <==> forall i :: 0 <= i < |rows| ==> ListedStatus(rows[i].status) || rows[i].status == Pending
  {
    RowStatusPartition(rows);
    assert (forall i :: 0 <= i < |rows| ==> ListedStatus(rows[i].status) || rows[i].status == Pending)
           <==> (forall i :: 0 <= i < |rows| ==> !OtherRowStatus()(rows[i]));
  }

  /** The four counts add up to the roster size exactly when no roster line
      shows a status other than PRESENT, LATE, ABSENT or PENDING — which a
      manual mark with any other text can produce. */
  lemma ClassroomCountsAddUp(records: seq<Record>, subject: Subject, today: CivilDate)
    ensures var c := ClassroomView(records, subject, today);
            c.present + c.late + c.absent + c.pending <= c.total
    ensures var c := ClassroomView(records, subject, today);
            c.present + c.late + c.absent + c.pending == c.total
            <==> forall i :: 0 <= i < |c.rows| ==> ListedStatus(c.rows[i].status) || c.rows[i].status == Pending
  {
    var c := ClassroomView(records, subject, today);
    RowCountsAddUp(c.rows);
  }

  /** For counts the classroom view can produce (see `ClassroomCountsAddUp`),
      the percentage is 0 for an empty roster and otherwise the
      present-or-late share of the roster, within [0, 100]. */
  lemma ClassroomPercent(c: Classroom)
    requires c.present + c.late + c.absent + c.pending <= c.total
    ensures c.total == 0 ==> c.Percent() == 0.0
    ensures c.total > 0 ==> c.Percent() * (c.total as real) == ((c.present + c.late) as real) * 100.0
    ensures 0.0 <= c.Percent() <= 100.0
  {
    PercentageMeaning(c.present + c.late, c.total);
  }

  // ------------------------------------------------------------ dashboard

  /** Records of the subject dated from the week's Monday up to today. */
  function InWeek(subjectId: nat, today: CivilDate): Record -> bool {
    (r: Record) => r.subject == subjectId && NotAfter(WeekStart(today), r.date) && NotAfter(r.date, today)
  }

  function InWeekWithStatus(subjectId: nat, today: CivilDate, s: string): Record -> bool {
    (r: Record) => InWeek(subjectId, today)(r) && r.status == s
  }

  const DefaultWeekKeys: set<string> := {Present, Late, Absent}

  /** `week_stats`: the three listed statuses start at 0, and every status
      occurring among the week's records is set to its count. */
  function WeekStats(records: seq<Record>, subjectId: nat, today: CivilDate): (stats: map<string, nat>)
    ensures stats.Keys == DefaultWeekKeys + set r | r in records && InWeek(subjectId, today)(r) :: r.status
    ensures forall s :: s in stats ==> stats[s] == Count(records, InWeekWithStatus(subjectId, today, s))
  {
    var week := Filter(records, InWeek(subjectId, today));
    var keys := DefaultWeekKeys + set r | r in week :: r.status;
    WeekFacts(records, subjectId, today);
    map s | s in keys :: CountStatus(week, s)
  }

  lemma WeekFacts(records: seq<Record>, subjectId: nat, today: CivilDate)
    ensures var week := Filter(records, InWeek(subjectId, today));
            && (set r | r in week :: r.status) == (set r | r in records && InWeek(subjectId, today)(r) :: r.status)
            && forall s :: CountStatus(week, s) == Count(records, InWeekWithStatus(subjectId, today, s))
  {
    var q := InWeek(subjectId, today);
    var week := Filter(records, q);
    forall s ensures CountStatus(week, s) == Count(records, InWeekWithStatus(subjectId, today, s)) {
      CountOfFilter(records, q, StatusIs(s), InWeekWithStatus(subjectId, today, s));
    }
  }

  /** Recording one more record in the week raises the count of its status
      by one (a status the map did not list starts from zero) and leaves every
      other count as it was. */
  lemma WeekStatsAfterRecord(records: seq<Record>, subjectId: nat, today: CivilDate, r: Record)
    requires InWeek(subjectId, today)(r)
    ensures var before := WeekStats(records, subjectId, today);
            var after := WeekStats(records + [r], subjectId, today);
            && r.status in after
            && after[r.status] == (if r.status in before then before[r.status] else 0) + 1
            && forall s :: s in before && s != r.status ==> s in after && after[s] == before[s]
  {
    var before := WeekStats(records, subjectId, today);
    var after := WeekStats(records + [r], subjectId, today);
    assert r in records + [r];
    forall s | s in before || s == r.status
      ensures Count(records + [r], InWeekWithStatus(subjectId, today, s))
              == Count(records, InWeekWithStatus(subjectId, today, s)) + (if s == r.status then 1 else 0)
    {
      CountAppend(records, [r], InWeekWithStatus(subjectId, today, s));
      assert [r][1..] == [];
    }
    if r.status !in before {
      assert r.status !in DefaultWeekKeys;
      assert Count(records, InWeekWithStatus(subjectId, today, r.status)) == 0 by {
        forall i | 0 <= i < |records| ensures !InWeekWithStatus(subjectId, today, r.status)(records[i]) {
          assert records[i] in records;
        }
      }
    }
    forall s | s in before && s != r.status ensures s in after {
      if s !in DefaultWeekKeys {
        var x :| x in records && InWeek(subjectId, today)(x) && x.status == s;
        assert x in records + [r];
      }
    }
  }

  /** The dashboard card of one subject. */
  datatype SubjectCard = SubjectCard(subject: nat, totalStudents: nat, todayAttendance: nat, weekStats: map<string, nat>)

  /** One dashboard card: the subject's roster size, today's records and the
      week's status counts. */
  function CardFor(records: seq<Record>, subject: Subject, today: CivilDate): SubjectCard {
    SubjectCard(subject.id, |subject.students|, Count(records, TodayOf(subject.id, today)), WeekStats(records, subject.id, today))
  }

  function TeachesIt(teacher: nat): Subject -> bool {
    (s: Subject) => s.teacher == Some(teacher)
  }

  /** `Subject.objects.filter(teacher=request.user)`: the teacher's subjects
      in the school's order. */
  function SubjectsOf(school: School, teacher: nat): (mine: seq<Subject>)
    ensures |mine| == Count(school.subjects, TeachesIt(teacher))
    ensures forall s :: s in mine <==> s in school.subjects && s.teacher == Some(teacher)
  {
    Filter(school.subjects, TeachesIt(teacher))
  }

  /** `teacher_dashboard`: one card per subject the teacher is assigned. */
  function TeacherDashboard(school: School, records: seq<Record>, teacher: nat, today: CivilDate): (cards: seq<SubjectCard>)
    ensures |cards| == |SubjectsOf(school, teacher)|
    ensures forall i :: 0 <= i < |cards| ==> cards[i] == CardFor(records, SubjectsOf(school, teacher)[i], today)
  {
    var mine := SubjectsOf(school, teacher);
    seq(|mine|, i requires 0 <= i < |mine| => CardFor(records, mine[i], today))
  }
}
