/** The QR scan endpoint `verify_scan` of attendance/views_scan.py: a fixed
    sequence of checks on the posted body, the PRESENT/LATE classification and
    the insert that the per-day uniqueness constraint may refuse. The signed
    token is checked by an oracle standing for `verify_qr_data`. */
module Scan {
  import opened Basics
  import opened Calendar
  import opened Models
  import opened Utils

  /** The posted body after `json.loads`: `Malformed` when decoding fails,
      otherwise the three keys read with `data.get` (absent keys are `None`). */
  datatype Body = Malformed | Fields(uuid: Option<string>, subjectId: Option<int>, location: Option<string>)

  datatype ScanOutcome =
    | Recorded(record: Record)
    | InvalidJson
    | MissingFields
    | InvalidToken
    | StudentNotFound
    | SubjectNotFound
    | NotEnrolled
    | OutsideWindow(verdict: WindowVerdict)
    | AlreadyMarked

  /** The HTTP status code each outcome is answered with. */
  function HttpStatus(o: ScanOutcome): (code: int)
    ensures code == 200 <==> o.Recorded?
    ensures code == 400 <==> o == InvalidJson || o == MissingFields
    ensures code == 404 <==> o == StudentNotFound || o == SubjectNotFound
    ensures code == 409 <==> o == AlreadyMarked
    ensures code == 403 <==> o == InvalidToken || o == NotEnrolled || o.OutsideWindow?
  {
    match o
    case Recorded(_) => 200
    case InvalidJson => 400
    case MissingFields => 400
    case InvalidToken => 403
    case StudentNotFound => 404
    case SubjectNotFound => 404
    case NotEnrolled => 403
    case OutsideWindow(_) => 403
    case AlreadyMarked => 409
  }

  /** Both required keys are present and truthy: a non-empty uuid text and a
      non-zero subject id. */
  predicate FieldsPresent(body: Body) {
    body.Fields? && !Blank(body.uuid) && body.subjectId.Some? && body.subjectId.value != 0
  }

  /** The uuid the oracle recovers from a token, when it recovers a truthy one. */
  function TokenUuid(token: string, verify: string -> Option<string>): (u: Option<string>)
    ensures u.Some? <==> verify(token).Some? && verify(token).value != ""
    ensures u.Some? ==> u.value == verify(token).value
  {
    match verify(token)
    case Some(v) => if v == "" then None else Some(v)
    case None => None
  }

  /** The status a scan at `now` earns for a class starting at `start`: LATE
      when more than ten whole minutes past the start minute, else PRESENT. */
  function ClassifyScan(now: TimeOfDay, start: TimeOfDay): (status: string)
    ensures status == Present || status == Late
  {
    var diff := now.MinuteOfDay() - start.MinuteOfDay();
    if diff > 10 then Late else Present
  }

  datatype ScanResult = ScanResult(db: Db, outcome: ScanOutcome)

  /** `verify_scan` for a request arriving at `now`. */
  function VerifyScan(db: Db, school: School, body: Body, verify: string -> Option<string>, now: Instant): (res: ScanResult)
    // the scan path never notifies, and only a recorded scan adds a record
    ensures res.db.notifications == db.notifications
    ensures !res.outcome.Recorded? ==> res.db.records == db.records
    ensures UniqueKeys(db.records) ==> UniqueKeys(res.db.records)
    // the checks, in order
    ensures res.outcome == InvalidJson <==> body.Malformed?
    ensures res.outcome == MissingFields <==> body.Fields? && !FieldsPresent(body)
    ensures res.outcome == InvalidToken <==>
              FieldsPresent(body) && TokenUuid(body.uuid.value, verify).None?
    ensures res.outcome == StudentNotFound <==>
              && FieldsPresent(body)
              && TokenUuid(body.uuid.value, verify).Some?
              && StudentByUuid(school, TokenUuid(body.uuid.value, verify).value).None?
    ensures res.outcome == SubjectNotFound <==>
              && FieldsPresent(body)
              && TokenUuid(body.uuid.value, verify).Some?
              && StudentByUuid(school, TokenUuid(body.uuid.value, verify).value).Some?
              && SubjectById(school, body.subjectId.value).None?
    ensures res.outcome.NotEnrolled? || res.outcome.OutsideWindow? || res.outcome.AlreadyMarked?
            || res.outcome.Recorded? ==>
              && FieldsPresent(body)
              && TokenUuid(body.uuid.value, verify).Some?
              && StudentByUuid(school, TokenUuid(body.uuid.value, verify).value).Some?
              && SubjectById(school, body.subjectId.value).Some?
    ensures FieldsPresent(body)
            && TokenUuid(body.uuid.value, verify).Some?
            && StudentByUuid(school, TokenUuid(body.uuid.value, verify).value).Some?
            && SubjectById(school, body.subjectId.value).Some? ==>
              var student := StudentByUuid(school, TokenUuid(body.uuid.value, verify).value).value;
              var subject := SubjectById(school, body.subjectId.value).value;
              var verdict := IsWithinTimeWindow(subject, now, None, GetSettings(db.settings).1);
              var k := Key(student.id, subject.id, now.date);
              && (res.outcome == NotEnrolled <==> !Enrolled(subject, student.id))
              && (res.outcome.OutsideWindow? <==> Enrolled(subject, student.id) && verdict != InWindow)
              && (res.outcome.OutsideWindow? ==> res.outcome.verdict == verdict)
              && (res.outcome == AlreadyMarked <==>
                    Enrolled(subject, student.id) && verdict == InWindow && HasKey(db.records, k))
              && (res.outcome.Recorded? <==>
                    Enrolled(subject, student.id) && verdict == InWindow && !HasKey(db.records, k))
              && (res.outcome.Recorded? ==>
                    && res.outcome.record.KeyOf() == k
                    && res.outcome.record.status == ClassifyScan(now.time, subject.startTime)
                    && res.outcome.record.scanMethod == QR
                    && res.outcome.record.location == body.location
                    && res.db.records == db.records + [res.outcome.record])
    // the settings row is read (and possibly created) only once the enrolment check passed
    ensures res.outcome.OutsideWindow? || res.outcome.AlreadyMarked? || res.outcome.Recorded? ==>
              res.db.settings == GetSettings(db.settings).0
    ensures !(res.outcome.OutsideWindow? || res.outcome.AlreadyMarked? || res.outcome.Recorded?) ==>
              res.db.settings == db.settings
  {
    if body.Malformed? then ScanResult(db, InvalidJson)
    else if !FieldsPresent(body) then ScanResult(db, MissingFields)
    else
      match TokenUuid(body.uuid.value, verify)
      case None => ScanResult(db, InvalidToken)
      case Some(actual) =>
        match StudentByUuid(school, actual)
        case None => ScanResult(db, StudentNotFound)
        case Some(student) =>
          match SubjectById(school, body.subjectId.value)
          case None => ScanResult(db, SubjectNotFound)
          case Some(subject) =>
            if !Enrolled(subject, student.id) then ScanResult(db, NotEnrolled)
            else
              var (table, settings) := GetSettings(db.settings);
              var db1 := db.(settings := table);
              var verdict := IsWithinTimeWindow(subject, now, None, settings);
              if verdict != InWindow then ScanResult(db1, OutsideWindow(verdict))
              else
                var status := ClassifyScan(now.time, subject.startTime);
                var k := Key(student.id, subject.id, now.date);
                if HasKey(db.records, k) then ScanResult(db1, AlreadyMarked)
                else
                  var r := Record(student.id, subject.id, now.date, status, QR, body.location);
                  AppendPreservesUniqueKeys(db.records, r);
                  ScanResult(db1.(records := db.records + [r]), Recorded(r))
  }

  /** Appending a record whose key is not yet taken keeps keys unique. */
  lemma AppendPreservesUniqueKeys(rs: seq<Record>, r: Record)
    requires !HasKey(rs, r.KeyOf())
    ensures UniqueKeys(rs) ==> UniqueKeys(rs + [r])
  {
    if UniqueKeys(rs) {
      var t := rs + [r];
      forall i, j | 0 <= i < |t| && 0 <= j < |t| && t[i].KeyOf() == t[j].KeyOf()
        ensures i == j
      {
        if i < |rs| && j < |rs| {
          assert rs[i] == t[i] && rs[j] == t[j];
        }
      }
    }
  }

  /** LATE exactly from the start of the eleventh minute after the start
      minute: seconds of either time do not matter. */
  lemma LateRule(now: TimeOfDay, start: TimeOfDay)
    ensures ClassifyScan(now, start) == Late <==> now.Micros() >= MinutesMicros(start.MinuteOfDay() + 11)
    ensures ClassifyScan(now, start) != Absent
  {
    MicrosRange(now);
    var m := now.MinuteOfDay();
    var s := start.MinuteOfDay() + 11;
    if m >= s {
      MinutesMonotone(s, m);
    } else {
      MinutesMonotone(m + 1, s);
    }
  }

  lemma MinutesMonotone(a: int, b: int)
    requires a <= b
    ensures MinutesMicros(a) <= MinutesMicros(b)
  {
  }

  /** A scan exactly ten minutes after the start minute is still PRESENT, and
      an early scan is PRESENT. */
  lemma TenMinutesIsPresent(now: TimeOfDay, start: TimeOfDay)
    requires now.MinuteOfDay() <= start.MinuteOfDay() + 10
    ensures ClassifyScan(now, start) == Present
  {
  }

  /** Once a scan is recorded, a second scan of the same token for the same
      subject on the same day records nothing and leaves the table as it was;
      inside the window it is refused as already marked. */
  lemma SecondScanSameDay(db: Db, school: School, body: Body, verify: string -> Option<string>, now: Instant, later: Instant)
    requires VerifyScan(db, school, body, verify, now).outcome.Recorded?
    requires later.date == now.date
    ensures var first := VerifyScan(db, school, body, verify, now);
            var second := VerifyScan(first.db, school, body, verify, later);
            && !second.outcome.Recorded?
            && second.db.records == first.db.records
            && (second.outcome == AlreadyMarked || second.outcome.OutsideWindow?)
  {
    var first := VerifyScan(db, school, body, verify, now);
    var r := first.outcome.record;
    assert first.db.records[|db.records|] == r;
    assert HasKey(first.db.records, r.KeyOf());
  }

  /** A sequence of scans, each arriving at its own instant. */
  function RunScans(db: Db, school: School, verify: string -> Option<string>, scans: seq<(Body, Instant)>): (d: Db)
    ensures UniqueKeys(db.records) ==> UniqueKeys(d.records)
    ensures d.notifications == db.notifications
    ensures |db.records| <= |d.records| <= |db.records| + |scans|
    ensures db.records <= d.records
    decreases |scans|
  {
    if |scans| == 0 then db
    else
      var next := VerifyScan(db, school, scans[0].0, verify, scans[0].1).db;
      RunScans(next, school, verify, scans[1..])
  }

  // ------------------------------------------------------------ a worked schedule

  /** One student enrolled in a Monday/Wednesday/Friday class from 08:00 to
      09:00; the oracle accepts the token "tok" for the student's uuid. */
  function DemoSchool(): School {
    School([Student(1, "u1", 8, "A", None, "P")],
           [Subject(5, 8, "A", Some(9), Items(["MON", "WED", "FRI"]), Time(8, 0, 0, 0), Time(9, 0, 0, 0), [1])])
  }

  function DemoOracle(): string -> Option<string> {
    (t: string) => if t == "tok" then Some("u1") else None
  }

  const DemoBody: Body := Fields(Some("tok"), Some(5), None)

  lemma DemoLookups()
    ensures TokenUuid("tok", DemoOracle()) == Some("u1")
    ensures StudentByUuid(DemoSchool(), "u1") == Some(DemoSchool().students[0])
    ensures SubjectById(DemoSchool(), 5) == Some(DemoSchool().subjects[0])
  {
  }

  /** With the default tolerance of 15 minutes, a Monday scan at 07:46 is
      recorded PRESENT. */
  lemma EarlyScanIsPresent(now: Instant)
    requires now == Instant(Date(2026, 10, 12), Time(7, 46, 0, 0))
    ensures var r := VerifyScan(Db([], [], map[]), DemoSchool(), DemoBody, DemoOracle(), now);
            r.outcome.Recorded? && r.outcome.record.status == Present
  {
    DemoLookups();
    assert DayCode(now.date) == "MON";
  }

  /** A Monday scan at 08:12 is recorded LATE. */
  lemma ScanAfterTenMinutesIsLate(now: Instant)
    requires now == Instant(Date(2026, 10, 12), Time(8, 12, 0, 0))
    ensures var r := VerifyScan(Db([], [], map[]), DemoSchool(), DemoBody, DemoOracle(), now);
            r.outcome.Recorded? && r.outcome.record.status == Late
  {
    DemoLookups();
    assert DayCode(now.date) == "MON";
  }

  /** On a Tuesday the scan is refused because the class is not scheduled. */
  lemma TuesdayScanIsRefused(now: Instant)
    requires now == Instant(Date(2026, 10, 13), Time(8, 30, 0, 0))
    ensures var r := VerifyScan(Db([], [], map[]), DemoSchool(), DemoBody, DemoOracle(), now);
            r.outcome == OutsideWindow(NotScheduled("TUE")) && HttpStatus(r.outcome) == 403
  {
    DemoLookups();
    assert DayCode(now.date) == "TUE";
  }
}
