/** The entities of attendance/models.py: users' roles, student profiles,
    subjects with their schedule, attendance records, parent notifications and
    the school-settings singleton, plus the database state they live in. */
module Models {
  import opened Basics
  import opened Calendar

  // ------------------------------------------------------------ users

  datatype Role = SuperAdminRole | PrincipalRole | TeacherRole | StudentRole

  // ------------------------------------------------------------ student profiles

  /** Grade levels offered (`GRADE_LEVEL_CHOICES`). */
  const GradeLevelChoices: seq<int> := [7, 8, 9, 10, 11, 12]

  datatype Student = Student(
    id: nat,
    uuid: string,
    gradeLevel: int,
    section: string,
    strand: Option<string>,
    parentName: string)

  /** Python truthiness of an optional text field: None and "" are false. */
  predicate Blank(o: Option<string>) {
    o.None? || o.value == ""
  }

  datatype ProfileError = StrandRequired

  /** `StudentProfile.save`: grades 11 and 12 must name a strand; the profile
      is stored unchanged otherwise. */
  function SaveProfile(p: Student): (r: Result<Student, ProfileError>)
    ensures r.Err? <==> (p.gradeLevel == 11 || p.gradeLevel == 12) && Blank(p.strand)
    ensures r.Ok? ==> r.value == p
  {
    if p.gradeLevel in {11, 12} && Blank(p.strand) then Err(StrandRequired) else Ok(p)
  }

  /** Junior-high grades save with or without a strand; senior-high grades save
      exactly when a strand is given. */
  lemma StrandRuleByGrade(p: Student)
    requires p.gradeLevel in GradeLevelChoices
    ensures p.gradeLevel <= 10 ==> SaveProfile(p).Ok?
    ensures p.gradeLevel >= 11 ==> (SaveProfile(p).Ok? <==> !Blank(p.strand))
  {
  }

  // ------------------------------------------------------------ subjects

  /** A JSON value stored in `days_of_week`: normally a list of day codes,
      but the field accepts a bare string as well. */
  datatype DaysValue = Text(text: string) | Items(items: seq<string>)

  /** Python's `in` on a string is the substring test. */
  predicate IsSubstring(needle: string, hay: string)
    decreases |hay|
  {
    if |needle| > |hay| then false
    else if hay[..|needle|] == needle then true
    else IsSubstring(needle, hay[1..])
  }

  /** `code in days_of_week` for either shape of the JSON value. */
  predicate ScheduledOn(days: DaysValue, code: string) {
    match days
    case Items(xs) => code in xs
    case Text(s) => IsSubstring(code, s)
  }

  /** The ids of a subject's enrolled students: a many-to-many relation holds
      each student at most once. */
  type Roster = ids: seq<nat> | forall i, j :: 0 <= i < j < |ids| ==> ids[i] != ids[j] witness []

  datatype Subject = Subject(
    id: nat,
    gradeLevel: int,
    section: string,
    teacher: Option<nat>,
    daysOfWeek: DaysValue,
    startTime: TimeOfDay,
    endTime: TimeOfDay,
    students: Roster)

  /** The subject's grade-level validators (`MinValueValidator(7)`,
      `MaxValueValidator(12)`). */
  predicate SubjectGradeValid(g: int) {
    7 <= g <= 12
  }

  /** The validators admit exactly the grade levels of the choices list. */
  lemma SubjectGradeMatchesChoices(g: int)
    ensures SubjectGradeValid(g) <==> g in GradeLevelChoices
  {
    if SubjectGradeValid(g) {
      assert GradeLevelChoices[g - 7] == g;
    }
  }

  /** The choices list runs in increasing grade order. */
  lemma GradeChoicesIncreasing()
    ensures Increasing(GradeLevelChoices)
  {
    assert forall i :: 0 <= i < |GradeLevelChoices| ==> GradeLevelChoices[i] == i + 7;
  }

  predicate Enrolled(subject: Subject, studentId: nat) {
    studentId in subject.students
  }

  datatype School = School(students: seq<Student>, subjects: seq<Subject>)

  /** `StudentProfile.objects.get(uuid_code=...)`. */
  function StudentByUuid(school: School, uuid: string): (r: Option<Student>)
    ensures r.Some? ==> r.value in school.students && r.value.uuid == uuid
    ensures r.None? ==> forall s :: s in school.students ==> s.uuid != uuid
  {
    Find(school.students, (s: Student) => s.uuid == uuid)
  }

  /** `StudentProfile.objects.get(id=...)`. */
  function StudentById(school: School, id: int): (r: Option<Student>)
    ensures r.Some? ==> r.value in school.students && r.value.id == id
    ensures r.None? ==> forall s :: s in school.students ==> s.id != id
  {
    Find(school.students, (s: Student) => s.id == id)
  }

  /** `Subject.objects.get(id=...)`. */
  function SubjectById(school: School, id: int): (r: Option<Subject>)
    ensures r.Some? ==> r.value in school.subjects && r.value.id == id
    ensures r.None? ==> forall s :: s in school.subjects ==> s.id != id
  {
    Find(school.subjects, (s: Subject) => s.id == id)
  }

  // ------------------------------------------------------------ attendance records

  /** Status codes are stored as text; the field's choices are not enforced
      when a record is saved, so any text can occur. */
  const Present: string := "PRESENT"
  const Late: string := "LATE"
  const Absent: string := "ABSENT"

  predicate ListedStatus(s: string) {
    s == Present || s == Late || s == Absent
  }

  datatype ScanMethod = QR | Manual

  /** The per-day uniqueness key (`unique_together`). */
  datatype Key = Key(student: nat, subject: nat, date: CivilDate)

  datatype Record = Record(
    student: nat,
    subject: nat,
    date: CivilDate,
    status: string,
    scanMethod: ScanMethod,
    location: Option<string>)
  {
    function KeyOf(): Key {
      Key(student, subject, date)
    }
  }

  /** A new record with the model's field defaults. */
  function NewRecord(k: Key): (r: Record)
    ensures r.KeyOf() == k
    ensures r.status == Present && r.scanMethod == QR && r.location == None
  {
    Record(k.student, k.subject, k.date, Present, QR, None)
  }

  /** True when the table already holds a record under the key. */
  predicate HasKey(rs: seq<Record>, k: Key) {
    exists i :: 0 <= i < |rs| && rs[i].KeyOf() == k
  }

  /** `filter(date=d)`. */
  function OnDay(d: CivilDate): Record -> bool {
    (r: Record) => r.date == d
  }

  function KeyIs(k: Key): Record -> bool {
    (r: Record) => r.KeyOf() == k
  }

  function StatusIs(s: string): Record -> bool {
    (r: Record) => r.status == s
  }

  function UnlistedStatus(): Record -> bool {
    (r: Record) => !ListedStatus(r.status)
  }

  function CountStatus(rs: seq<Record>, s: string): nat {
    Count(rs, StatusIs(s))
  }

  /** The `unique_together` constraint on a table of records. */
  predicate UniqueKeys(rs: seq<Record>) {
    forall i, j :: 0 <= i < |rs| && 0 <= j < |rs| && rs[i].KeyOf() == rs[j].KeyOf() ==> i == j
  }

  /** Under the constraint, each key is held by at most one record. */
  lemma {:induction false} UniqueKeysAtMostOne(rs: seq<Record>, k: Key)
    requires UniqueKeys(rs)
    ensures Count(rs, KeyIs(k)) <= 1
  {
    if |rs| > 0 {
      assert UniqueKeys(rs[1..]) by {
        forall i, j | 0 <= i < |rs[1..]| && 0 <= j < |rs[1..]| && rs[1..][i].KeyOf() == rs[1..][j].KeyOf()
          ensures i == j
        {
          assert rs[i + 1].KeyOf() == rs[j + 1].KeyOf();
        }
      }
      UniqueKeysAtMostOne(rs[1..], k);
      if rs[0].KeyOf() == k {
        forall i | 0 <= i < |rs[1..]| ensures !KeyIs(k)(rs[1..][i]) {
          assert rs[i + 1] == rs[1..][i];
        }
      }
    }
  }

  /** Every record carries exactly one of the three listed statuses or another text. */
  lemma {:induction false} StatusPartition(rs: seq<Record>)
    ensures CountStatus(rs, Present) + CountStatus(rs, Late) + CountStatus(rs, Absent)
            + Count(rs, UnlistedStatus()) == |rs|
  {
    if |rs| > 0 {
      StatusPartition(rs[1..]);
    }
  }

  // ------------------------------------------------------------ notifications

  datatype Prefix = NoPrefix | ThresholdPrefix(threshold: int)

  datatype DeliveryStatus = Pending | Sent | Failed

  /** A parent notification; its message body is reduced to the prefix it carries. */
  datatype Notification = Notification(student: nat, record: Key, prefix: Prefix, status: DeliveryStatus)

  // ------------------------------------------------------------ settings

  datatype Settings = Settings(
    schoolName: string,
    absenceAlertThreshold: int,
    enableAutoSms: bool,
    scanToleranceMinutes: int)

  /** The field defaults of `SchoolSettings`. */
  const DefaultSettings: Settings := Settings("ScholarScan Academy", 3, true, 15)

  const SettingsId: nat := 1

  /** `SchoolSettings.get_settings()`: `get_or_create(id=1)` on the settings
      table; the row is created with the defaults when missing. */
  function GetSettings(table: map<nat, Settings>): (res: (map<nat, Settings>, Settings))
    ensures SettingsId in res.0 && res.0[SettingsId] == res.1
    ensures res.0.Keys == table.Keys + {SettingsId}
    ensures forall id :: id in table ==> res.0[id] == table[id]
    ensures SettingsId !in table ==> res.1 == DefaultSettings
  {
    if SettingsId in table then (table, table[SettingsId])
    else (table[SettingsId := DefaultSettings], DefaultSettings)
  }

  /** A second call finds the row the first one returned or created. */
  lemma GetSettingsIdempotent(table: map<nat, Settings>)
    ensures GetSettings(GetSettings(table).0) == GetSettings(table)
  {
  }

  lemma DefaultSettingsValues()
    ensures DefaultSettings.absenceAlertThreshold == 3
    ensures DefaultSettings.enableAutoSms
    ensures DefaultSettings.scanToleranceMinutes == 15
  {
  }

  // ------------------------------------------------------------ database state

  datatype Db = Db(records: seq<Record>, notifications: seq<Notification>, settings: map<nat, Settings>)
}
