/** The student dashboard of attendance/views_student.py: the month range,
    the per-day status shown in the calendar grid and the month's statistics.
    The week layout of the month (`calendar.monthdayscalendar`) is supplied
    by the caller. */
module StudentView {
  import opened Basics
  import opened Calendar
  import opened Models
  import opened Utils

  /** The status a calendar day shows: "absent", "late", "present",
      "no_class" or "PENDING". */
  datatype DayStatus = DayAbsent | DayLate | DayPresent | NoClass | DayPending

  /** The month of `today`: from its first day to its last day, inclusive. */
  function MonthQuery(student: nat, today: CivilDate): Record -> bool {
    StatsQuery(student, None, Some(FirstOfMonth(today)), Some(LastOfMonth(today)))
  }

  /** The student's records of the current month. */
  function MonthRecords(records: seq<Record>, student: nat, today: CivilDate): seq<Record> {
    Filter(records, MonthQuery(student, today))
  }

  /** A date lies in the range `[first_day, last_day]` exactly when it falls
      in the same year and month as `today`. */
  lemma MonthRange(today: CivilDate, d: CivilDate)
    ensures NotAfter(FirstOfMonth(today), d) && NotAfter(d, LastOfMonth(today))
            <==> d.year == today.year && d.month == today.month
  {
    OrdinalOrderIsCalendarOrder(d, FirstOfMonth(today));
    OrdinalOrderIsCalendarOrder(LastOfMonth(today), d);
  }

  /** The day's status from the month's records, in the dashboard's priority
      order: any ABSENT record, else any LATE record, else any record at all;
      with no record the day is "no_class" when past and "PENDING" otherwise. */
  function DayStatusOf(month: seq<Record>, d: CivilDate, today: CivilDate): (st: DayStatus)
    ensures st == DayAbsent <==> exists r :: r in month && r.date == d && r.status == Absent
    ensures st == DayLate <==>
              && (forall r :: r in month && r.date == d ==> r.status != Absent)
              && (exists r :: r in month && r.date == d && r.status == Late)
    ensures st == DayPresent <==>
              && (exists r :: r in month && r.date == d)
              && (forall r :: r in month && r.date == d ==> r.status != Absent && r.status != Late)
    ensures st == NoClass <==> (forall r :: r in month ==> r.date != d) && Before(d, today)
    ensures st == DayPending <==> (forall r :: r in month ==> r.date != d) && !Before(d, today)
  {
    var day := Filter(month, OnDay(d));
    DayFacts(month, d);
    if |day| > 0 then
      if Count(day, StatusIs(Absent)) > 0 then DayAbsent
      else if Count(day, StatusIs(Late)) > 0 then DayLate
      else DayPresent
    else if Before(d, today) then NoClass
    else DayPending
  }

  /** What the day's records say, in terms of the month's records. */
  lemma DayFacts(month: seq<Record>, d: CivilDate)
    ensures |Filter(month, OnDay(d))| > 0 <==> exists r :: r in month && r.date == d
    ensures Count(Filter(month, OnDay(d)), StatusIs(Absent)) > 0
            <==> exists r :: r in month && r.date == d && r.status == Absent
    ensures Count(Filter(month, OnDay(d)), StatusIs(Late)) > 0
            <==> exists r :: r in month && r.date == d && r.status == Late
  {
    var day := Filter(month, OnDay(d));
    CountPositive(month, OnDay(d));
    CountPositive(day, StatusIs(Absent));
    CountPositive(day, StatusIs(Late));
  }

  /** Restricting to the month does not change which of the student's records
      fall on a day of that month. */
  lemma MonthDayRecords(records: seq<Record>, student: nat, today: CivilDate, d: CivilDate)
    requires d.year == today.year && d.month == today.month
    ensures forall r :: r in MonthRecords(records, student, today) && r.date == d
              <==> r in records && r.student == student && r.date == d
  {
    MonthRange(today, d);
  }

  /** A grid cell: padding for the days of neighbouring months, or a day of
      this month with its date, status and whether it is today. */
  datatype Cell = Padding | DayCell(day: int, date: CivilDate, status: DayStatus, isToday: bool)

  /** Week rows of day numbers as `monthdayscalendar` lays them out: 0 for
      padding, otherwise a day of the month. */
  predicate ValidLayout(weeks: seq<seq<int>>, today: CivilDate) {
    forall i, j :: 0 <= i < |weeks| && 0 <= j < |weeks[i]| ==>
      0 <= weeks[i][j] <= DaysInMonth(today.year, today.month)
  }

  function CellFor(month: seq<Record>, today: CivilDate, day: int): (c: Cell)
    requires 0 <= day <= DaysInMonth(today.year, today.month)
  {
    if day == 0 then Padding
    else
      var d: CivilDate := Date(today.year, today.month, day);
      DayCell(day, d, DayStatusOf(month, d, today), d == today)
  }

  /** The dashboard's `calendar_grid` for the given layout. */
  function CalendarGrid(records: seq<Record>, student: nat, today: CivilDate, weeks: seq<seq<int>>): (grid: seq<seq<Cell>>)
    requires ValidLayout(weeks, today)
    ensures |grid| == |weeks|
    ensures forall i :: 0 <= i < |weeks| ==> |grid[i]| == |weeks[i]|
    ensures forall i, j :: 0 <= i < |weeks| && 0 <= j < |weeks[i]| ==>
              (grid[i][j] == Padding <==> weeks[i][j] == 0)
    ensures forall i, j :: 0 <= i < |weeks| && 0 <= j < |weeks[i]| && weeks[i][j] != 0 ==>
              && grid[i][j].day == weeks[i][j]
              && grid[i][j].date == Date(today.year, today.month, weeks[i][j])
              && (grid[i][j].isToday <==> weeks[i][j] == today.day)
              && grid[i][j].status == DayStatusOf(MonthRecords(records, student, today), grid[i][j].date, today)
  {
    var month := MonthRecords(records, student, today);
    seq(|weeks|, i requires 0 <= i < |weeks| =>
      seq(|weeks[i]|, j requires 0 <= j < |weeks[i]| => CellFor(month, today, weeks[i][j])))
  }

  /** A day of this month shows "absent" exactly when the student has an
      ABSENT record on it, whatever else is recorded that day. */
  lemma AbsentDayWins(records: seq<Record>, student: nat, today: CivilDate, d: CivilDate)
    requires d.year == today.year && d.month == today.month
    ensures DayStatusOf(MonthRecords(records, student, today), d, today) == DayAbsent
            <==> exists r :: r in records && r.student == student && r.date == d && r.status == Absent
  {
    MonthDayRecords(records, student, today, d);
  }

  /** Today and later days without a record show "PENDING"; earlier days
      without one show "no_class". */
  lemma EmptyDayByDate(records: seq<Record>, student: nat, today: CivilDate, d: CivilDate)
    requires d.year == today.year && d.month == today.month
    requires forall r :: r in records && r.student == student ==> r.date != d
    ensures DayStatusOf(MonthRecords(records, student, today), d, today)
            == (if Before(d, today) then NoClass else DayPending)
  {
    MonthDayRecords(records, student, today, d);
  }

  datatype MonthStats = MonthStats(perSubject: seq<AttendanceStats>, overall: AttendanceStats)

  function Enrolls(student: nat): Subject -> bool {
    (s: Subject) => student in s.students
  }

  /** `student_profile.subjects.all()`: the subjects whose roster holds the
      student, in the school's order. */
  function EnrolledSubjects(school: School, student: nat): (mine: seq<Subject>)
    ensures |mine| == Count(school.subjects, Enrolls(student))
    ensures forall s :: s in mine <==> s in school.subjects && student in s.students
  {
    Filter(school.subjects, Enrolls(student))
  }

  /** The per-subject statistics of the student's subjects and the overall
      statistics, both over `[first_day, last_day]`. */
  function StudentMonthStats(records: seq<Record>, school: School, student: nat, today: CivilDate): (m: MonthStats)
    ensures |m.perSubject| == |EnrolledSubjects(school, student)|
    ensures forall i :: 0 <= i < |m.perSubject| ==>
              m.perSubject[i] == CalculateAttendancePercentage(
                records, student, Some(EnrolledSubjects(school, student)[i].id),
                Some(FirstOfMonth(today)), Some(LastOfMonth(today)))
    ensures m.overall == CalculateAttendancePercentage(
              records, student, None, Some(FirstOfMonth(today)), Some(LastOfMonth(today)))
  {
    var first := FirstOfMonth(today);
    var last := LastOfMonth(today);
    var subjects := EnrolledSubjects(school, student);
    MonthStats(
      seq(|subjects|, i requires 0 <= i < |subjects| =>
        CalculateAttendancePercentage(records, student, Some(subjects[i].id), Some(first), Some(last))),
      CalculateAttendancePercentage(records, student, None, Some(first), Some(last)))
  }

  function InCalendarMonth(student: nat, today: CivilDate): Record -> bool {
    (r: Record) => r.student == student && r.date.year == today.year && r.date.month == today.month
  }

  /** The overall figures count exactly the student's records dated in the
      calendar month of `today`. */
  lemma OverallCountsCalendarMonth(records: seq<Record>, school: School, student: nat, today: CivilDate)
    ensures StudentMonthStats(records, school, student, today).overall.total
            == Count(records, InCalendarMonth(student, today))
  {
    var q := StatsQuery(student, None, Some(FirstOfMonth(today)), Some(LastOfMonth(today)));
    forall i | 0 <= i < |records| ensures q(records[i]) == InCalendarMonth(student, today)(records[i]) {
      MonthRange(today, records[i].date);
    }
    CountSame(records, q, InCalendarMonth(student, today));
  }
}
