/** The school-wide analytics of `principal_dashboard` in
    attendance/views_principal.py: today's figures, the absence-rate heatmap
    by grade, the five sections with the most absences this month, and the
    trend from this week's Monday to today. */
module PrincipalView {
  import opened Basics
  import opened Calendar
  import opened Models
  import opened Utils

  // ------------------------------------------------------------ today

  function OnDayWith(d: CivilDate, s: string): Record -> bool {
    (r: Record) => r.date == d && r.status == s
  }

  /** PRESENT or LATE on the day: both count as present. */
  function AttendedOn(d: CivilDate): Record -> bool {
    (r: Record) => r.date == d && (r.status == Present || r.status == Late)
  }

  datatype TodayStats = TodayStats(present: nat, absent: nat, total: nat)
  {
    /** `today_present / today_total * 100`, or 0 without records. */
    function Percent(): real {
      Percentage(present, total)
    }
  }

  function TodayFigures(records: seq<Record>, today: CivilDate): (t: TodayStats)
    ensures t.total == Count(records, OnDay(today))
    ensures t.present == Count(records, OnDayWith(today, Present)) + Count(records, OnDayWith(today, Late))
    ensures t.absent == Count(records, OnDayWith(today, Absent))
    ensures t.present + t.absent <= t.total
  {
    CountUnion(records, OnDayWith(today, Present), OnDayWith(today, Late), AttendedOn(today));
    CountDisjoint(records, AttendedOn(today), OnDayWith(today, Absent));
    CountMonotone(records, AttendedOn(today), OnDay(today));
    CountMonotone(records, OnDayWith(today, Absent), OnDay(today));
    DisjointWithin(records, AttendedOn(today), OnDayWith(today, Absent), OnDay(today));
    TodayStats(Count(records, AttendedOn(today)), Count(records, OnDayWith(today, Absent)), Count(records, OnDay(today)))
  }

  /** Two exclusive predicates that both imply a third count no more than it. */
  lemma {:induction false} DisjointWithin<T>(xs: seq<T>, p: T -> bool, q: T -> bool, r: T -> bool)
    requires forall x :: !(p(x) && q(x))
    requires forall x :: p(x) ==> r(x)
    requires forall x :: q(x) ==> r(x)
    ensures Count(xs, p) + Count(xs, q) <= Count(xs, r)
  {
    if |xs| > 0 {
      DisjointWithin(xs[1..], p, q, r);
    }
  }

  /** Today's percentage is 0 without records and otherwise the
      present-or-late share of today's records, within [0, 100]. */
  lemma TodayPercent(t: TodayStats)
    requires t.present + t.absent <= t.total
    ensures t.total == 0 ==> t.Percent() == 0.0
    ensures t.total > 0 ==> t.Percent() * (t.total as real) == (t.present as real) * 100.0
    ensures 0.0 <= t.Percent() <= 100.0
  {
    PercentageMeaning(t.present, t.total);
  }

  // ------------------------------------------------------------ heatmap

  /** The record's student is in the grade (`student__grade_level=grade`). */
  predicate RecordInGrade(school: School, r: Record, grade: int) {
    var s := StudentById(school, r.student);
    s.Some? && s.value.gradeLevel == grade
  }

  /** Records of the grade dated from the first of the month up to today. */
  function GradeMonth(school: School, grade: int, today: CivilDate): Record -> bool {
    (r: Record) => RecordInGrade(school, r, grade) && NotAfter(FirstOfMonth(today), r.date) && NotAfter(r.date, today)
  }

  function GradeMonthAbsent(school: School, grade: int, today: CivilDate): Record -> bool {
    (r: Record) => GradeMonth(school, grade, today)(r) && r.status == Absent
  }

  function StudentInGrade(grade: int): Student -> bool {
    (s: Student) => s.gradeLevel == grade
  }

  datatype HeatCell = HeatCell(grade: int, totalStudents: nat, totalRecords: nat, absences: nat)
  {
    /** `absent_records / total_records * 100`, or 0 without records. */
    function AbsenceRate(): real {
      Percentage(absences, totalRecords)
    }
  }

  function GradeCell(school: School, records: seq<Record>, grade: int, today: CivilDate): (c: HeatCell)
    ensures c.grade == grade
    ensures c.totalStudents == Count(school.students, StudentInGrade(grade))
    ensures c.totalRecords == Count(records, GradeMonth(school, grade, today))
    ensures c.absences == Count(records, GradeMonthAbsent(school, grade, today))
    ensures c.absences <= c.totalRecords
  {
    CountMonotone(records, GradeMonthAbsent(school, grade, today), GradeMonth(school, grade, today));
    HeatCell(grade, Count(school.students, StudentInGrade(grade)),
             Count(records, GradeMonth(school, grade, today)),
             Count(records, GradeMonthAbsent(school, grade, today)))
  }

  function HasStudents(school: School, grade: int): bool {
    Count(school.students, StudentInGrade(grade)) > 0
  }

  function HasStudentsIn(school: School): int -> bool {
    (g: int) => HasStudents(school, g)
  }

  /** The heatmap's rows: the grades from 7 to 12 that have students, in
      increasing order. */
  function HeatGrades(school: School): (gs: seq<int>)
    ensures Increasing(gs)
    ensures forall i :: 0 <= i < |gs| ==> SubjectGradeValid(gs[i]) && HasStudents(school, gs[i])
    ensures forall g :: 7 <= g <= 12 && HasStudents(school, g) ==> g in gs
  {
    var gs := Filter(GradeLevelChoices, HasStudentsIn(school));
    GradeChoicesIncreasing();
    FilterIncreasing(GradeLevelChoices, HasStudentsIn(school));
    forall i | 0 <= i < |gs| ensures SubjectGradeValid(gs[i]) && HasStudents(school, gs[i]) {
      assert gs[i] in gs;
      SubjectGradeMatchesChoices(gs[i]);
    }
    forall g | 7 <= g <= 12 && HasStudents(school, g) ensures g in gs {
      SubjectGradeMatchesChoices(g);
      assert HasStudentsIn(school)(g);
    }
    gs
  }

  /** `heatmap_data`: one cell per grade with students. */
  function Heatmap(school: School, records: seq<Record>, today: CivilDate): (cells: seq<HeatCell>)
    ensures |cells| == |HeatGrades(school)|
    ensures forall i :: 0 <= i < |cells| ==>
              && cells[i] == GradeCell(school, records, HeatGrades(school)[i], today)
              && cells[i].totalStudents > 0
    ensures forall i, j :: 0 <= i < j < |cells| ==> cells[i].grade < cells[j].grade
  {
    CellsFor(school, records, today, HeatGrades(school))
  }

  /** One cell per grade of `gs`, in the same order. */
  function CellsFor(school: School, records: seq<Record>, today: CivilDate, gs: seq<int>): (cells: seq<HeatCell>)
    ensures |cells| == |gs|
    ensures forall i :: 0 <= i < |gs| ==> cells[i] == GradeCell(school, records, gs[i], today)
  {
    seq(|gs|, i requires 0 <= i < |gs| => GradeCell(school, records, gs[i], today))
  }

  /** A grade's absence rate is the absent share of its month records. */
  lemma AbsenceRateMeaning(c: HeatCell)
    requires c.absences <= c.totalRecords
    ensures c.totalRecords == 0 ==> c.AbsenceRate() == 0.0
    ensures c.totalRecords > 0 ==> c.AbsenceRate() * (c.totalRecords as real) == (c.absences as real) * 100.0
    ensures 0.0 <= c.AbsenceRate() <= 100.0
  {
    PercentageMeaning(c.absences, c.totalRecords);
  }

  // ------------------------------------------------------------ top sections

  datatype SectionKey = SectionKey(grade: int, section: string)

  datatype SectionCount = SectionCount(key: SectionKey, count: nat)

  /** The (grade, section) of the record's student. */
  function SectionOf(school: School, r: Record): Option<SectionKey> {
    match StudentById(school, r.student)
    case Some(s) => Some(SectionKey(s.gradeLevel, s.section))
    case None => None
  }

  /** An ABSENT record dated on or after the first of the month; there is no
      upper date bound. */
  function MonthAbsence(school: School, monthStart: CivilDate): Record -> bool {
    (r: Record) => r.status == Absent && NotAfter(monthStart, r.date) && SectionOf(school, r).Some?
  }

  function AbsenceOfSection(school: School, monthStart: CivilDate, k: SectionKey): Record -> bool {
    (r: Record) => MonthAbsence(school, monthStart)(r) && SectionOf(school, r) == Some(k)
  }

  /** `absence_count` of a section group. */
  function SectionAbsences(school: School, records: seq<Record>, monthStart: CivilDate, k: SectionKey): nat {
    Count(records, AbsenceOfSection(school, monthStart, k))
  }

  /** The elements of `xs` without repeats, each at its first occurrence. */
  function Distinct(xs: seq<SectionKey>): (d: seq<SectionKey>)
    ensures forall x :: x in d <==> x in xs
    ensures forall i, j :: 0 <= i < j < |d| ==> d[i] != d[j]
  {
    if |xs| == 0 then []
    else
      var d := Distinct(xs[..|xs| - 1]);
      assert forall x :: x in xs <==> x in xs[..|xs| - 1] || x == xs[|xs| - 1];
      if xs[|xs| - 1] in d then d else d + [xs[|xs| - 1]]
  }

  /** The section keys of the month's absences. */
  function AbsentSections(school: School, rs: seq<Record>, monthStart: CivilDate): (ks: seq<SectionKey>)
    ensures forall k :: k in ks <==> exists r :: r in rs && AbsenceOfSection(school, monthStart, k)(r)
  {
    if |rs| == 0 then []
    else
      var rest := AbsentSections(school, rs[1..], monthStart);
      assert forall r :: r in rs <==> r == rs[0] || r in rs[1..];
      if MonthAbsence(school, monthStart)(rs[0]) then
        var k0 := SectionOf(school, rs[0]).value;
        assert AbsenceOfSection(school, monthStart, k0)(rs[0]);
        forall k ensures k in [k0] + rest <==> exists r :: r in rs && AbsenceOfSection(school, monthStart, k)(r) {
          if k == k0 {
            assert rs[0] in rs;
          }
        }
        [k0] + rest
      else rest
  }

  /** The `values(...).annotate(absence_count=...)` groups. */
  function SectionGroups(school: School, records: seq<Record>, monthStart: CivilDate): (gs: seq<SectionCount>)
    ensures forall i :: 0 <= i < |gs| ==> gs[i].count == SectionAbsences(school, records, monthStart, gs[i].key) && gs[i].count > 0
    ensures forall i, j :: 0 <= i < j < |gs| ==> gs[i].key != gs[j].key
    ensures forall k :: SectionAbsences(school, records, monthStart, k) > 0 ==> exists i :: 0 <= i < |gs| && gs[i].key == k
  {
    var keys := Distinct(AbsentSections(school, records, monthStart));
    var gs := seq(|keys|, i requires 0 <= i < |keys| => SectionCount(keys[i], SectionAbsences(school, records, monthStart, keys[i])));
    GroupsCover(school, records, monthStart, keys, gs);
    gs
  }

  /** Each key of an absence has a positive count, and every key with a
      positive count is among the absences' keys. */
  lemma GroupsCover(school: School, records: seq<Record>, monthStart: CivilDate, keys: seq<SectionKey>, gs: seq<SectionCount>)
    requires forall k :: k in keys <==> exists r :: r in records && AbsenceOfSection(school, monthStart, k)(r)
    requires |gs| == |keys|
    requires forall i :: 0 <= i < |gs| ==> gs[i] == SectionCount(keys[i], SectionAbsences(school, records, monthStart, keys[i]))
    ensures forall i :: 0 <= i < |gs| ==> gs[i].count > 0
    ensures forall k :: SectionAbsences(school, records, monthStart, k) > 0 ==> exists i :: 0 <= i < |gs| && gs[i].key == k
  {
    forall i | 0 <= i < |gs| ensures gs[i].count > 0 {
      assert keys[i] in keys;
      var r :| r in records && AbsenceOfSection(school, monthStart, keys[i])(r);
      var j :| 0 <= j < |records| && records[j] == r;
    }
    forall k | SectionAbsences(school, records, monthStart, k) > 0 ensures exists i :: 0 <= i < |gs| && gs[i].key == k {
      var j :| 0 <= j < |records| && AbsenceOfSection(school, monthStart, k)(records[j]);
      assert records[j] in records;
      assert k in keys;
      var i :| 0 <= i < |keys| && keys[i] == k;
      assert gs[i].key == k;
    }
  }

  predicate SortedDesc(s: seq<SectionCount>) {
    forall i, j :: 0 <= i < j < |s| ==> s[i].count >= s[j].count
  }

  /** Inserts `x` after every element whose count is at least its own. */
  function InsertDesc(x: SectionCount, s: seq<SectionCount>): (r: seq<SectionCount>)
    requires SortedDesc(s)
    ensures SortedDesc(r)
    ensures multiset(r) == multiset(s) + multiset{x}
  {
    if |s| == 0 then [x]
    else if s[0].count >= x.count then
      var tail := InsertDesc(x, s[1..]);
      ConsSorted(s, x, tail);
      [s[0]] + tail
    else
      [x] + s
  }

  /** Keeping the head of a sorted sequence in front of the insertion into
      its tail keeps the order and the elements. */
  lemma ConsSorted(s: seq<SectionCount>, x: SectionCount, tail: seq<SectionCount>)
    requires |s| > 0 && SortedDesc(s) && s[0].count >= x.count
    requires SortedDesc(tail) && multiset(tail) == multiset(s[1..]) + multiset{x}
    ensures SortedDesc([s[0]] + tail)
    ensures multiset([s[0]] + tail) == multiset(s) + multiset{x}
  {
    assert s == [s[0]] + s[1..];
    forall e | e in tail ensures s[0].count >= e.count {
      assert e in multiset(tail);
      if e != x {
        assert e in multiset(s[1..]);
        var k :| 0 <= k < |s[1..]| && s[1..][k] == e;
        assert s[k + 1] == e;
      }
    }
    var r := [s[0]] + tail;
    forall i, j | 0 <= i < j < |r| ensures r[i].count >= r[j].count {
      assert r[j] == tail[j - 1];
      assert tail[j - 1] in tail;
      if i > 0 {
        assert r[i] == tail[i - 1];
      }
    }
  }

  /** `order_by("-absence_count")`: a stable sort by decreasing count. */
  function SortDesc(s: seq<SectionCount>): (r: seq<SectionCount>)
    ensures SortedDesc(r)
    ensures multiset(r) == multiset(s)
  {
    if |s| == 0 then []
    else
      assert s == s[..|s| - 1] + [s[|s| - 1]];
      InsertDesc(s[|s| - 1], SortDesc(s[..|s| - 1]))
  }

  /** The month's section groups ordered by decreasing absence count. */
  function RankedSections(school: School, records: seq<Record>, monthStart: CivilDate): (sorted: seq<SectionCount>)
    ensures SortedDesc(sorted)
    ensures forall i :: 0 <= i < |sorted| ==>
              sorted[i].count == SectionAbsences(school, records, monthStart, sorted[i].key) && sorted[i].count > 0
    ensures forall i, j :: 0 <= i < j < |sorted| ==> sorted[i].key != sorted[j].key
    ensures forall k :: SectionAbsences(school, records, monthStart, k) > 0 ==> exists i :: 0 <= i < |sorted| && sorted[i].key == k
  {
    var groups := SectionGroups(school, records, monthStart);
    var sorted := SortDesc(groups);
    SortedGroupsFacts(groups, sorted);
    RankedFacts(school, records, monthStart, groups, sorted);
    sorted
  }

  /** Sorting keeps the groups' counts and the sections they cover. */
  lemma RankedFacts(school: School, records: seq<Record>, monthStart: CivilDate, groups: seq<SectionCount>, sorted: seq<SectionCount>)
    requires forall i :: 0 <= i < |groups| ==>
               groups[i].count == SectionAbsences(school, records, monthStart, groups[i].key) && groups[i].count > 0
    requires forall k :: SectionAbsences(school, records, monthStart, k) > 0 ==> exists i :: 0 <= i < |groups| && groups[i].key == k
    requires forall e :: e in sorted <==> e in groups
    ensures forall i :: 0 <= i < |sorted| ==>
              sorted[i].count == SectionAbsences(school, records, monthStart, sorted[i].key) && sorted[i].count > 0
    ensures forall k :: SectionAbsences(school, records, monthStart, k) > 0 ==> exists i :: 0 <= i < |sorted| && sorted[i].key == k
  {
    forall i | 0 <= i < |sorted|
      ensures sorted[i].count == SectionAbsences(school, records, monthStart, sorted[i].key) && sorted[i].count > 0
    {
      assert sorted[i] in sorted;
      var g :| 0 <= g < |groups| && groups[g] == sorted[i];
    }
    forall k | SectionAbsences(school, records, monthStart, k) > 0 ensures exists i :: 0 <= i < |sorted| && sorted[i].key == k {
      var g :| 0 <= g < |groups| && groups[g].key == k;
      assert groups[g] in groups;
      var i :| 0 <= i < |sorted| && sorted[i] == groups[g];
    }
  }

  const TopCount: nat := 5

  /** `top_sections`: the first five groups by decreasing absence count. */
  function TopSections(school: School, records: seq<Record>, today: CivilDate): (top: seq<SectionCount>)
    ensures |top| <= TopCount
    ensures SortedDesc(top)
    ensures forall i :: 0 <= i < |top| ==>
              top[i].count == SectionAbsences(school, records, FirstOfMonth(today), top[i].key) && top[i].count > 0
    ensures forall i, j :: 0 <= i < j < |top| ==> top[i].key != top[j].key
    ensures top == Take(RankedSections(school, records, FirstOfMonth(today)), TopCount)
  {
    var sorted := RankedSections(school, records, FirstOfMonth(today));
    TopFacts(school, records, FirstOfMonth(today), sorted);
    Take(sorted, TopCount)
  }

  /** The first five ranked groups keep their counts, order and distinct
      keys. */
  lemma TopFacts(school: School, records: seq<Record>, monthStart: CivilDate, sorted: seq<SectionCount>)
    requires forall i :: 0 <= i < |sorted| ==>
               sorted[i].count == SectionAbsences(school, records, monthStart, sorted[i].key) && sorted[i].count > 0
    requires SortedDesc(sorted)
    requires forall i, j :: 0 <= i < j < |sorted| ==> sorted[i].key != sorted[j].key
    ensures |Take(sorted, TopCount)| <= TopCount
    ensures SortedDesc(Take(sorted, TopCount))
    ensures forall i :: 0 <= i < |Take(sorted, TopCount)| ==>
              && Take(sorted, TopCount)[i].count == SectionAbsences(school, records, monthStart, Take(sorted, TopCount)[i].key)
              && Take(sorted, TopCount)[i].count > 0
    ensures forall i, j :: 0 <= i < j < |Take(sorted, TopCount)| ==> Take(sorted, TopCount)[i].key != Take(sorted, TopCount)[j].key
  {
    TakeFacts(sorted, TopCount);
  }

  /** The first `n` elements, or all of them when there are fewer. */
  function Take(s: seq<SectionCount>, n: nat): seq<SectionCount> {
    if |s| <= n then s else s[..n]
  }

  lemma TakeFacts(s: seq<SectionCount>, n: nat)
    ensures |Take(s, n)| == if |s| <= n then |s| else n
    ensures forall i :: 0 <= i < |Take(s, n)| ==> Take(s, n)[i] == s[i]
    ensures SortedDesc(s) ==> SortedDesc(Take(s, n))
    ensures (forall i, j :: 0 <= i < j < |s| ==> s[i].key != s[j].key) ==>
              forall i, j :: 0 <= i < j < |Take(s, n)| ==> Take(s, n)[i].key != Take(s, n)[j].key
  {
  }

  /** Sorting keeps each group's entry, so the sorted groups inherit the
      groups' counts and distinct keys. */
  lemma SortedGroupsFacts(groups: seq<SectionCount>, sorted: seq<SectionCount>)
    requires multiset(sorted) == multiset(groups)
    requires forall i, j :: 0 <= i < j < |groups| ==> groups[i].key != groups[j].key
    ensures forall e :: e in sorted <==> e in groups
    ensures forall i, j :: 0 <= i < j < |sorted| ==> sorted[i].key != sorted[j].key
  {
    forall e ensures e in sorted <==> e in groups {
      assert e in sorted <==> e in multiset(sorted);
      assert e in groups <==> e in multiset(groups);
    }
    forall i, j | 0 <= i < j < |sorted| ensures sorted[i].key != sorted[j].key {
      var a := sorted[i];
      assert a in groups;
      var p :| 0 <= p < |groups| && groups[p] == a;
      MultisetUniqueCount(groups, p);
      if sorted[i].key == sorted[j].key {
        assert sorted[j] in groups;
        var q :| 0 <= q < |groups| && groups[q] == sorted[j];
        TwiceInMultiset(sorted, i, j);
      }
    }
  }

  /** An element found at two positions occurs at least twice. */
  lemma TwiceInMultiset(s: seq<SectionCount>, i: nat, j: nat)
    requires i < j < |s| && s[i] == s[j]
    ensures multiset(s)[s[i]] >= 2
  {
    var m := s[..j];
    assert s == m + s[j..];
    assert s[i] in m by { assert m[i] == s[i]; }
    assert multiset(s) == multiset(m) + multiset(s[j..]);
    assert s[j..][0] == s[i];
  }

  /** In a sequence with distinct keys, the entry at `p` occurs once. */
  lemma {:induction false} MultisetUniqueCount(s: seq<SectionCount>, p: nat)
    requires p < |s|
    requires forall i, j :: 0 <= i < j < |s| ==> s[i].key != s[j].key
    ensures multiset(s)[s[p]] == 1
  {
    var x := s[p];
    var pre, post := s[..p], s[p + 1..];
    assert s == pre + [x] + post;
    forall k | 0 <= k < |pre| ensures pre[k] != x {
      assert pre[k] == s[k];
    }
    forall k | 0 <= k < |post| ensures post[k] != x {
      assert post[k] == s[p + 1 + k];
    }
    NotInMultiset(pre, x);
    NotInMultiset(post, x);
  }

  lemma NotInMultiset<T>(s: seq<T>, x: T)
    requires forall k :: 0 <= k < |s| ==> s[k] != x
    ensures multiset(s)[x] == 0
  {
    assert x !in s;
  }

  /** The five reported sections are the ones with the most absences: a
      section left out never has more absences than any reported one, and
      fewer than five entries means no section with absences was left out. */
  lemma TopSectionsAreTheLargest(school: School, records: seq<Record>, today: CivilDate, k: SectionKey)
    requires SectionAbsences(school, records, FirstOfMonth(today), k) > 0
    requires forall i :: 0 <= i < |TopSections(school, records, today)| ==> TopSections(school, records, today)[i].key != k
    ensures |TopSections(school, records, today)| == TopCount
    ensures forall i :: 0 <= i < TopCount ==>
              TopSections(school, records, today)[i].count >= SectionAbsences(school, records, FirstOfMonth(today), k)
  {
    var sorted := RankedSections(school, records, FirstOfMonth(today));
    TakeSkipsOnlySmaller(sorted, TopSections(school, records, today), k,
      SectionAbsences(school, records, FirstOfMonth(today), k), TopCount);
  }

  /** When a key of a sorted sequence is not among its first `n`, the first
      `n` exist and none of them has a smaller count than the key's. */
  lemma TakeSkipsOnlySmaller(s: seq<SectionCount>, top: seq<SectionCount>, k: SectionKey, c: nat, n: nat)
    requires SortedDesc(s)
    requires exists i :: 0 <= i < |s| && s[i].key == k
    requires forall i :: 0 <= i < |s| && s[i].key == k ==> s[i].count == c
    requires top == Take(s, n)
    requires forall i :: 0 <= i < |top| ==> top[i].key != k
    ensures |top| == n
    ensures forall i :: 0 <= i < n ==> top[i].count >= c
  {
    var p :| 0 <= p < |s| && s[p].key == k;
    TakeFacts(s, n);
  }

  // ------------------------------------------------------------ weekly trend

  datatype TrendDay = TrendDay(date: CivilDate, present: nat, absent: nat, total: nat)

  /** One chart point: present includes LATE, and the total is present plus
      absent (records with other statuses are not in it). */
  function TrendPoint(records: seq<Record>, d: CivilDate): (t: TrendDay)
    ensures t.date == d
    ensures t.present == Count(records, OnDayWith(d, Present)) + Count(records, OnDayWith(d, Late))
    ensures t.absent == Count(records, OnDayWith(d, Absent))
    ensures t.total == t.present + t.absent
  {
    CountUnion(records, OnDayWith(d, Present), OnDayWith(d, Late), AttendedOn(d));
    var present := Count(records, AttendedOn(d));
    var absent := Count(records, OnDayWith(d, Absent));
    TrendDay(d, present, absent, present + absent)
  }

  /** The chart points of the first `n` days from `weekStart`. */
  function TrendPrefix(records: seq<Record>, weekStart: CivilDate, n: nat): (t: seq<TrendDay>)
    ensures |t| == n
    ensures forall j :: 0 <= j < n ==> t[j] == TrendPoint(records, AddDays(weekStart, j))
  {
    if n == 0 then []
    else
      TrendPrefix(records, weekStart, n - 1) + [TrendPoint(records, AddDays(weekStart, n - 1))]
  }

  /** The points of this week up to today: one per day from Monday, in
      date order, ending today. */
  lemma WeekTrendFacts(records: seq<Record>, today: CivilDate)
    ensures var t := TrendPrefix(records, WeekStart(today), Weekday(today) + 1);
            && |t| <= 7
            && t[0].date == WeekStart(today) && Weekday(t[0].date) == 0
            && t[|t| - 1].date == today
            && (forall i :: 0 <= i < |t| ==> t[i].date == AddDays(WeekStart(today), i) && NotAfter(t[i].date, today))
            && (forall i, j :: 0 <= i < j < |t| ==> Before(t[i].date, t[j].date))
            && (forall i :: 0 <= i < |t| ==> t[i] == TrendPoint(records, t[i].date))
  {
    var ws := WeekStart(today);
    var t := TrendPrefix(records, ws, Weekday(today) + 1);
    forall i | 0 <= i < |t| ensures Ordinal(t[i].date) == Ordinal(ws) + i {
      AddDaysOrdinal(ws, i);
    }
    AddDaysOrdinal(ws, Weekday(today));
    AddDaysOrdinal(ws, 0);
  }

  /** `weekly_trend`: the days from this week's Monday, stopping after today. */
  method WeeklyTrend(records: seq<Record>, today: CivilDate) returns (trend: seq<TrendDay>)
    ensures |trend| == Weekday(today) + 1 && |trend| <= 7
    ensures trend[0].date == WeekStart(today) && Weekday(trend[0].date) == 0
    ensures trend[|trend| - 1].date == today
    ensures forall i :: 0 <= i < |trend| ==> trend[i].date == AddDays(WeekStart(today), i) && NotAfter(trend[i].date, today)
    ensures forall i, j :: 0 <= i < j < |trend| ==> Before(trend[i].date, trend[j].date)
    ensures forall i :: 0 <= i < |trend| ==> trend[i] == TrendPoint(records, trend[i].date)
  {
    var weekStart := WeekStart(today);
    trend := [];
    var i := 0;
    while i < 7
      invariant 0 <= i <= Weekday(today) + 1
      invariant trend == TrendPrefix(records, weekStart, i)
      decreases 7 - i
    {
      var date := AddDays(weekStart, i);
      AddDaysOrdinal(weekStart, i);
      if Before(today, date) {
        break;
      }
      trend := trend + [TrendPoint(records, date)];
      i := i + 1;
    }
    assert i == Weekday(today) + 1;
    WeekTrendFacts(records, today);
  }
}
