/** Calendar dates and times of day with the semantics of Python's `datetime`
    module, as far as the attendance views use them: the proleptic Gregorian
    ordinal (`date.toordinal`), `date.weekday()`, adding and subtracting whole
    days, `date.replace(day=1)`, and time-of-day comparison. */
module Calendar {

  predicate IsLeap(y: int) {
    y % 4 == 0 && (y % 100 != 0 || y % 400 == 0)
  }

  function DaysInMonth(y: int, m: int): (n: int)
    requires 1 <= m <= 12
    ensures 28 <= n <= 31
  {
    if m == 2 then (if IsLeap(y) then 29 else 28)
    else if m == 4 || m == 6 || m == 9 || m == 11 then 30
    else 31
  }

  function YearLength(y: int): int {
    if IsLeap(y) then 366 else 365
  }

  /** A calendar date as `datetime.date` stores it. */
  datatype Date = Date(year: int, month: int, day: int) {
    predicate Valid() {
      1 <= year && 1 <= month <= 12 && 1 <= day <= DaysInMonth(year, month)
    }
  }

  type CivilDate = d: Date | d.Valid() witness Date(1, 1, 1)

  /** Days in the months before month `m` of a non-leap year. */
  const CumulativeDays: seq<int> := [0, 31, 59, 90, 120, 151, 181, 212, 243, 273, 304, 334]

  function DaysBeforeMonth(y: int, m: int): int
    requires 1 <= m <= 12
  {
    CumulativeDays[m - 1] + (if m > 2 && IsLeap(y) then 1 else 0)
  }

  /** Days in the years before `year`, Python's closed form. */
  function DaysBeforeYear(year: int): int
    requires year >= 1
  {
    var y := year - 1;
    y * 365 + y / 4 - y / 100 + y / 400
  }

  /** `date.toordinal()`: 0001-01-01 is day 1. */
  function Ordinal(d: CivilDate): int {
    DaysBeforeYear(d.year) + DaysBeforeMonth(d.year, d.month) + d.day
  }

  /** `date.weekday()`: Monday is 0 and Sunday is 6. */
  function Weekday(d: CivilDate): (w: int)
    ensures 0 <= w < 7
  {
    (Ordinal(d) + 6) % 7
  }

  /** The weekday codes the schedule uses, indexed by `Weekday`. */
  const DayCodes: seq<string> := ["MON", "TUE", "WED", "THU", "FRI", "SAT", "SUN"]

  function DayCode(d: CivilDate): string {
    DayCodes[Weekday(d)]
  }

  predicate Before(a: CivilDate, b: CivilDate) {
    Ordinal(a) < Ordinal(b)
  }

  predicate NotAfter(a: CivilDate, b: CivilDate) {
    Ordinal(a) <= Ordinal(b)
  }

  /** Python compares dates as (year, month, day) tuples. */
  predicate LexBefore(a: Date, b: Date) {
    a.year < b.year
    || (a.year == b.year && a.month < b.month)
    || (a.year == b.year && a.month == b.month && a.day < b.day)
  }

  function NextDay(d: CivilDate): CivilDate {
    if d.day < DaysInMonth(d.year, d.month) then Date(d.year, d.month, d.day + 1)
    else if d.month < 12 then Date(d.year, d.month + 1, 1)
    else Date(d.year + 1, 1, 1)
  }

  function PrevDay(d: CivilDate): CivilDate
    requires Ordinal(d) > 1
  {
    if d.day > 1 then Date(d.year, d.month, d.day - 1)
    else if d.month > 1 then Date(d.year, d.month - 1, DaysInMonth(d.year, d.month - 1))
    else Date(d.year - 1, 12, 31)
  }

  /** `d + timedelta(days=k)`. */
  function AddDays(d: CivilDate, k: nat): CivilDate {
    if k == 0 then d else NextDay(AddDays(d, k - 1))
  }

  /** `d - timedelta(days=k)`. */
  function SubDays(d: CivilDate, k: nat): CivilDate
    requires Ordinal(d) > k
    decreases k
  {
    if k == 0 then d
    else
      PrevDayOrdinal(d);
      SubDays(PrevDay(d), k - 1)
  }

  /** `d.replace(day=1)`. */
  function FirstOfMonth(d: CivilDate): CivilDate {
    Date(d.year, d.month, 1)
  }

  /** The month end exactly as the student dashboard computes it:
      `(first_day + timedelta(days=32)).replace(day=1) - timedelta(days=1)`. */
  function LastOfMonth(today: CivilDate): (last: CivilDate)
    ensures last == Date(today.year, today.month, DaysInMonth(today.year, today.month))
  {
    var later := AddDays(FirstOfMonth(today), 32);
    LastOfMonthSteps(today);
    assert Ordinal(FirstOfMonth(later)) > 1;
    PrevDay(FirstOfMonth(later))
  }

  /** `today - timedelta(days=today.weekday())`: the Monday on or before `today`. */
  function WeekStart(today: CivilDate): (monday: CivilDate)
    ensures Weekday(monday) == 0
    ensures Ordinal(monday) == Ordinal(today) - Weekday(today)
    ensures AddDays(monday, Weekday(today)) == today
  {
    var w := Weekday(today);
    WeekStartFacts(today);
    SubDays(today, w)
  }

  // ---------------------------------------------------------------- lemmas

  lemma WeekStartFacts(today: CivilDate)
    ensures Ordinal(today) > Weekday(today)
    ensures Weekday(SubDays(today, Weekday(today))) == 0
    ensures Ordinal(SubDays(today, Weekday(today))) == Ordinal(today) - Weekday(today)
    ensures AddDays(SubDays(today, Weekday(today)), Weekday(today)) == today
  {
    var w := Weekday(today);
    OrdinalPositive(today);
    WeekdayArithmetic(Ordinal(today));
    SubDaysOrdinal(today, w);
    AddSubInverse(today, w);
  }

  lemma WeekdayArithmetic(o: int)
    requires o >= 1
    ensures o > (o + 6) % 7
    ensures (o - (o + 6) % 7 + 6) % 7 == 0
  {
    var q := (o + 6) / 7;
    assert o + 6 == 7 * q + (o + 6) % 7;
  }

  lemma DivStep4(y: int)
    requires y >= 1
    ensures y / 4 - (y - 1) / 4 == (if y % 4 == 0 then 1 else 0)
  {
  }

  lemma DivStep100(y: int)
    requires y >= 1
    ensures y / 100 - (y - 1) / 100 == (if y % 100 == 0 then 1 else 0)
  {
  }

  lemma DivStep400(y: int)
    requires y >= 1
    ensures y / 400 - (y - 1) / 400 == (if y % 400 == 0 then 1 else 0)
  {
  }

  /** Successive values of the closed form differ by the length of a year. */
  lemma YearStep(year: int)
    requires year >= 1
    ensures DaysBeforeYear(year + 1) == DaysBeforeYear(year) + YearLength(year)
  {
    DivStep4(year);
    DivStep100(year);
    DivStep400(year);
    if year % 100 == 0 {
      assert year == 4 * (25 * (year / 100));
    }
    if year % 400 == 0 {
      assert year == 100 * (4 * (year / 400));
    }
  }

  lemma OrdinalPositive(d: CivilDate)
    ensures Ordinal(d) >= 1
  {
  }

  /** Every date of a year lies between that year's first and last ordinal. */
  lemma OrdinalWithinYear(d: CivilDate)
    ensures DaysBeforeYear(d.year) + 1 <= Ordinal(d) <= DaysBeforeYear(d.year) + YearLength(d.year)
  {
  }

  lemma MonthStep(y: int, m: int)
    requires 1 <= m < 12
    ensures DaysBeforeMonth(y, m + 1) == DaysBeforeMonth(y, m) + DaysInMonth(y, m)
  {
  }

  lemma NextDayOrdinal(d: CivilDate)
    ensures Ordinal(NextDay(d)) == Ordinal(d) + 1
  {
    if d.day == DaysInMonth(d.year, d.month) {
      if d.month < 12 {
        MonthStep(d.year, d.month);
      } else {
        YearStep(d.year);
      }
    }
  }

  lemma PrevDayOrdinal(d: CivilDate)
    requires Ordinal(d) > 1
    ensures Ordinal(PrevDay(d)) == Ordinal(d) - 1
    ensures NextDay(PrevDay(d)) == d
  {
    if d.day == 1 {
      if d.month > 1 {
        MonthStep(d.year, d.month - 1);
      } else {
        YearStep(d.year - 1);
      }
    }
  }

  lemma {:induction false} AddDaysOrdinal(d: CivilDate, k: nat)
    ensures Ordinal(AddDays(d, k)) == Ordinal(d) + k
  {
    if k > 0 {
      AddDaysOrdinal(d, k - 1);
      NextDayOrdinal(AddDays(d, k - 1));
    }
  }

  lemma {:induction false} SubDaysOrdinal(d: CivilDate, k: nat)
    requires Ordinal(d) > k
    ensures Ordinal(SubDays(d, k)) == Ordinal(d) - k
    decreases k
  {
    if k > 0 {
      PrevDayOrdinal(d);
      SubDaysOrdinal(PrevDay(d), k - 1);
    }
  }

  lemma {:induction false} AddDaysShift(d: CivilDate, k: nat)
    ensures AddDays(NextDay(d), k) == AddDays(d, k + 1)
  {
    if k > 0 {
      AddDaysShift(d, k - 1);
    }
  }

  /** Going back `k` days and then forward `k` days returns to the start. */
  lemma {:induction false} AddSubInverse(d: CivilDate, k: nat)
    requires Ordinal(d) > k
    ensures AddDays(SubDays(d, k), k) == d
    decreases k
  {
    if k > 0 {
      PrevDayOrdinal(d);
      var p := PrevDay(d);
      AddSubInverse(p, k - 1);
      AddDaysShift(SubDays(p, k - 1), k - 1);
      assert AddDays(SubDays(p, k - 1), k) == NextDay(AddDays(SubDays(p, k - 1), k - 1));
    }
  }

  /** Moving forward inside one month only changes the day number. */
  lemma {:induction false} AddDaysWithinMonth(d: CivilDate, k: nat)
    requires d.day + k <= DaysInMonth(d.year, d.month)
    ensures AddDays(d, k) == Date(d.year, d.month, d.day + k)
  {
    if k > 0 {
      AddDaysWithinMonth(d, k - 1);
    }
  }

  /** The addition of 32 days to the first of a month lands in the next month. */
  lemma LastOfMonthSteps(today: CivilDate)
    ensures var later := AddDays(FirstOfMonth(today), 32);
            var next: CivilDate := if today.month < 12 then Date(today.year, today.month + 1, 1)
                                   else Date(today.year + 1, 1, 1);
            FirstOfMonth(later) == next
            && Ordinal(next) > 1
            && PrevDay(next) == Date(today.year, today.month, DaysInMonth(today.year, today.month))
  {
    var first := FirstOfMonth(today);
    var n := DaysInMonth(today.year, today.month);
    AddDaysWithinMonth(first, n - 1);
    var last: CivilDate := Date(today.year, today.month, n);
    assert AddDays(first, n) == NextDay(last);
    var next := NextDay(last);
    AddDaysWithinMonth(next, 32 - n);
    AddDaysSum(first, n, 32 - n);
    NextDayOrdinal(last);
    OrdinalPositive(last);
  }

  lemma {:induction false} AddDaysSum(d: CivilDate, a: nat, b: nat)
    ensures AddDays(d, a + b) == AddDays(AddDays(d, a), b)
  {
    if b > 0 {
      AddDaysSum(d, a, b - 1);
    }
  }

  lemma {:induction false} DaysBeforeYearMonotone(a: int, b: int)
    requires 1 <= a < b
    ensures DaysBeforeYear(a) + YearLength(a) <= DaysBeforeYear(b)
    decreases b - a
  {
    YearStep(a);
    if a + 1 < b {
      DaysBeforeYearMonotone(a + 1, b);
    }
  }

  /** The ordinal order used by the model is Python's (year, month, day) order. */
  lemma OrdinalOrderIsCalendarOrder(a: CivilDate, b: CivilDate)
    ensures Before(a, b) <==> LexBefore(a, b)
    ensures Ordinal(a) == Ordinal(b) <==> a == b
  {
    OrdinalWithinYear(a);
    OrdinalWithinYear(b);
    if a.year < b.year {
      DaysBeforeYearMonotone(a.year, b.year);
    } else if b.year < a.year {
      DaysBeforeYearMonotone(b.year, a.year);
    } else if a.month < b.month {
      MonthsApart(a.year, a.month, b.month);
    } else if b.month < a.month {
      MonthsApart(a.year, b.month, a.month);
    }
  }

  lemma MonthsApart(y: int, m1: int, m2: int)
    requires 1 <= m1 < m2 <= 12
    ensures DaysBeforeMonth(y, m1) + DaysInMonth(y, m1) <= DaysBeforeMonth(y, m2)
  {
  }

  // ---------------------------------------------------------------- times

  const DayMicros: int := 86_400_000_000

  /** `timedelta(minutes=k)` in microseconds. */
  function MinutesMicros(k: int): int {
    k * 60_000_000
  }

  /** A time of day as `datetime.time` stores it (no time zone). */
  datatype Time = Time(hour: int, minute: int, second: int, micro: int) {
    predicate Valid() {
      0 <= hour < 24 && 0 <= minute < 60 && 0 <= second < 60 && 0 <= micro < 1_000_000
    }

    /** Microseconds since midnight; Python orders times by this value. */
    function Micros(): int {
      ((hour * 60 + minute) * 60 + second) * 1_000_000 + micro
    }

    /** `hour * 60 + minute`: seconds and microseconds are dropped. */
    function MinuteOfDay(): int {
      hour * 60 + minute
    }
  }

  type TimeOfDay = t: Time | t.Valid() witness Time(0, 0, 0, 0)

  lemma MicrosRange(t: TimeOfDay)
    ensures 0 <= t.Micros() < DayMicros
    ensures MinutesMicros(t.MinuteOfDay()) <= t.Micros() < MinutesMicros(t.MinuteOfDay() + 1)
  {
  }

  /** `(datetime.combine(day, t) + timedelta(minutes=k)).time()` in microseconds:
      the shift wraps around midnight. */
  function ShiftedMicros(t: TimeOfDay, k: int): (r: int)
    ensures 0 <= r < DayMicros
    ensures 0 <= t.Micros() + MinutesMicros(k) < DayMicros ==> r == t.Micros() + MinutesMicros(k)
  {
    (t.Micros() + MinutesMicros(k)) % DayMicros
  }

  /** A moment as `timezone.now()` supplies it: the date and the time of day. */
  datatype Instant = Instant(date: CivilDate, time: TimeOfDay)
}
