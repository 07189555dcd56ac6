# Attendance decision engine (Dafny model)

This project models the decision logic of a Django school-attendance application.
Students show a signed QR token; a scanner posts it to `verify_scan`, which checks
the token, the student, the subject, the enrolment and the class schedule window,
classifies the scan as PRESENT or LATE and inserts one attendance record per
(student, subject, date). Teachers can override a day's status by hand, an ABSENT
status may notify the parents, and the student, teacher and principal dashboards
aggregate the records into percentages, calendar statuses, heatmaps, rankings and
weekly trends. Access to the views is gated by user role.

The model is functional. The database is a value `Db` with:
- the attendance table, a `seq<Record>` under the `unique_together` predicate `UniqueKeys`;
- the parent notifications, a `seq<Notification>`;
- the settings table, a `map<nat, Settings>`.

A subject's enrolled students are a `Roster`, a sequence of student ids without repeats, as a many-to-many relation holds them.

Every view or helper is a pure function from that state and its inputs to a new
state and an outcome. Dates are proleptic Gregorian dates with Python's ordinal and
weekday. Times of day are in microseconds, and the window bounds wrap around midnight
as `datetime.time()` does. Status codes are text, because the manual form stores
whatever status it is sent.

The modules follow the source files:

| module | file | content |
|---|---|---|
| `Basics` | (helpers) | `Option`, `Result`, counting and filtering over sequences |
| `Calendar` | (helpers) | dates, weekdays, `timedelta` day arithmetic, times of day |
| `Models` | models.py | entities, field defaults, `unique_together`, settings singleton, strand rule |
| `Decorators` | decorators.py | `role_required` and the five wrappers |
| `Forms` | forms.py | `clean_days_of_week` and its comma-split fallback |
| `Utils` | utils.py | schedule window, notification policy, attendance percentage |
| `Scan` | views_scan.py | `verify_scan` |
| `Teacher` | views_teacher.py | manual mark, classroom view, teacher dashboard |
| `StudentView` | views_student.py | student dashboard calendar and month statistics |
| `PrincipalView` | views_principal.py | principal dashboard analytics |

## Model

| member | source | states |
|---|---|---|
| Calendar.LastOfMonth | attendance/views_student.py:24-25 | `(first_day + 32 days).replace(day=1) - 1 day` is the last calendar day of today's month |
| Calendar.WeekStart | attendance/views_teacher.py:26 | `today - today.weekday()` is a Monday, lies `weekday` days before today, and adding those days back gives today |
| Calendar.OrdinalOrderIsCalendarOrder | attendance/views_student.py:56 | comparing dates by ordinal is Python's (year, month, day) order, and equal ordinals mean equal dates |
| Calendar.ShiftedMicros | attendance/utils.py:86-92 | a time shifted by whole minutes and read back with `.time()` is a time of day, and is the plain sum when it does not cross midnight |
| Models.SaveProfile | attendance/models.py:85-89 | saving fails exactly for grade 11 or 12 with a missing or empty strand; otherwise the profile is stored unchanged |
| Models.StrandRuleByGrade | attendance/models.py:85-89 | grades 7-10 always save; grades 11-12 save exactly when a strand is given |
| Models.SubjectGradeMatchesChoices | attendance/models.py:106-109 | the 7..12 validators admit exactly the grade levels of the choices list |
| Models.StudentByUuid | attendance/views_scan.py:63-69 | the lookup returns a stored student with that uuid, or none when no student has it |
| Models.StudentById | attendance/views_teacher.py:117 | the lookup returns a stored student with that id, or none when no student has it |
| Models.SubjectById | attendance/views_scan.py:72-77 | the lookup returns a stored subject with that id, or none when no subject has it |
| Models.NewRecord | attendance/models.py:165-175 | a new record has its key, status PRESENT, scan method QR and no location data |
| Models.UniqueKeysAtMostOne | attendance/models.py:184 | under the per-day uniqueness constraint each (student, subject, date) key is held by at most one record |
| Models.StatusPartition | attendance/models.py:167 | every record is counted under exactly one of PRESENT, LATE, ABSENT or "any other text" |
| Models.GetSettings | attendance/models.py:242-246 | the result is the row with id 1; the row is created with the defaults when missing, and no other row changes |
| Models.GetSettingsIdempotent | attendance/models.py:242-246 | a second call returns the same row and table as the first |
| Models.DefaultSettingsValues | attendance/models.py:223-233 | the defaults are threshold 3, auto-SMS on and tolerance 15 minutes |
| Decorators.RoleRequired | attendance/decorators.py:6-33 | anonymous users are redirected to login with `next` set to the path; other roles are refused; allowed roles reach the view with the original arguments |
| Decorators.SingleRoleWrappersAdmitOneRole | attendance/decorators.py:36-53 | the student, teacher, principal and admin wrappers each admit exactly their one role |
| Decorators.StaffIsTeacherPrincipalOrAdmin | attendance/decorators.py:56-58 | `staff_required` admits exactly teachers, principals and super admins, and never a student |
| Forms.CleanDaysOfWeek | attendance/forms.py:113-125 | a non-string value is returned unchanged; a string is the JSON value when it parses, and otherwise the comma-split fallback |
| Forms.FallbackDays | attendance/forms.py:122-124 | the fallback yields one element per comma-separated segment (commas + 1); element i is segment i stripped and upper-cased, so it is trimmed, upper-case and comma-free |
| Forms.Strip | attendance/forms.py:124 | `strip()` keeps the infix that starts after the leading whitespace; everything outside it is whitespace and it has none at either end |
| Forms.StripTrimmed | attendance/forms.py:124 | `strip()` leaves text without whitespace at either end unchanged |
| Forms.StripKeepsChars | attendance/forms.py:124 | every character of `strip()`'s result comes from the text |
| Forms.NormalizeShape | attendance/forms.py:124 | `d.strip().upper()` is trimmed, has no ASCII lower-case letter and adds no comma |
| Forms.NormalizeIdempotent | attendance/forms.py:124 | normalizing a normalized element changes nothing |
| Forms.JoinSplit | attendance/forms.py:124 | joining the pieces of `split(",")` with "," gives the text back: the split drops only the separators |
| Forms.SplitJoin | attendance/forms.py:124 | joining comma-free pieces with "," and splitting again gives the pieces back |
| Forms.FallbackIdempotent | attendance/forms.py:122-124 | re-joining the fallback's output with "," and applying the fallback again gives the same list |
| Forms.FallbackOfTwo | attendance/forms.py:124 | text with one comma falls back to its two normalized halves |
| Forms.FallbackExample | attendance/forms.py:116-124 | "mon, wed" falls back to ["MON", "WED"] |
| Utils.IsWithinTimeWindow | attendance/utils.py:63-101 | the scan is refused as not scheduled, with today's day code, exactly when that code is not in the subject's days; on a scheduled day without a midnight wrap, it is accepted exactly when `start - tol <= now <= end + tol` |
| Utils.ToleranceDefaulting | attendance/utils.py:69-72 | an omitted tolerance behaves as the settings' `scan_tolerance_minutes`; an explicit tolerance makes the settings irrelevant |
| Utils.WindowBoundsInclusive | attendance/utils.py:86-96 | both ends of the widened window are accepted, and one microsecond beyond either end is refused |
| Utils.ToleranceMonotone | attendance/utils.py:89-96 | without a midnight wrap, a larger tolerance accepts every scan a smaller one accepts |
| Utils.MidnightWrapRejectsClassTime | attendance/utils.py:86-96 | with the wrap as written, a Monday class 00:05-01:00 with tolerance 15 refuses a scan at 00:30 |
| Utils.TriggerParentNotification | attendance/utils.py:104-157 | it notifies nothing for a non-ABSENT record. With auto-SMS on, an ABSENT record gets one SENT notification without prefix. With auto-SMS off, it notifies exactly when the all-time ABSENT count reaches the threshold, with the threshold prefix. Records are unchanged and the settings row is read or created |
| Utils.ThresholdKeepsNotifying | attendance/utils.py:128-138 | once an absence notifies, a later state with at least as many absences notifies too |
| Utils.PercentageMeaning | attendance/utils.py:193 | the percentage is 0 for an empty whole, otherwise part * 100 / whole, and lies in [0, 100] when part <= whole |
| Utils.CalculateAttendancePercentage | attendance/utils.py:160-201 | total, present, late and absent count the student's records under the optional subject and inclusive date filters, and the three statuses never exceed the total |
| Utils.FilteredStatusCounts | attendance/utils.py:177-191 | a status counted among the filtered records is the count of records matching both the filter and the status |
| Utils.StatsPercentMeaning | attendance/utils.py:188-200 | the reported percentage is 0 with no records, otherwise (present + late) * 100 / total, and always in [0, 100] |
| Utils.DateBoundsInclusive | attendance/utils.py:182-186 | a matching record dated exactly on `date_from` or on `date_to` is counted |
| Scan.HttpStatus | attendance/views_scan.py:37-148 | 200 only for a recorded scan; 400 for bad JSON or missing fields; 403 for token, enrolment or window refusals; 404 for unknown student or subject; 409 for a duplicate |
| Scan.TokenUuid | attendance/views_scan.py:51-60 | the token is accepted exactly when the signature oracle returns a non-empty uuid, and that uuid is used |
| Scan.ClassifyScan | attendance/views_scan.py:96-103 | a scan-created status is PRESENT or LATE, never ABSENT |
| Scan.LateRule | attendance/views_scan.py:96-103 | a scan is LATE exactly from the start of the eleventh minute after the start minute; seconds do not matter |
| Scan.TenMinutesIsPresent | attendance/views_scan.py:98-103 | a scan at most ten minutes past the start minute, including an early scan, is PRESENT |
| Scan.VerifyScan | attendance/views_scan.py:28-148 | the checks run in order: JSON, fields, token, student, subject, enrolment, window, duplicate key. Only a scan passing all of them appends a record, with the classified status, method QR, the posted location and today's date. Every other outcome leaves the records as they were. No notification is ever created, and key uniqueness is kept |
| Scan.AppendPreservesUniqueKeys | attendance/views_scan.py:106-113 | inserting under a key not yet taken keeps one record per (student, subject, date) |
| Scan.SecondScanSameDay | attendance/views_scan.py:131-138 | after a recorded scan, the same scan later that day, with a token that still verifies, records nothing: it is refused as already marked, or as outside the window |
| Scan.RunScans | attendance/views_scan.py:106-138 | any sequence of scans keeps one record per (student, subject, date), creates no notification and only appends |
| Scan.DemoLookups | attendance/views_scan.py:51-77 | in the worked school the token, student and subject lookups succeed |
| Scan.EarlyScanIsPresent | attendance/views_scan.py:89-103 | in the worked school a Monday scan at 07:46 for an 08:00 class is recorded PRESENT |
| Scan.ScanAfterTenMinutesIsLate | attendance/views_scan.py:96-103 | in the worked school a Monday scan at 08:12 is recorded LATE |
| Scan.TuesdayScanIsRefused | attendance/views_scan.py:89-94 | in the worked school a Tuesday scan is refused with 403 as not scheduled on TUE |
| Teacher.Upsert | attendance/views_teacher.py:127-132 | after `update_or_create` the key's record has the posted status and method MANUAL. An existing record keeps every other field; otherwise a record with the field defaults is appended. Records of other keys are unchanged |
| Teacher.UpsertKeepsOneRecord | attendance/views_teacher.py:127-132 | under the uniqueness constraint, exactly one record holds the key afterwards, it is the saved one, and keys stay unique |
| Teacher.UpsertIdempotent | attendance/views_teacher.py:127-132 | repeating a manual mark with the same status changes nothing more |
| Teacher.OwnedSubject | attendance/views_teacher.py:113 | the subject is found only when it has the id and belongs to the signed-in teacher |
| Teacher.MarkManualAttendance | attendance/views_teacher.py:109-148 | unknown subject or student ends in 404; a not-enrolled student or a GET ends in the unbound-`redirect` error with no change; an enrolled student is upserted, and the notification rule runs on the saved record exactly when the status is ABSENT |
| Teacher.ManualAbsenceCountsItself | attendance/views_teacher.py:127-138 | with auto-SMS off, a manual ABSENT notifies exactly when the student's absences, this one included, reach the threshold |
| Teacher.ManualAbsenceReachesThreshold | attendance/views_teacher.py:127-138 | with auto-SMS off, a first ABSENT mark on a key notifies exactly when the earlier absences plus one reach the threshold |
| Teacher.RosterStatus | attendance/views_teacher.py:69-81 | a student without a record today shows PENDING; with one, the roster shows that record's status |
| Teacher.ClassroomView | attendance/views_teacher.py:55-98 | one roster line per enrolled student in order, with the status from today's record, and the four counts counting those lines |
| Teacher.RowCountsAddUp | attendance/views_teacher.py:85-89 | the four counts never exceed the roster, and equal it exactly when every line is PRESENT, LATE, ABSENT or PENDING |
| Teacher.ClassroomCountsAddUp | attendance/views_teacher.py:85-89 | the classroom's present, late, absent and pending sum to the roster size exactly when no line shows another status text |
| Teacher.ClassroomPercent | attendance/views_teacher.py:99-103 | the percentage is 0 for an empty roster, otherwise (present + late) * 100 / total, within [0, 100] |
| Teacher.WeekStats | attendance/views_teacher.py:25-37 | `week_stats` always lists PRESENT, LATE and ABSENT plus every status seen this week, and each value counts the subject's records of that status from Monday to today |
| Teacher.WeekStatsAfterRecord | attendance/views_teacher.py:35-37 | one more record in the week raises its status's count by one (from 0 when unlisted) and leaves the other counts unchanged |
| Teacher.SubjectsOf | attendance/views_teacher.py:12 | the dashboard lists exactly the subjects assigned to the teacher |
| Teacher.TeacherDashboard | attendance/views_teacher.py:9-52 | one card per assigned subject, in order, with its roster size, today's records and week statistics |
| StudentView.MonthRange | attendance/views_student.py:23-30 | a date lies in `[first_day, last_day]` exactly when it is in today's year and month |
| StudentView.DayStatusOf | attendance/views_student.py:46-57 | a day is "absent" iff it has an ABSENT record. Otherwise it is "late" iff it has a LATE record, and otherwise "present" iff it has any record. A day without records is "no_class" when before today and "PENDING" otherwise |
| StudentView.DayFacts | attendance/views_student.py:47-53 | the day's query is non-empty, or holds an ABSENT or a LATE record, exactly when such a record exists in the month |
| StudentView.MonthDayRecords | attendance/views_student.py:28-30 | for a day of this month, the month's query holds exactly the student's records on that day |
| StudentView.CalendarGrid | attendance/views_student.py:32-67 | the grid has the layout's shape; a cell is padding iff its day is 0; other cells carry the day, its date, `is_today` iff the day is today, and the day's status |
| StudentView.AbsentDayWins | attendance/views_student.py:47-51 | a day of the month shows "absent" exactly when the student has any ABSENT record on it |
| StudentView.EmptyDayByDate | attendance/views_student.py:48-57 | a day without records shows "no_class" before today and "PENDING" from today on |
| StudentView.EnrolledSubjects | attendance/views_student.py:70 | the student's subjects are exactly the subjects whose roster holds the student |
| StudentView.StudentMonthStats | attendance/views_student.py:69-82 | one statistics entry per enrolled subject, and the overall statistics, all over the inclusive range from the first to the last day of the month |
| StudentView.OverallCountsCalendarMonth | attendance/views_student.py:79-82 | the overall total counts exactly the student's records dated in the calendar month |
| PrincipalView.TodayFigures | attendance/views_principal.py:20-24 | today's present counts PRESENT plus LATE, absent counts ABSENT, total counts all of today's records, and present + absent never exceeds total |
| PrincipalView.TodayPercent | attendance/views_principal.py:107-109 | today's percentage is 0 without records, otherwise present * 100 / total, within [0, 100] |
| PrincipalView.GradeCell | attendance/views_principal.py:30-47 | a grade's cell counts its students, its month-to-date records and the ABSENT ones among them |
| PrincipalView.HeatGrades | attendance/views_principal.py:27-35 | the heatmap's grades are the grades 7..12 with at least one student, in increasing order |
| PrincipalView.Heatmap | attendance/views_principal.py:26-56 | one cell per grade with students, in grade order; grades without students are omitted |
| PrincipalView.AbsenceRateMeaning | attendance/views_principal.py:45-47 | a grade's absence rate is 0 without records, otherwise absences * 100 / records, within [0, 100] |
| PrincipalView.AbsentSections | attendance/views_principal.py:59-61 | the listed sections are exactly those of this month's ABSENT records |
| PrincipalView.SectionGroups | attendance/views_principal.py:59-62 | one group per section with absences since the first of the month, each counting that section's ABSENT records |
| PrincipalView.SortDesc | attendance/views_principal.py:63 | ordering by decreasing count keeps exactly the same groups |
| PrincipalView.RankedSections | attendance/views_principal.py:59-63 | the groups in non-increasing count order, each section once, each count correct and positive, and every section with absences present |
| PrincipalView.TopSections | attendance/views_principal.py:58-74 | at most five sections, the first five of the ranking, in non-increasing order, with correct counts and no section twice |
| PrincipalView.TopSectionsAreTheLargest | attendance/views_principal.py:58-64 | a section with absences that is not listed means five sections are listed, each with at least as many absences |
| PrincipalView.TrendPoint | attendance/views_principal.py:83-93 | a trend point counts PRESENT plus LATE as present and ABSENT as absent; its total is their sum |
| PrincipalView.WeekTrendFacts | attendance/views_principal.py:77-94 | the points run from this week's Monday, one per day in date order, up to and including today |
| PrincipalView.WeeklyTrend | attendance/views_principal.py:76-94 | the trend has `weekday(today) + 1` points, at most 7, from Monday to today in increasing date order, each the point of its date |

## Left out

- Token signing and QR images: `verify_qr_data` (attendance/utils.py:44-60) is an oracle parameter `string -> Option<string>`. `TimestampSigner`, the five-minute expiry and QR image generation are library code.
- `json.loads` is an oracle: in `verify_scan` the body arrives already decoded (`Body.Malformed` is a decode failure), and in `clean_days_of_week` it is a parameter. A JSON body that is not an object (a list, a number) fails `data.get` and answers 500; that path is not modelled.
- The generic 500 handler of `verify_scan` (attendance/views_scan.py:145-148) is not modelled. Among the ways into it are a non-numeric `subject_id`, a database failure and a non-text `uuid` (next line), so `subjectId` is an integer.
- A `uuid` that is truthy but not text (`{"uuid": 5}`) makes the signer raise a `TypeError`, which `verify_qr_data` (attendance/utils.py:56-60) does not catch. The view then answers 500. The model's `uuid` is text, so this path is not modelled.
- The manual form's `student_id` (attendance/views_teacher.py:114-117) is text in the source. A non-numeric or empty value makes `get_object_or_404` raise a `ValueError`, which answers 500. The model takes the id as an optional integer, so this path is not modelled; a missing id is looked up and not found.
- `clean_days_of_week` returns whatever `json.loads` yields (attendance/forms.py:118-122), including a number, `true`, `null` or an object. The schedule check `current_day not in subject.days_of_week` (attendance/utils.py:79) raises a `TypeError` on a number, a boolean or `null`, and tests the keys of an object. `DaysValue` holds only text (tested by substring) or a list of strings, so these values are not modelled.
- Clocks and time zones: "now" is an `Instant` parameter. The date and time come from one reading, although the source reads `timezone.now()` for the window and the database stamps the record's date itself.
- Floating point: percentages are exact `real`s. `round(..., 2)` and `round(..., 1)` are not modelled.
- Response bodies, flash messages, notification message text and template rendering are not modelled. Outcomes are tagged values, and notifications keep only their prefix.
- `calendar.monthdayscalendar` is a parameter: the week layout is supplied and only required to hold day numbers of the month.
- The `require_http_methods(["POST"])` and `login_required` decorators of `verify_scan` (attendance/views_scan.py:27-28) are not modelled: the model starts from an authenticated POST.
- Display-only values are not modelled: `total_students`, `total_subjects` and `recent_alerts` of the principal dashboard, and the subject name and photo data.
- The `max_length=10` of the status column is not enforced.
- Dates outside Python's `MINYEAR..MAXYEAR` are not rejected.
- `str.upper()` is modelled for ASCII letters only; other letters are left as they are. `str.strip()` uses Python's full `isspace` set.
- Row order: rosters, a teacher's subjects and a student's subjects are listed in the stored order, not by the models' `Meta.ordering` (grade, section, last name for students; grade, section, name for subjects). Counts and statuses do not depend on the order.
- Concurrency: the insert is an atomic check-then-append. The race on `unique_together` is the database's.
- Other files are not part of this model: seed_data.py, admin.py, urls.py, context_processors.py, views_auth.py, views_admin.py, the `scan_portal` and `digital_id` views of views_scan.py (page rendering and QR images), and the form widget and field configuration.
- Utils.IsWithinTimeWindow: the accept-iff-in-range clause is stated only when neither widened bound crosses midnight. With a wrap, the source compares wrapped times of day. `Utils.MidnightWrapRejectsClassTime` shows the consequence.
- Utils.CalculateAttendancePercentage: the contract states the counts; the percentage derived from them is stated by `Utils.StatsPercentMeaning` as an exact real, without rounding.
- PrincipalView.TopSections: groups with equal counts are kept in a fixed (stable) order, whereas the database leaves their order unspecified. The contract fixes the choice, and `PrincipalView.TopSectionsAreTheLargest` states what holds for any order.
- Teacher.ClassroomCountsAddUp: the four counts add up to the roster size only when every status is one of the four listed ones. The source does not validate the manual status, so any other text makes the sum smaller.

## Behaviour taken from the code

- A schedule window widened past midnight wraps around, because bounds are compared as times of day. Such a window can refuse scans during the class itself.
- `mark_manual_attendance` imports `redirect` locally at the end of its POST branch, so Python treats `redirect` as local to the whole function. A GET request, or a POST for a student not enrolled in the subject, therefore fails on an unbound local instead of redirecting. Neither path changes the database; the model returns `ServerError(UnboundRedirect)`.
- The manual status is stored unvalidated. A missing status reaches the non-null column and fails (`ServerError(NullStatus)`). Any other text is saved, and the classroom shows it as it is.
- A record whose status is literally "PENDING" is counted among the classroom's pending students.
- The month's top sections have a lower date bound (the first of the month) but no upper bound, unlike the heatmap, which stops at today.
- The trigger's threshold count covers all of the student's ABSENT records, over every subject and date. In the manual path it runs after the save, so the new absence is included.
