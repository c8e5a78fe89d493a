# Timetable scheduling engine and approval lifecycle, in Dafny

This project models a college timetable tool in three parts:

- **The scheduling engine** in `src/components/timetable/TimetableGenerator.tsx`. It builds draft timetables for one batch, or for every batch of a department and shift.
  - It lays out a fixed grid of six one-hour teaching windows per shift.
  - It writes one break into every working day.
  - It then runs a greedy allocator. The allocator walks the eligible teachers, the working days and the open windows. It books each class into a grid cell, with a room of the right type.
  - Each booking is guarded by a daily cap, a weekly quota per subject, a 100-attempt cap and an approximate consecutive-hours test.
  - Three variants differ only in the order of teachers and batches.
  - A separate conflict detector reports every pair of overlapping classes of one teacher or in one room.
- **The head of department's review screen** in `src/components/hod/PendingApprovals.tsx`:
  - the list of timetables awaiting review;
  - approve and reject;
  - the rule that a rejection needs a reason;
  - the per-timetable figures.
- **The administrator's timetable list** in `src/components/admin/TimetableManagement.tsx`:
  - search and the status filter;
  - the status counts;
  - send for approval, delete and duplicate;
  - which of those actions each row offers.

Together the two screens form the lifecycle draft → pending → approved | rejected.

## Modelling choices

- **Times.** Times are minutes since midnight (`nat`). The windows of the grid are `Window(start, end)` values. `Clock.TimeToMinutes` models the `"HH:MM"` parse as `split(':').map(Number)` computes it: the fields are cut at each ':', a blank field is 0, white space around a field is dropped and a third field is ignored. `TimeGrid` proves that the minute values are what that parse makes of the source's labels.
- **The scheduling grid.** The grid is a `map` from day to a `map` from window to `Option<TimeSlot>`. A missing key and `None` both read as a free cell, as `!schedule[day][key]` does.
- **The allocator's state.** It is the class `Allocator.Workspace`. Its fields are the four structures the source updates in place: the grid, the slot list, the teacher-per-day tally and the teacher-per-day slot list. Tallies are kept in minutes, and the quota test reads `placed + duration <= weeklyHours * 60`. That agrees with the source's hours arithmetic for whole-hour and half-hour durations.
- **The loops.** The allocator's loops are methods with `while` loops: per subject, per teacher, per day and per window. Each is proved against predicates on the new slots (`Allocator.Committed`, `Allocator.Grows`) and on the state (`Allocator.Consistent`).
- **The department build.** It books all of its batches on one shared grid, as the source does. The grid key is the day and the window only, so a class of one batch blocks that window for every other batch of the run.
- **The lifecycle screens.** They are pure functions on `seq<Timetable>`.
- **Where the code and the design text disagree, the model follows the code.**
  - The design says batches of a department run are scheduled in isolation. The code shares one grid.
  - The design states a hard daily cap per teacher. The code tests the tally BEFORE a placement, so a tally can end up above the cap by the last session (`Allocator.TalliesBounded`).
  - The design describes the year-in-name subject rule loosely. The model follows the code's table of code prefixes.
  - The design calls variant 2 a grouping of batches by year. As coded, a batch whose name holds several of the digits 1 to 4 is listed once per digit, and one whose name holds none of them is dropped (`Selection.SortBatchesForVariant`).

## Model

| member | source | states |
|---|---|---|
| Clock.FieldNumberOfTrim | src/components/timetable/TimetableGenerator.tsx:578 | a field is read as `Number` reads it: trimmed, then its digits' value, 0 when blank |
| Clock.TimeToMinutesOfFields | src/components/timetable/TimetableGenerator.tsx:578-579 | the hours field is the text before the first ':', the minutes field the text after it, combined as hours * 60 + minutes |
| Clock.TimeToMinutesIgnoresTail | src/components/timetable/TimetableGenerator.tsx:578 | the minutes field ends at the second ':'; anything after it is ignored, so "09:00:30" is 540 |
| Clock.TimeToMinutesNeedsColon | src/components/timetable/TimetableGenerator.tsx:578-579 | a string without ':' has no minutes field and gives no time (NaN) |
| Clock.TimeToMinutesNotANumber | src/components/timetable/TimetableGenerator.tsx:578-579 | a field `Number` cannot read makes the time undefined (NaN) |
| Clock.TimeToMinutesOfParts | src/components/timetable/TimetableGenerator.tsx:577-580 | "HH:MM" with digit fields (either may be empty) reads as HH * 60 + MM |
| Clock.TimeToMinutesNoHours | src/components/timetable/TimetableGenerator.tsx:578-579 | ":MM" counts the missing hours as 0 and reads as MM |
| Clock.TimeToMinutesNoMinutes | src/components/timetable/TimetableGenerator.tsx:578-579 | "HH:" counts the missing minutes as 0 and reads as HH * 60 |
| Clock.FieldNumberPadded | src/components/timetable/TimetableGenerator.tsx:578 | white space on either side of a field's digits is dropped |
| Clock.TimeToMinutesPadded | src/components/timetable/TimetableGenerator.tsx:577-580 | white space around either field is dropped: " 9 : 30 " reads as 9 * 60 + 30 |
| Clock.TimeToMinutesOfFormat | src/components/timetable/TimetableGenerator.tsx:577-580 | reading back a zero-padded "HH:MM" of a time gives that time |
| Clock.OverlapSymmetric | src/components/timetable/TimetableGenerator.tsx:671-681 | the overlap test start1 < end2 && start2 < end1 is symmetric |
| Clock.TouchingDoesNotOverlap | src/components/timetable/TimetableGenerator.tsx:671-681 | windows where one ends when or before the other starts do not overlap |
| Clock.OverlapIffSharedMinute | src/components/timetable/TimetableGenerator.tsx:671-681 | two nonempty windows overlap exactly when some minute lies in both |
| Strings.ContainsMeans | src/components/admin/TimetableManagement.tsx:38-39 | `includes` holds exactly when the term occurs at some position |
| Strings.ContainsTrivial | src/components/admin/TimetableManagement.tsx:38-39 | every string includes the empty term and itself |
| Strings.ToLower | src/components/admin/TimetableManagement.tsx:38-39 | lower-casing keeps the length and maps each character A-Z to a-z |
| Strings.ToLowerIdempotent | src/components/admin/TimetableManagement.tsx:38-39 | lower-casing twice equals lower-casing once |
| Strings.LeadingSpace | src/components/hod/PendingApprovals.tsx:311 | the whitespace run that `trim` removes at the front ends at the first non-space |
| Strings.KeptLength | src/components/hod/PendingApprovals.tsx:311 | the whitespace run that `trim` removes at the back starts after the last non-space |
| Strings.TrimEmptyIff | src/components/hod/PendingApprovals.tsx:311 | a comment trims to nothing exactly when all of its characters are whitespace |
| Strings.NatToString | src/components/timetable/TimetableGenerator.tsx:408 | the number in a template literal is a nonempty string of decimal digits |
| Strings.NatToStringRoundTrip | src/components/timetable/TimetableGenerator.tsx:408 | the digits read back as the number, so distinct variants get distinct names |
| Strings.StrLeTotal | src/components/timetable/TimetableGenerator.tsx:156-160 | the name order compares any two names |
| Strings.StrLeTransitive | src/components/timetable/TimetableGenerator.tsx:156-160 | the name order is transitive |
| Strings.StrLeAntisymmetric | src/components/timetable/TimetableGenerator.tsx:156-160 | only equal names precede each other both ways |
| TimeGrid.GetTimeSlots | src/components/timetable/TimetableGenerator.tsx:582-604 | six one-hour windows within the day, each ending no later than the next one starts |
| TimeGrid.MorningLabelsAreFormatted | src/components/timetable/TimetableGenerator.tsx:584-592 | each morning label is the "HH:MM" text of its window's minutes |
| TimeGrid.EveningLabelsAreFormatted | src/components/timetable/TimetableGenerator.tsx:594-602 | each evening label is the "HH:MM" text of its window's minutes |
| TimeGrid.GetTimeSlotsMatchLabels | src/components/timetable/TimetableGenerator.tsx:582-604 | `timeToMinutes` of every label gives exactly the window's start and end |
| TimeGrid.GridWindowsDisjoint | src/components/timetable/TimetableGenerator.tsx:582-604 | two windows of one shift's grid are equal or do not overlap |
| TimeGrid.ChainFilter | src/components/timetable/TimetableGenerator.tsx:634-647 | the open windows, taken in grid order, still come one after another |
| Gates.FacultyConflictAfterBooking | src/components/timetable/TimetableGenerator.tsx:652-669 | after a free cell is booked, the teacher check fires exactly when it fired before or the new class is the teacher's and overlaps |
| Gates.ClassroomFreeAfterBooking | src/components/timetable/TimetableGenerator.tsx:502-519 | after a free cell is booked, a room stays free exactly when it was free and the new class is not in it at an overlapping time |
| Gates.GetAvailableSlots | src/components/timetable/TimetableGenerator.tsx:624-650 | a window is offered exactly when it is in the shift's grid, its cell is free, the teacher works that day and has no overlapping class; the offer keeps grid order |
| Gates.SuitableMeans | src/components/timetable/TimetableGenerator.tsx:484-486 | a room suits a subject exactly when it is a lab room for a lab subject and a lecture room otherwise |
| Gates.FindAvailableClassroom | src/components/timetable/TimetableGenerator.tsx:478-519 | the result is the first room in list order that suits, is open that day and has no overlapping class; None exactly when no room does |
| Gates.WouldViolateConsecutiveHours | src/components/timetable/TimetableGenerator.tsx:316-349 | false on an empty list, else true exactly when some same-day, same-teacher slot is within the gap and 1 + their number exceeds the limit |
| Gates.ConsecutiveCheckAdmitsThreeHourRun | src/components/timetable/TimetableGenerator.tsx:316-349 | with gap 15 and limit 2, a third back-to-back hour after a 15-minute pause is admitted: the check counts neighbours, not run length |
| Selection.SortBy | src/components/timetable/TimetableGenerator.tsx:152-160 | the stable sort returns a permutation of its input |
| Selection.SortBySorted | src/components/timetable/TimetableGenerator.tsx:152-160 | with a total preorder as comparator the sort's output is ordered |
| Selection.SortByStable | src/components/timetable/TimetableGenerator.tsx:152-160 | the sort is stable: elements the comparator ranks equal come out in their input order |
| Selection.InsertStable | src/components/timetable/TimetableGenerator.tsx:152-160 | inserting into an ordered list puts the new element after every element ranked equal to it |
| Selection.InsertKeepsSorted | src/components/timetable/TimetableGenerator.tsx:152-160 | inserting into an ordered list keeps it ordered |
| Selection.ComparatorsArePreorders | src/components/timetable/TimetableGenerator.tsx:155-160 | the four comparators (classes up, classes down, name up, name down) are total preorders |
| Selection.SelectFacultiesForVariant | src/components/timetable/TimetableGenerator.tsx:297-314 | a permutation of the eligible teachers: fewest assigned classes first for variant 0, most for variant 1, input order beyond variant 2 |
| Selection.SortBatchesForVariant | src/components/timetable/TimetableGenerator.tsx:152-171 | name order up or down (a permutation) for variants 0 and 1; for variant 2 each batch occurs once per year digit in its name; input order otherwise |
| Selection.YearOrderMultiplicity | src/components/timetable/TimetableGenerator.tsx:161-166 | variant 2 lists a batch as often as its name holds the digits 1 to 4 |
| Selection.YearOrderCount | src/components/timetable/TimetableGenerator.tsx:163-167 | for one batch: the four year lists together hold it once per year digit of its name, times its multiplicity in the input |
| Selection.YearOrderIsPermutation | src/components/timetable/TimetableGenerator.tsx:161-166 | when every name holds exactly one year digit, variant 2 is a permutation |
| Selection.GetSubjectsForBatch | src/components/timetable/TimetableGenerator.tsx:430-476 | exactly the department's subjects whose code starts with a prefix of the batch's year, or all of them when no rule applies |
| Selection.FirstYearComputerScience | src/components/timetable/TimetableGenerator.tsx:434-440 | a first-year CSE batch gets exactly the CSE subjects coded CSE1, MATH1 or PHY1 |
| Selection.NoYearTagFallsBack | src/components/timetable/TimetableGenerator.tsx:430-476 | a batch whose name holds no year tag gets every subject of its department |
| Selection.SubjectIds | src/components/timetable/TimetableGenerator.tsx:187-190 | the subject table's keys: each id of the batch's subjects once, and no other |
| Selection.FirstWithId | src/components/timetable/TimetableGenerator.tsx:207 | the first subject in the list carrying the id |
| Selection.Quota | src/components/timetable/TimetableGenerator.tsx:187-190 | the weekly hours of the last subject listed under the id |
| ConflictCheck.SlotsOverlapProperties | src/components/timetable/TimetableGenerator.tsx:566-575 | slots on different days never overlap; on one day the test is symmetric |
| ConflictCheck.GroupTableIsGroups | src/components/timetable/TimetableGenerator.tsx:526-539 | the grouping loop files every class, and only classes, under its teacher and its room, in timetable order |
| ConflictCheck.DetectConflicts | src/components/timetable/TimetableGenerator.tsx:521-564 | the report is `Conflicts` of the slots: a function of them, so two calls agree |
| ConflictCheck.FileSlot | src/components/timetable/TimetableGenerator.tsx:529-538 | filing one slot takes the group table and its key order to those of the longer list |
| ConflictCheck.ReportGroups | src/components/timetable/TimetableGenerator.tsx:542-550 | the walk over the groups appends their messages in key order |
| ConflictCheck.ReportPairs | src/components/timetable/TimetableGenerator.tsx:543-549 | the two index loops append one message per overlapping pair i < j of the group |
| ConflictFacts.GroupMessagesEmpty | src/components/timetable/TimetableGenerator.tsx:543-549 | a group yields no message exactly when no two of its slots overlap |
| ConflictFacts.KeyMessagesEmptyIffClean | src/components/timetable/TimetableGenerator.tsx:541-561 | one table yields no message exactly when no two classes sharing a teacher (or room) overlap |
| ConflictFacts.ConflictsEmptyIff | src/components/timetable/TimetableGenerator.tsx:521-564 | the report is empty exactly when no teacher and no room is double-booked |
| ConflictFacts.NoClassesNoConflicts | src/components/timetable/TimetableGenerator.tsx:527-528 | a timetable of breaks only, or with no slots, gets an empty report |
| ConflictFacts.BreaksAreIgnored | src/components/timetable/TimetableGenerator.tsx:527-528 | appending a break changes no message |
| Allocator.PlacedAfterCommit | src/components/timetable/TimetableGenerator.tsx:281-282 | writing a class into a free cell of its own window keeps every class in its cell |
| Allocator.SeparatedAfterCommit | src/components/timetable/TimetableGenerator.tsx:281-282 | a class written into a free cell overlaps no earlier class that day |
| Allocator.BreakKeepsInvariants | src/components/timetable/TimetableGenerator.tsx:399-400 | writing a break moves no class and creates no overlap among classes |
| Allocator.LaterWindowsStayOpen | src/components/timetable/TimetableGenerator.tsx:248-291 | booking one window of the day's offer leaves every later offered window open for that teacher |
| Allocator.CommitKeepsConsistent | src/components/timetable/TimetableGenerator.tsx:281-288 | a commit keeps every day gridded, every tally and list present, and classes in separate cells |
| Allocator.BreakKeepsConsistent | src/components/timetable/TimetableGenerator.tsx:399-400 | writing a break keeps the run's state invariant |
| Allocator.Workspace.constructor | src/components/timetable/TimetableGenerator.tsx:367-383 | all tallies at zero and lists empty for every teacher and day, every window of every working day free |
| Allocator.Workspace.AddBreak | src/components/timetable/TimetableGenerator.tsx:399-400 | the break is in its cell and at the end of the list; tallies untouched |
| Allocator.Workspace.Commit | src/components/timetable/TimetableGenerator.tsx:281-288 | the class is in its cell and at the end of the list; the teacher's day tally grows by exactly its minutes and the day list by exactly it |
| Allocator.TalliesStep | src/components/timetable/TimetableGenerator.tsx:288 | adding a session to a tally that was under the daily cap keeps every tally growing and at most one session past the cap |
| Allocator.Workspace.TryWindow | src/components/timetable/TimetableGenerator.tsx:258-289 | a booking is a committed class in the window, whose cell was free, with no overlapping class of the teacher, in a free suitable room, under the daily cap and within the quota; no booking changes nothing |
| Allocator.Workspace.ScheduleOnDay | src/components/timetable/TimetableGenerator.tsx:248-291 | only committed classes are added, the quota is never exceeded, attempts stay within 100 and bound the bookings |
| Allocator.Workspace.ScheduleWithFaculty | src/components/timetable/TimetableGenerator.tsx:233-292 | days at the cap are skipped; only committed classes are added, within the quota and the attempt cap |
| Allocator.Workspace.ScheduleSubject | src/components/timetable/TimetableGenerator.tsx:206-293 | at most the weekly quota and at most 100 classes per subject, all committed; tallies rise only while under the cap; with no eligible teacher nothing changes |
| Allocator.Workspace.ScheduleBatch | src/components/timetable/TimetableGenerator.tsx:173-295 | every new class is committed for some subject of the batch; the tracked pairs are unchanged |
| Engine.Names | src/components/timetable/TimetableGenerator.tsx:367-375 | every teacher of the build has its name tracked |
| Engine.Breaks | src/components/timetable/TimetableGenerator.tsx:385-402 | one break per working day, in day order, at the configured window and length |
| Engine.BatchBreaksNamed | src/components/timetable/TimetableGenerator.tsx:385-402 | a single-batch break is "Lunch Break" for a morning batch and "Dinner Break" otherwise, names the batch and has id break-day-batch |
| Engine.SeparatedMeansNoDoubleBooking | src/components/timetable/TimetableGenerator.tsx:521-564 | classes that never overlap on a day leave the conflict detector silent |
| Engine.BreaksThenClasses | src/components/timetable/TimetableGenerator.tsx:385-404 | breaks written first, then classes only: the breaks of the list are exactly those written first |
| Engine.SortedBatchesFromInput | src/components/timetable/TimetableGenerator.tsx:133 | every batch of a variant's order is an input batch |
| Engine.CommittedIsClass | src/components/timetable/TimetableGenerator.tsx:279 | committed slots are classes, never breaks |
| Engine.ClassesForStep | src/components/timetable/TimetableGenerator.tsx:136-138 | scheduling one more batch keeps every added slot a class for one of the batches |
| Engine.FinishRun | src/components/timetable/TimetableGenerator.tsx:351-416 | a finished run has exactly its written breaks and a silent conflict report |
| Engine.WriteBreaks | src/components/timetable/TimetableGenerator.tsx:385-402 | the slot list becomes exactly the breaks; tallies untouched |
| Engine.CreateSingleBatchTimetable | src/components/timetable/TimetableGenerator.tsx:351-416 | a draft with the source's id, name, department and shift; its breaks first and exactly those; every class committed for a subject of the batch; no double booking |
| Engine.CreateTimetableVariant | src/components/timetable/TimetableGenerator.tsx:78-150 | a draft with the source's id and name; one shared lunch per day; every class committed for a subject of one of the batches; no double booking across the batches |
| Engine.ScheduleVariant | src/components/timetable/TimetableGenerator.tsx:86-138 | the department run's slot list: the lunch breaks first and exactly those, then classes each committed for a subject of one of the batches; no two classes overlap on a day and the detector is silent |
| Engine.GenerateTimetableForBatch | src/components/timetable/TimetableGenerator.tsx:58-76 | exactly three drafts, variants 1 to 3, each with the batch's breaks first, every class committed for a subject of the batch from the department's subjects and teachers, and no conflicts |
| Engine.BatchVariant | src/components/timetable/TimetableGenerator.tsx:66-72 | one pass of the single-batch loop yields draft v: named for the batch and variant, the batch's breaks first, every class committed for a subject of the batch, no conflicts |
| Engine.GenerateTimetable | src/components/timetable/TimetableGenerator.tsx:35-56 | exactly three department drafts, variants 1 to 3, each with one lunch per working day first, every class committed for one of the department's batches of that shift from the department's subjects and teachers, and no conflicts |
| Engine.DepartmentVariant | src/components/timetable/TimetableGenerator.tsx:44-52 | one pass of the department loop yields draft v: named for the department, shift and variant, the lunches first, every class committed for a subject of one of the batches, no conflicts |
| Lifecycle.FilterAfterUpdate | src/components/hod/PendingApprovals.tsx:40-72 | when every changed record fails a test, the records passing it afterwards are the old ones minus the changed id |
| Lifecycle.UpdateSnoc | src/components/hod/PendingApprovals.tsx:41-51 | the id-keyed map over a longer list extends the map over the shorter one |
| Approvals.PendingTimetables | src/components/hod/PendingApprovals.tsx:34-38 | exactly the pending timetables of the selected department and shift |
| Approvals.Approve | src/components/hod/PendingApprovals.tsx:40-56 | same length; only records with the id change: approved, signed by the user or "HOD", stamped, comment dropped when empty, all else kept |
| Approvals.Reject | src/components/hod/PendingApprovals.tsx:58-72 | same length; only records with the id change: rejected, comment or "Rejected by HOD", all else kept |
| Approvals.Submit | src/components/hod/PendingApprovals.tsx:309-321 | refused exactly for a rejection whose comment trims to nothing; otherwise the chosen action |
| Approvals.SubmittedRejectionKeepsReason | src/components/hod/PendingApprovals.tsx:311-314 | a rejection that gets through records the reviewer's own reason, never the default |
| Approvals.PendingAfterApprove | src/components/hod/PendingApprovals.tsx:34-51 | after an approval the review list is the old one without that id |
| Approvals.PendingAfterReject | src/components/hod/PendingApprovals.tsx:34-67 | after a rejection the review list is the old one without that id |
| Approvals.ReviewIsOneStep | src/components/hod/PendingApprovals.tsx:40-72 | with unique ids, reviewing a listed timetable moves it one lifecycle step and no other record changes |
| Approvals.GetTimetableStats | src/components/hod/PendingApprovals.tsx:81-93 | total slots, classes plus breaks equal total, distinct teachers and rooms over classes, each at most the class count |
| Approvals.ClassTeachersAndRooms | src/components/hod/PendingApprovals.tsx:84-85 | the teacher and room sets over the filtered classes are those over all classes, and no larger than the class count |
| Approvals.TeacherCountBound | src/components/hod/PendingApprovals.tsx:84 | a list names at most as many teachers as it has slots |
| Approvals.RoomCountBound | src/components/hod/PendingApprovals.tsx:85 | a list names at most as many rooms as it has slots |
| Approvals.ClassesAndBreaks | src/components/hod/PendingApprovals.tsx:82-83 | every slot is a class or a break, never both |
| Management.FilteredTimetables | src/components/admin/TimetableManagement.tsx:37-45 | a timetable is kept, as often as it occurs, exactly when name or department contains the term ignoring case, the status filter admits it, and department and shift match |
| Management.EmptySearchListsGroup | src/components/admin/TimetableManagement.tsx:37-45 | an empty search with 'all' lists every timetable of the department and shift |
| Management.GetStatusCounts | src/components/admin/TimetableManagement.tsx:47-53 | draft + pending + approved + rejected equals all, which is the list's length |
| Management.StatusPartition | src/components/admin/TimetableManagement.tsx:47-53 | every timetable is counted under exactly one status |
| Management.SendForApproval | src/components/admin/TimetableManagement.tsx:55-63 | same length; only records with the id change, to pending, all else kept |
| Management.Delete | src/components/admin/TimetableManagement.tsx:65-69 | records with the id are gone; every other record stays with its multiplicity |
| Management.DeleteKeepsOrder | src/components/admin/TimetableManagement.tsx:65-69 | the records kept stay in their relative order |
| Management.Duplicate | src/components/admin/TimetableManagement.tsx:71-84 | the old list plus one record at its end: id-copy-stamp, name plus " (Copy)", draft, new creation time, review data cleared, same slots, department, shift and author |
| Management.DeleteOriginalKeepsCopy | src/components/admin/TimetableManagement.tsx:65-84 | the copy's id differs from the original's, so deleting the original leaves the copy |
| Management.DuplicateKeepsIdsUnique | src/components/admin/TimetableManagement.tsx:71-84 | a copy under an unused id keeps the ids unique |
| Management.SendIsOneStep | src/components/admin/TimetableManagement.tsx:237 | with unique ids, sending a draft moves it one lifecycle step and no other record changes |
| Management.ApprovedIsFinal | src/components/admin/TimetableManagement.tsx:237-247 | with unique ids, no action offered by either screen removes or changes an approved timetable |

## Left out

- Rendering, hooks, toasts, dialogs and navigation: UI only. The dialog's state (comments, selected timetable) becomes parameters.
- The allocator's wall-clock budget and the page's 15-second timeout are not modelled, because they are clocks. The 100-attempt cap is modelled.
- The `Math.random()` order of variant 2 becomes a parameter `shuffle`, constrained only to return a rearrangement of its input. One such function serves every call of a run.
- Ids and timestamps built from `Date.now()`, `Math.random()` and `new Date().toISOString()` become string parameters (`now`, `stamp`, `createdAt`). Slot ids share one `stamp` per run, so the model does not claim slot ids are unique.
- `console.warn` logging is not modelled. The retired `scheduleSubjectsForBatch` (lines 418-428) and `selectFaculty` (lines 606-622) are dead code, so they are not modelled either.
- Hours are integer minutes, not floating-point hours.
- Grid cells are keyed by `Window` values, not by the "start-end" label text. Two labels that differ in writing but not in value ("9:00" and "09:00") would be one key in the model.
- `toLowerCase` and `localeCompare` cover only the letters A to Z and character-code order. No Unicode case mapping or locale collation is modelled.
- The analytics percentages and averages are floating point, so they are not modelled.
- Allocator.Workspace.ScheduleSubject: tallies are bounded (they never shrink, and a raised tally stays below the cap plus one session) rather than proved equal to each teacher's booked minutes for that day. That global agreement is not kept as an invariant. Allocator.Workspace.Commit states each update exactly.
- Engine.CreateTimetableVariant: requires every batch to have the run's shift. Its only caller, `generateTimetable`, filters the batches by that shift, and the shared grid is the one of that shift.
- Engine.GenerateTimetableForBatch and Engine.GenerateTimetable: the per-variant facts are those of `BatchDraft` and `DepartmentDraft` (status, department, shift, name, breaks first, every class committed for the run's batches, subjects and teachers, no conflicts). Ids and creation times are stated by the two build methods they call, not by these two.
- Clock.TimeToMinutes: of `Number`'s grammar only decimal digits between white space are modelled. A sign, a decimal point, an exponent, a `0x`/`0o`/`0b` prefix or `Infinity` in a field gives None, as does a field that is NaN in the source, so None stands for "NaN or not modelled". The grid's own labels are two-digit "HH:MM" and are unaffected.
- Object key order: the conflict detector and the subject table walk their keys in order of first insertion. JavaScript puts keys that look like array indices ("0", "17") first, in numeric order. The model assumes teacher names, room names, batch ids and subject ids are not of that form.
