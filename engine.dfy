/**
 * The generator's entry points (TimetableGenerator.tsx): the single-batch
 * build `createSingleBatchTimetable` (lines 351-416), the department build
 * `createTimetableVariant` (lines 78-150), and the three-variant drivers
 * `generateTimetableForBatch` and `generateTimetable` (lines 35-76). Each
 * build sets up a fresh workspace, writes one break per working day, runs the
 * allocator and wraps the slot list in a draft timetable. The clock readings
 * and random suffixes the source builds ids from are taken as parameters.
 */
module Engine {
  import opened Wrappers
  import opened Seqs
  import opened Strings
  import opened Entities
  import opened Gates
  import opened Selection
  import opened Allocator
  import opened ConflictCheck
  import opened ConflictFacts

  /** The generator's configuration, fixed when it is constructed. */
  datatype Generator = Generator(
    subjects: seq<Subject>,
    faculties: seq<Faculty>,
    classrooms: seq<Classroom>,
    batches: seq<Batch>,
    constraints: Constraints)

  /** The teacher names whose tallies a build tracks. */
  function Names(fs: seq<Faculty>): (r: seq<string>)
    ensures |r| == |fs|
    ensures forall f :: f in fs ==> f.name in r
  {
    if fs == [] then [] else Names(fs[..|fs| - 1]) + [fs[|fs| - 1].name]
  }

  function SubjectInDepartment(d: string): Subject -> bool {
    (s: Subject) => s.department == d
  }

  function FacultyInDepartment(d: string): Faculty -> bool {
    (f: Faculty) => f.department == d
  }

  function BatchInGroup(d: string, shift: Shift): Batch -> bool {
    (b: Batch) => b.department == d && b.shift == shift
  }

  /** The break of a single-batch build: lunch for a morning batch, dinner for an evening one. */
  function BatchBreak(c: Constraints, batch: Batch, day: string): TimeSlot {
    TimeSlot("break-" + day + "-" + batch.id, day, c.lunchBreak.start, c.lunchBreak.end,
             if batch.shift == Morning then "Lunch Break" else "Dinner Break",
             "", "", batch.name, BreakSlot, c.lunchDuration)
  }

  /** The break of a department build: one lunch shared by every batch. */
  function DepartmentBreak(c: Constraints, day: string): TimeSlot {
    TimeSlot("lunch-" + day, day, c.lunchBreak.start, c.lunchBreak.end, "Lunch Break",
             "", "", "", BreakSlot, c.lunchDuration)
  }

  /** The breaks a build writes, one per working day in order; `batch` None is the department build. */
  function Breaks(c: Constraints, batch: Option<Batch>, days: seq<string>): (r: seq<TimeSlot>)
    ensures |r| == |days|
    ensures forall i :: 0 <= i < |r| ==>
      IsBreak(r[i]) && r[i].day == days[i]
      && r[i].startTime == c.lunchBreak.start && r[i].endTime == c.lunchBreak.end
      && r[i].duration == c.lunchDuration
  {
    if days == [] then []
    else
      var day := days[|days| - 1];
      Breaks(c, batch, days[..|days| - 1])
      + [if batch.Some? then BatchBreak(c, batch.value, day) else DepartmentBreak(c, day)]
  }

  /** The single-batch break list names the meal after the batch's shift and the batch itself. */
  lemma {:induction false} BatchBreaksNamed(c: Constraints, batch: Batch, days: seq<string>)
    ensures forall i :: 0 <= i < |days| ==>
      Breaks(c, Some(batch), days)[i].subject == (if batch.shift == Morning then "Lunch Break" else "Dinner Break")
      && Breaks(c, Some(batch), days)[i].batch == batch.name
      && Breaks(c, Some(batch), days)[i].id == "break-" + days[i] + "-" + batch.id
  {
    if days != [] {
      BatchBreaksNamed(c, batch, days[..|days| - 1]);
    }
  }

  /** Classes never overlap on a day, so no teacher and no room is booked twice. */
  lemma SeparatedMeansNoDoubleBooking(s: seq<TimeSlot>)
    requires Separated(s)
    ensures NoDoubleBooking(s) && Conflicts(s) == []
  {
    ConflictsEmptyIff(s);
  }

  /** Breaks first, then only classes: the breaks of the list are exactly the ones written first. */
  lemma BreaksThenClasses(breaks: seq<TimeSlot>, classes: seq<TimeSlot>)
    requires forall i :: 0 <= i < |breaks| ==> IsBreak(breaks[i])
    requires forall i :: 0 <= i < |classes| ==> NonBreak(classes[i])
    ensures Filter(breaks + classes, IsBreak) == breaks
  {
    FilterAppend(breaks, classes, IsBreak);
    FilterAll(breaks, IsBreak);
    FilterNone(classes, IsBreak);
  }

  /** Every batch of a variant's order comes from the input list. */
  lemma SortedBatchesFromInput(bs: seq<Batch>, variant: nat)
    ensures forall b :: b in SortBatchesForVariant(bs, variant) ==> b in bs
  {
    var r := SortBatchesForVariant(bs, variant);
    forall b | b in r ensures b in bs {
      assert multiset(r)[b] > 0;
    }
  }

  /** `ts` is a class committed for a subject of one of `batches`. */
  predicate ClassFor(ts: TimeSlot, batches: seq<Batch>, subjects: seq<Subject>,
                     pool: seq<Faculty>, rooms: seq<Classroom>, days: seq<string>, shift: Shift) {
    exists b :: b in batches && CommittedForSome(ts, GetSubjectsForBatch(b, subjects), b, pool, rooms, days, shift)
  }

  /** Each slot from index `from` on is a class committed for a subject of one of `batches`. */
  predicate ClassesFor(s: seq<TimeSlot>, from: nat, batches: seq<Batch>, subjects: seq<Subject>,
                       pool: seq<Faculty>, rooms: seq<Classroom>, days: seq<string>, shift: Shift) {
    forall i :: from <= i < |s| ==> ClassFor(s[i], batches, subjects, pool, rooms, days, shift)
  }

  /** A committed slot is a class, never a break. */
  lemma CommittedIsClass(s: seq<TimeSlot>, from: nat, batches: seq<Batch>, subjects: seq<Subject>,
                         pool: seq<Faculty>, rooms: seq<Classroom>, days: seq<string>, shift: Shift)
    requires from <= |s| && ClassesFor(s, from, batches, subjects, pool, rooms, days, shift)
    ensures forall i :: 0 <= i < |s[from..]| ==> NonBreak(s[from..][i])
  {
    forall i | 0 <= i < |s[from..]| ensures NonBreak(s[from..][i]) {
      assert s[from..][i] == s[from + i];
    }
  }

  lemma ClassesForStep(s0: seq<TimeSlot>, s: seq<TimeSlot>, from: nat, batches: seq<Batch>, batch: Batch,
                       subjects: seq<Subject>, pool: seq<Faculty>, rooms: seq<Classroom>,
                       days: seq<string>, shift: Shift)
    requires from <= |s0| && ClassesFor(s0, from, batches, subjects, pool, rooms, days, shift)
    requires batch in batches
    requires GrowsForBatch(s0, s, GetSubjectsForBatch(batch, subjects), batch, pool, rooms, days, shift)
    ensures ClassesFor(s, from, batches, subjects, pool, rooms, days, shift) && s[..from] == s0[..from]
  {
    assert s[..|s0|][..from] == s[..from];
    forall i | from <= i < |s| ensures ClassFor(s[i], batches, subjects, pool, rooms, days, shift) {
      if i < |s0| {
        assert s[i] == s0[i];
      } else {
        assert CommittedForSome(s[i], GetSubjectsForBatch(batch, subjects), batch, pool, rooms, days, shift);
      }
    }
  }

  /**
   * A finished slot list: the breaks, then classes for `batches` that never
   * overlap on a day. Its breaks are exactly the ones written first, and the
   * conflict detector finds nothing in it.
   */
  lemma FinishRun(s: seq<TimeSlot>, breaks: seq<TimeSlot>, batches: seq<Batch>, subjects: seq<Subject>,
                  pool: seq<Faculty>, rooms: seq<Classroom>, days: seq<string>, shift: Shift)
    requires forall i :: 0 <= i < |breaks| ==> IsBreak(breaks[i])
    requires |breaks| <= |s| && s[..|breaks|] == breaks
    requires ClassesFor(s, |breaks|, batches, subjects, pool, rooms, days, shift) && Separated(s)
    ensures Filter(s, IsBreak) == breaks
    ensures NoDoubleBooking(s) && Conflicts(s) == []
  {
    var classes := s[|breaks|..];
    CommittedIsClass(s, |breaks|, batches, subjects, pool, rooms, days, shift);
    assert s == breaks + classes by {
      SplitAt(s, |breaks|);
    }
    BreaksThenClasses(breaks, classes);
    SeparatedMeansNoDoubleBooking(s);
  }

  /** Writes the breaks into an empty workspace, in order. */
  method WriteBreaks(ws: Workspace, breaks: seq<TimeSlot>)
    modifies ws
    requires ws.Valid() && ws.slots == [] && |breaks| == |ws.days|
    requires forall i :: 0 <= i < |breaks| ==> IsBreak(breaks[i]) && breaks[i].day == ws.days[i]
    ensures ws.Valid() && ws.slots == breaks
    ensures ws.workload == old(ws.workload)
  {
    var k := 0;
    while k < |breaks|
      invariant 0 <= k <= |breaks|
      invariant ws.Valid() && ws.slots == breaks[..k] && ws.workload == old(ws.workload)
    {
      assert breaks[k].day in ws.days;
      ws.AddBreak(breaks[k]);
      assert breaks[..k + 1] == breaks[..k] + [breaks[k]];
      k := k + 1;
    }
    assert breaks[..k] == breaks;
  }

  /**
   * `createSingleBatchTimetable`: a draft for one batch, its breaks first,
   * whose classes are each committed for one of the batch's subjects and
   * never double-book a teacher or a room.
   */
  method CreateSingleBatchTimetable(g: Generator, batch: Batch, subjects: seq<Subject>, faculties: seq<Faculty>,
                                    variant: nat, shuffle: seq<Faculty> -> seq<Faculty>,
                                    now: string, createdAt: string, stamp: string)
    returns (t: Timetable)
    requires IsShuffle(shuffle)
    ensures t.status == Draft && t.createdBy == "admin" && t.createdAt == createdAt
    ensures t.department == batch.department && t.shift == batch.shift
    ensures t.name == batch.name + " Timetable v" + NatToString(variant + 1)
    ensures t.id == "timetable-" + batch.id + "-" + now + "-" + NatToString(variant)
    ensures t.approvedBy.None? && t.approvedAt.None? && t.comments.None?
    ensures var days := g.constraints.workingDays; var breaks := Breaks(g.constraints, Some(batch), days);
      |breaks| <= |t.slots| && t.slots[..|breaks|] == breaks && Filter(t.slots, IsBreak) == breaks
      && ClassesFor(t.slots, |breaks|, [batch], subjects, faculties, g.classrooms, days, batch.shift)
    ensures NoDoubleBooking(t.slots) && Conflicts(t.slots) == []
  {
    var c := g.constraints;
    var ws := new Workspace(c.workingDays, Names(faculties), batch.shift);
    var breaks := Breaks(c, Some(batch), c.workingDays);
    WriteBreaks(ws, breaks);
    ws.ScheduleBatch(batch, subjects, faculties, g.classrooms, c, variant, shuffle, stamp);
    ghost var s := ws.slots;
    assert Separated(s);
    assert ClassesFor(s, |breaks|, [batch], subjects, faculties, g.classrooms, c.workingDays, batch.shift) by {
      forall i | |breaks| <= i < |s|
        ensures ClassFor(s[i], [batch], subjects, faculties, g.classrooms, c.workingDays, batch.shift)
      {
        assert batch in [batch];
        assert CommittedForSome(s[i], GetSubjectsForBatch(batch, subjects), batch, faculties, g.classrooms,
                                c.workingDays, batch.shift);
      }
    }
    FinishRun(s, breaks, [batch], subjects, faculties, g.classrooms, c.workingDays, batch.shift);
    t := Timetable("timetable-" + batch.id + "-" + now + "-" + NatToString(variant),
                   batch.name + " Timetable v" + NatToString(variant + 1),
                   batch.department, batch.shift, Draft, ws.slots, "admin", createdAt, None, None, None);
  }

  /** The scheduling pass of `createTimetableVariant`: the breaks, then each batch in the variant's order. */
  method ScheduleVariant(g: Generator, batches: seq<Batch>, subjects: seq<Subject>, faculties: seq<Faculty>,
                         shift: Shift, variant: nat, shuffle: seq<Faculty> -> seq<Faculty>, stamp: string)
    returns (slots: seq<TimeSlot>)
    requires IsShuffle(shuffle)
    requires forall b :: b in batches ==> b.shift == shift
    ensures var days := g.constraints.workingDays; var breaks := Breaks(g.constraints, None, days);
      |breaks| <= |slots| && slots[..|breaks|] == breaks && Filter(slots, IsBreak) == breaks
      && ClassesFor(slots, |breaks|, batches, subjects, faculties, g.classrooms, days, shift)
    ensures NoDoubleBooking(slots) && Conflicts(slots) == []
  {
    var c := g.constraints;
    var ws := new Workspace(c.workingDays, Names(faculties), shift);
    var breaks := Breaks(c, None, c.workingDays);
    WriteBreaks(ws, breaks);
    var sorted := SortBatchesForVariant(batches, variant);
    SortedBatchesFromInput(batches, variant);
    var n := 0;
    while n < |sorted|
      invariant 0 <= n <= |sorted|
      invariant ws.Valid() && ws.shift == shift && ws.days == c.workingDays && ws.names == Names(faculties)
      invariant |breaks| <= |ws.slots| && ws.slots[..|breaks|] == breaks
      invariant ClassesFor(ws.slots, |breaks|, batches, subjects, faculties, g.classrooms, c.workingDays, shift)
    {
      ghost var s0 := ws.slots;
      assert sorted[n] in sorted;
      ws.ScheduleBatch(sorted[n], subjects, faculties, g.classrooms, c, variant, shuffle, stamp);
      ClassesForStep(s0, ws.slots, |breaks|, batches, sorted[n], subjects, faculties, g.classrooms,
                     c.workingDays, shift);
      n := n + 1;
    }
    assert Separated(ws.slots);
    FinishRun(ws.slots, breaks, batches, subjects, faculties, g.classrooms, c.workingDays, shift);
    slots := ws.slots;
  }

  /**
   * `createTimetableVariant`: one draft for every batch of the department and
   * shift, all booked on one shared grid, in the variant's batch order.
   */
  method CreateTimetableVariant(g: Generator, batches: seq<Batch>, subjects: seq<Subject>, faculties: seq<Faculty>,
                                department: string, shiftName: string, shift: Shift, variant: nat,
                                shuffle: seq<Faculty> -> seq<Faculty>, now: string, createdAt: string, stamp: string)
    returns (t: Timetable)
    requires IsShuffle(shuffle)
    requires forall b :: b in batches ==> b.shift == shift
    ensures t.status == Draft && t.createdBy == "admin" && t.createdAt == createdAt
    ensures t.department == department && t.shift == shift
    ensures t.name == department + " " + shiftName + " Timetable v" + NatToString(variant + 1)
    ensures t.id == "timetable-" + now + "-" + NatToString(variant)
    ensures t.approvedBy.None? && t.approvedAt.None? && t.comments.None?
    ensures var days := g.constraints.workingDays; var breaks := Breaks(g.constraints, None, days);
      |breaks| <= |t.slots| && t.slots[..|breaks|] == breaks && Filter(t.slots, IsBreak) == breaks
      && ClassesFor(t.slots, |breaks|, batches, subjects, faculties, g.classrooms, days, shift)
    ensures NoDoubleBooking(t.slots) && Conflicts(t.slots) == []
  {
    var slots := ScheduleVariant(g, batches, subjects, faculties, shift, variant, shuffle, stamp);
    t := Timetable("timetable-" + now + "-" + NatToString(variant),
                   department + " " + shiftName + " Timetable v" + NatToString(variant + 1),
                   department, shift, Draft, slots, "admin", createdAt, None, None, None);
  }

  /** The subjects and teachers a run of department `d` draws on. */
  function DepartmentSubjects(g: Generator, d: string): seq<Subject> {
    Filter(g.subjects, SubjectInDepartment(d))
  }

  function DepartmentFaculties(g: Generator, d: string): seq<Faculty> {
    Filter(g.faculties, FacultyInDepartment(d))
  }

  /** The batches a department run schedules together. */
  function GroupBatches(g: Generator, d: string, shift: Shift): seq<Batch> {
    Filter(g.batches, BatchInGroup(d, shift))
  }

  /**
   * Draft `v` of a single-batch run over `subjects` and `faculties`: named for
   * the batch and the variant, its breaks first and as written, every other slot
   * a class of one of the batch's subjects committed by the scheduler, no conflicts.
   */
  predicate BatchDraft(g: Generator, batch: Batch, subjects: seq<Subject>, faculties: seq<Faculty>,
                       t: Timetable, v: nat) {
    var days := g.constraints.workingDays;
    var breaks := Breaks(g.constraints, Some(batch), days);
    t.status == Draft && t.department == batch.department && t.shift == batch.shift
    && t.name == batch.name + " Timetable v" + NatToString(v + 1)
    && |breaks| <= |t.slots| && t.slots[..|breaks|] == breaks && Filter(t.slots, IsBreak) == breaks
    && ClassesFor(t.slots, |breaks|, [batch], subjects, faculties, g.classrooms, days, batch.shift)
    && Conflicts(t.slots) == []
  }

  /** Draft `v` of a department run over `batches`, `subjects` and `faculties`. */
  predicate DepartmentDraft(g: Generator, department: string, shift: Shift, batches: seq<Batch>,
                            subjects: seq<Subject>, faculties: seq<Faculty>, t: Timetable, v: nat) {
    var days := g.constraints.workingDays;
    var breaks := Breaks(g.constraints, None, days);
    t.status == Draft && t.department == department && t.shift == shift
    && t.name == department + " " + ShiftName(shift) + " Timetable v" + NatToString(v + 1)
    && |breaks| <= |t.slots| && t.slots[..|breaks|] == breaks && Filter(t.slots, IsBreak) == breaks
    && ClassesFor(t.slots, |breaks|, batches, subjects, faculties, g.classrooms, days, shift)
    && Conflicts(t.slots) == []
  }

  /** Each timetable of the list is the draft of its own variant. */
  predicate BatchDrafts(g: Generator, batch: Batch, subjects: seq<Subject>, faculties: seq<Faculty>,
                        ts: seq<Timetable>) {
    forall u :: 0 <= u < |ts| ==> BatchDraft(g, batch, subjects, faculties, ts[u], u)
  }

  lemma BatchDraftsSnoc(g: Generator, batch: Batch, subjects: seq<Subject>, faculties: seq<Faculty>,
                        ts: seq<Timetable>, t: Timetable)
    requires BatchDrafts(g, batch, subjects, faculties, ts) && BatchDraft(g, batch, subjects, faculties, t, |ts|)
    ensures BatchDrafts(g, batch, subjects, faculties, ts + [t])
  {
    IndexedSnoc(ts, t, (x: Timetable, u: nat) => BatchDraft(g, batch, subjects, faculties, x, u));
  }

  predicate DepartmentDrafts(g: Generator, department: string, shift: Shift, batches: seq<Batch>,
                             subjects: seq<Subject>, faculties: seq<Faculty>, ts: seq<Timetable>) {
    forall u :: 0 <= u < |ts| ==> DepartmentDraft(g, department, shift, batches, subjects, faculties, ts[u], u)
  }

  lemma DepartmentDraftsSnoc(g: Generator, department: string, shift: Shift, batches: seq<Batch>,
                             subjects: seq<Subject>, faculties: seq<Faculty>, ts: seq<Timetable>, t: Timetable)
    requires DepartmentDrafts(g, department, shift, batches, subjects, faculties, ts)
    requires DepartmentDraft(g, department, shift, batches, subjects, faculties, t, |ts|)
    ensures DepartmentDrafts(g, department, shift, batches, subjects, faculties, ts + [t])
  {
    IndexedSnoc(ts, t, (x: Timetable, u: nat) => DepartmentDraft(g, department, shift, batches, subjects, faculties, x, u));
  }

  /** One pass of the variant loop of `generateTimetableForBatch`. */
  method BatchVariant(g: Generator, batch: Batch, subjects: seq<Subject>, faculties: seq<Faculty>, v: nat,
                      shuffle: seq<Faculty> -> seq<Faculty>, now: string, createdAt: string, stamp: string)
    returns (t: Timetable)
    requires IsShuffle(shuffle)
    ensures BatchDraft(g, batch, subjects, faculties, t, v)
  {
    t := CreateSingleBatchTimetable(g, batch, subjects, faculties, v, shuffle, now, createdAt, stamp);
  }

  /**
   * `generateTimetableForBatch`: three drafts for the batch, variants 0, 1 and 2
   * in order, each drawing on the subjects and teachers of the batch's department.
   */
  method GenerateTimetableForBatch(g: Generator, batch: Batch, shuffle: seq<Faculty> -> seq<Faculty>,
                                   now: string, createdAt: string, stamp: string)
    returns (ts: seq<Timetable>)
    requires IsShuffle(shuffle)
    ensures |ts| == 3
    ensures forall v :: 0 <= v < 3 ==>
      BatchDraft(g, batch, DepartmentSubjects(g, batch.department), DepartmentFaculties(g, batch.department), ts[v], v)
  {
    var subjects := Filter(g.subjects, SubjectInDepartment(batch.department));
    var faculties := Filter(g.faculties, FacultyInDepartment(batch.department));
    ts := [];
    var v := 0;
    while v < 3
      invariant 0 <= v <= 3 && |ts| == v
      invariant BatchDrafts(g, batch, subjects, faculties, ts)
    {
      var t := BatchVariant(g, batch, subjects, faculties, v, shuffle, now, createdAt, stamp);
      BatchDraftsSnoc(g, batch, subjects, faculties, ts, t);
      ts := ts + [t];
      v := v + 1;
    }
  }

  function ShiftName(shift: Shift): string {
    if shift == Morning then "morning" else "evening"
  }

  /** One pass of the variant loop of `generateTimetable`. */
  method DepartmentVariant(g: Generator, batches: seq<Batch>, subjects: seq<Subject>, faculties: seq<Faculty>,
                           department: string, shift: Shift, v: nat, shuffle: seq<Faculty> -> seq<Faculty>,
                           now: string, createdAt: string, stamp: string)
    returns (t: Timetable)
    requires IsShuffle(shuffle) && forall b :: b in batches ==> b.shift == shift
    ensures DepartmentDraft(g, department, shift, batches, subjects, faculties, t, v)
  {
    t := CreateTimetableVariant(g, batches, subjects, faculties, department, ShiftName(shift), shift, v,
                                shuffle, now, createdAt, stamp);
  }

  /**
   * `generateTimetable`: three drafts for the department and shift, each
   * covering all its batches on one grid.
   */
  method GenerateTimetable(g: Generator, department: string, shift: Shift, shuffle: seq<Faculty> -> seq<Faculty>,
                           now: string, createdAt: string, stamp: string)
    returns (ts: seq<Timetable>)
    requires IsShuffle(shuffle)
    ensures |ts| == 3
    ensures forall v :: 0 <= v < 3 ==>
      DepartmentDraft(g, department, shift, GroupBatches(g, department, shift),
                      DepartmentSubjects(g, department), DepartmentFaculties(g, department), ts[v], v)
  {
    var batches := Filter(g.batches, BatchInGroup(department, shift));
    var subjects := Filter(g.subjects, SubjectInDepartment(department));
    var faculties := Filter(g.faculties, FacultyInDepartment(department));
    ts := [];
    var v := 0;
    while v < 3
      invariant 0 <= v <= 3 && |ts| == v
      invariant DepartmentDrafts(g, department, shift, batches, subjects, faculties, ts)
    {
      var t := DepartmentVariant(g, batches, subjects, faculties, department, shift, v, shuffle, now, createdAt, stamp);
      DepartmentDraftsSnoc(g, department, shift, batches, subjects, faculties, ts, t);
      ts := ts + [t];
      v := v + 1;
    }
  }
}
