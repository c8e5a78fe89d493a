/**
 * The greedy allocator `scheduleSubjectsForBatchWithWorkload`
 * (TimetableGenerator.tsx, lines 173-295) and the four structures it updates
 * in place: the scheduling grid, the output slot list, the teacher-per-day
 * tally of booked time and the teacher-per-day list of booked slots. Tallies
 * are kept in minutes.
 */
module Allocator {
  import opened Wrappers
  import opened Seqs
  import opened Clock
  import opened Entities
  import opened TimeGrid
  import opened Gates
  import opened Selection

  /** The grid after writing `ts` into its own cell. */
  function Book(grid: Grid, ts: TimeSlot): Grid
    requires ts.day in grid
  {
    grid[ts.day := grid[ts.day][ts.Span() := Some(ts)]]
  }

  /** Every class of the list sits in its own grid cell, and that cell is a window of the shift's grid. */
  predicate Placed(grid: Grid, s: seq<TimeSlot>, shift: Shift) {
    forall i :: 0 <= i < |s| && NonBreak(s[i]) ==>
      s[i].day in grid && s[i].Span() in grid[s[i].day] && grid[s[i].day][s[i].Span()] == Some(s[i])
      && s[i].Span() in GetTimeSlots(shift)
  }

  /** No two classes of the list meet on the same day at overlapping times. */
  predicate Separated(s: seq<TimeSlot>) {
    forall i, j :: 0 <= i < j < |s| && NonBreak(s[i]) && NonBreak(s[j]) && s[i].day == s[j].day ==>
      !Overlap(s[i].Span(), s[j].Span())
  }

  /** `f.subjects.includes(subject.id) && f.assignedClasses.includes(batch.id) && !f.isOnLeave`. */
  predicate Eligible(f: Faculty, subject: Subject, batch: Batch) {
    subject.id in f.subjects && batch.id in f.assignedClasses && !f.isOnLeave
  }

  function EligibleTest(subject: Subject, batch: Batch): Faculty -> bool {
    f => Eligible(f, subject, batch)
  }

  function KindFor(t: SubjectType): SlotKind {
    if t == Lab then LabSlot else LectureSlot
  }

  /**
   * What every slot the allocator writes for `subject` and `batch` satisfies:
   * a class of the subject's kind, name and length, on a working day, in a
   * window of the shift's grid, taught by an eligible teacher of `pool` who
   * works that day, in a room of the right type that is open that day.
   */
  predicate Committed(ts: TimeSlot, subject: Subject, batch: Batch, pool: seq<Faculty>, rooms: seq<Classroom>,
                      days: seq<string>, shift: Shift) {
    ts.kind == KindFor(subject.stype) && ts.subject == subject.name && ts.batch == batch.name
    && ts.duration == subject.duration && ts.day in days && ts.Span() in GetTimeSlots(shift)
    && (exists f :: f in pool && f.name == ts.faculty && Eligible(f, subject, batch) && ts.day in f.availability)
    && (exists c :: c in rooms && c.name == ts.classroom && Suitable(c, subject.stype) && ts.day in c.availability)
  }

  /** `s` is `s0` followed by slots committed for `subject`. */
  predicate Grows(s0: seq<TimeSlot>, s: seq<TimeSlot>, subject: Subject, batch: Batch, pool: seq<Faculty>,
                  rooms: seq<Classroom>, days: seq<string>, shift: Shift) {
    |s0| <= |s| && s[..|s0|] == s0
    && forall i :: |s0| <= i < |s| ==> Committed(s[i], subject, batch, pool, rooms, days, shift)
  }

  /**
   * Tallies only grow, and each one is unchanged or stays below the daily cap
   * plus one session of `duration` minutes.
   */
  predicate TalliesBounded(w0: map<(string, string), nat>, w: map<(string, string), nat>, cap: nat, duration: nat) {
    w.Keys == w0.Keys && forall p :: p in w ==> w0[p] <= w[p] && (w[p] == w0[p] || w[p] < cap * 60 + duration)
  }

  /** The tally `p` after one more session of `d` minutes. */
  function AddTally(w: map<(string, string), nat>, p: (string, string), d: nat): map<(string, string), nat>
    requires p in w
  {
    w[p := w[p] + d]
  }

  /** Adding one session to a tally still under the cap keeps the tallies bounded. */
  lemma TalliesStep(w0: map<(string, string), nat>, w: map<(string, string), nat>, p: (string, string),
                    cap: nat, duration: nat)
    requires TalliesBounded(w0, w, cap, duration) && p in w && w[p] < cap * 60
    ensures TalliesBounded(w0, AddTally(w, p, duration), cap, duration)
  {
    var w' := AddTally(w, p, duration);
    forall q | q in w' ensures w0[q] <= w'[q] && (w'[q] == w0[q] || w'[q] < cap * 60 + duration) {
      if q != p {
        assert w'[q] == w[q];
      }
    }
  }

  /** `ts` is committed for one of `subjects`. */
  predicate CommittedForSome(ts: TimeSlot, subjects: seq<Subject>, batch: Batch, pool: seq<Faculty>,
                             rooms: seq<Classroom>, days: seq<string>, shift: Shift) {
    exists subject :: subject in subjects && Committed(ts, subject, batch, pool, rooms, days, shift)
  }

  /** `s` is `s0` followed by slots each committed for one of `subjects`. */
  predicate GrowsForBatch(s0: seq<TimeSlot>, s: seq<TimeSlot>, subjects: seq<Subject>, batch: Batch,
                          pool: seq<Faculty>, rooms: seq<Classroom>, days: seq<string>, shift: Shift) {
    |s0| <= |s| && s[..|s0|] == s0
    && forall i :: |s0| <= i < |s| ==> CommittedForSome(s[i], subjects, batch, pool, rooms, days, shift)
  }

  lemma GrowsSnoc(s0: seq<TimeSlot>, s: seq<TimeSlot>, ts: TimeSlot, subject: Subject, batch: Batch,
                  pool: seq<Faculty>, rooms: seq<Classroom>, days: seq<string>, shift: Shift)
    requires Grows(s0, s, subject, batch, pool, rooms, days, shift)
    requires Committed(ts, subject, batch, pool, rooms, days, shift)
    ensures Grows(s0, s + [ts], subject, batch, pool, rooms, days, shift)
    ensures TotalMinutes((s + [ts])[|s0|..]) == TotalMinutes(s[|s0|..]) + ts.duration
  {
    assert (s + [ts])[..|s0|] == s[..|s0|];
    assert (s + [ts])[|s0|..] == s[|s0|..] + [ts];
    TotalMinutesSnoc(s[|s0|..], ts);
  }

  lemma GrowsTrans(s0: seq<TimeSlot>, s1: seq<TimeSlot>, s2: seq<TimeSlot>, subject: Subject, batch: Batch,
                   pool: seq<Faculty>, rooms: seq<Classroom>, days: seq<string>, shift: Shift)
    requires Grows(s0, s1, subject, batch, pool, rooms, days, shift)
    requires Grows(s1, s2, subject, batch, pool, rooms, days, shift)
    ensures Grows(s0, s2, subject, batch, pool, rooms, days, shift)
    ensures TotalMinutes(s2[|s0|..]) == TotalMinutes(s1[|s0|..]) + TotalMinutes(s2[|s1|..])
  {
    assert s2[..|s1|][..|s0|] == s2[..|s0|];
    assert s2[|s0|..] == s1[|s0|..] + s2[|s1|..];
    TotalMinutesAppend(s1[|s0|..], s2[|s1|..]);
  }

  lemma GrowsForBatchStep(s0: seq<TimeSlot>, s1: seq<TimeSlot>, s2: seq<TimeSlot>, subjects: seq<Subject>,
                          subject: Subject, batch: Batch, pool: seq<Faculty>, rooms: seq<Classroom>,
                          days: seq<string>, shift: Shift)
    requires GrowsForBatch(s0, s1, subjects, batch, pool, rooms, days, shift)
    requires subject in subjects && Grows(s1, s2, subject, batch, pool, rooms, days, shift)
    ensures GrowsForBatch(s0, s2, subjects, batch, pool, rooms, days, shift)
  {
    assert s2[..|s1|][..|s0|] == s2[..|s0|];
    forall i | |s0| <= i < |s2|
      ensures CommittedForSome(s2[i], subjects, batch, pool, rooms, days, shift)
    {
      if i < |s1| {
        assert s2[i] == s1[i];
      } else {
        assert Committed(s2[i], subject, batch, pool, rooms, days, shift);
      }
    }
  }

  /** Writing a class into a free cell of its own window keeps every class in its cell. */
  lemma PlacedAfterCommit(grid: Grid, s: seq<TimeSlot>, shift: Shift, ts: TimeSlot)
    requires Placed(grid, s, shift) && NonBreak(ts) && ts.day in grid
    requires CellFree(grid[ts.day], ts.Span()) && ts.Span() in GetTimeSlots(shift)
    ensures Placed(Book(grid, ts), s + [ts], shift)
  {
    var g := Book(grid, ts);
    var s' := s + [ts];
    forall i | 0 <= i < |s'| && NonBreak(s'[i])
      ensures s'[i].day in g && s'[i].Span() in g[s'[i].day] && g[s'[i].day][s'[i].Span()] == Some(s'[i])
      && s'[i].Span() in GetTimeSlots(shift)
    {
      if i < |s| {
        assert s'[i] == s[i];
        assert !(s[i].day == ts.day && s[i].Span() == ts.Span());
      }
    }
  }

  /** Two distinct windows of one shift's grid never overlap, so a class in a free cell overlaps no other class. */
  lemma SeparatedAfterCommit(grid: Grid, s: seq<TimeSlot>, shift: Shift, ts: TimeSlot)
    requires Placed(grid, s, shift) && Separated(s) && NonBreak(ts) && ts.day in grid
    requires CellFree(grid[ts.day], ts.Span()) && ts.Span() in GetTimeSlots(shift)
    ensures Separated(s + [ts])
  {
    var s' := s + [ts];
    forall i, j | 0 <= i < j < |s'| && NonBreak(s'[i]) && NonBreak(s'[j]) && s'[i].day == s'[j].day
      ensures !Overlap(s'[i].Span(), s'[j].Span())
    {
      assert s'[i] == s[i];
      if j == |s| {
        assert s[i].Span() != ts.Span();
        GridWindowsDisjoint(shift, s[i].Span(), ts.Span());
      } else {
        assert s'[j] == s[j];
      }
    }
  }

  /** A break moves no class and overlaps none. */
  lemma BreakKeepsInvariants(grid: Grid, s: seq<TimeSlot>, shift: Shift, ts: TimeSlot)
    requires Placed(grid, s, shift) && Separated(s)
    requires IsBreak(ts) && ts.day in grid
    requires forall i :: 0 <= i < |s| && NonBreak(s[i]) ==> !(s[i].day == ts.day && s[i].Span() == ts.Span())
    ensures Placed(Book(grid, ts), s + [ts], shift) && Separated(s + [ts])
  {
    var s' := s + [ts];
    var g := Book(grid, ts);
    forall i | 0 <= i < |s'| && NonBreak(s'[i])
      ensures s'[i].day in g && s'[i].Span() in g[s'[i].day] && g[s'[i].day][s'[i].Span()] == Some(s'[i])
      && s'[i].Span() in GetTimeSlots(shift)
    {
      assert s'[i] == s[i];
    }
    forall i, j | 0 <= i < j < |s'| && NonBreak(s'[i]) && NonBreak(s'[j]) && s'[i].day == s'[j].day
      ensures !Overlap(s'[i].Span(), s'[j].Span())
    {
      assert s'[i] == s[i] && s'[j] == s[j];
    }
  }

  /** Booking one window of a chain leaves every later window of the chain open for the teacher. */
  lemma LaterWindowsStayOpen(dg: DayGrid, ts: TimeSlot, windows: seq<Window>, k: nat, day: string, f: Faculty)
    requires k < |windows| && Chain(windows) && ts.Span() == windows[k] && CellFree(dg, windows[k])
    requires forall j :: k < j < |windows| ==> Open(dg, day, f, windows[j])
    ensures forall j :: k < j < |windows| ==> Open(dg[windows[k] := Some(ts)], day, f, windows[j])
  {
    forall j | k < j < |windows| ensures Open(dg[windows[k] := Some(ts)], day, f, windows[j]) {
      assert Before(windows[k], windows[j]);
      FacultyConflictAfterBooking(dg, windows[k], ts, windows[j], f.name);
    }
  }

  /**
   * The state invariant of a run: every working day has a grid, every tracked
   * teacher has a tally and a slot list for every working day, and classes
   * sit in their cells and never overlap on a day.
   */
  predicate Consistent(days: seq<string>, names: seq<string>, shift: Shift, grid: Grid, s: seq<TimeSlot>,
                       workload: map<(string, string), nat>, dailySlots: map<(string, string), seq<TimeSlot>>) {
    (forall d :: d in days ==> d in grid)
    && (forall f, d :: f in names && d in days ==> (f, d) in workload)
    && workload.Keys == dailySlots.Keys
    && Placed(grid, s, shift) && Separated(s)
  }

  lemma CommitKeepsConsistent(days: seq<string>, names: seq<string>, shift: Shift, grid: Grid, s: seq<TimeSlot>,
                              workload: map<(string, string), nat>, dailySlots: map<(string, string), seq<TimeSlot>>,
                              ts: TimeSlot)
    requires Consistent(days, names, shift, grid, s, workload, dailySlots)
    requires NonBreak(ts) && ts.day in grid && ts.Span() in GetTimeSlots(shift)
    requires CellFree(grid[ts.day], ts.Span()) && (ts.faculty, ts.day) in workload
    ensures var p := (ts.faculty, ts.day);
      Consistent(days, names, shift, Book(grid, ts), s + [ts], AddTally(workload, p, ts.duration),
                 dailySlots[p := dailySlots[p] + [ts]])
  {
    PlacedAfterCommit(grid, s, shift, ts);
    SeparatedAfterCommit(grid, s, shift, ts);
  }

  lemma BreakKeepsConsistent(days: seq<string>, names: seq<string>, shift: Shift, grid: Grid, s: seq<TimeSlot>,
                             workload: map<(string, string), nat>, dailySlots: map<(string, string), seq<TimeSlot>>,
                             ts: TimeSlot)
    requires Consistent(days, names, shift, grid, s, workload, dailySlots)
    requires IsBreak(ts) && ts.day in grid
    requires forall i :: 0 <= i < |s| && NonBreak(s[i]) ==> !(s[i].day == ts.day && s[i].Span() == ts.Span())
    ensures Consistent(days, names, shift, Book(grid, ts), s + [ts], workload, dailySlots)
  {
    BreakKeepsInvariants(grid, s, shift, ts);
  }

  function Pairs(names: seq<string>, days: seq<string>): set<(string, string)> {
    set f, d | f in names && d in days :: (f, d)
  }

  /** `schedule[day][key] = null` for every window of the shift. */
  function EmptyDay(shift: Shift): DayGrid {
    map w | w in GetTimeSlots(shift) :: None
  }

  function EmptyGrid(days: seq<string>, shift: Shift): Grid {
    map d | d in days :: EmptyDay(shift)
  }

  /**
   * The mutable state of one generation run. `days` are the configured working
   * days, `names` the teachers whose tallies are tracked, `shift` the shift
   * whose grid is used.
   */
  class Workspace {
    const days: seq<string>
    const names: seq<string>
    const shift: Shift
    var grid: Grid
    var slots: seq<TimeSlot>
    var workload: map<(string, string), nat>
    var dailySlots: map<(string, string), seq<TimeSlot>>

    ghost predicate Valid()
      reads this
    {
      Consistent(days, names, shift, grid, slots, workload, dailySlots)
    }

    /** The tracking maps at zero and the grid with every window of every working day free. */
    constructor(days: seq<string>, names: seq<string>, shift: Shift)
      ensures this.days == days && this.names == names && this.shift == shift
      ensures grid == EmptyGrid(days, shift) && slots == []
      ensures workload == (map p | p in Pairs(names, days) :: 0)
      ensures dailySlots == (map p | p in Pairs(names, days) :: [])
      ensures Valid()
    {
      this.days := days;
      this.names := names;
      this.shift := shift;
      grid := EmptyGrid(days, shift);
      slots := [];
      workload := map p | p in Pairs(names, days) :: 0;
      dailySlots := map p | p in Pairs(names, days) :: [];
      new;
      assert forall f, d :: f in names && d in days ==> (f, d) in Pairs(names, days);
    }

    /** Writes a break into its cell and appends it to the slot list. */
    method AddBreak(ts: TimeSlot)
      modifies this
      requires Valid() && IsBreak(ts) && ts.day in grid
      requires forall i :: 0 <= i < |slots| && NonBreak(slots[i]) ==> !(slots[i].day == ts.day && slots[i].Span() == ts.Span())
      ensures Valid()
      ensures grid == Book(old(grid), ts) && slots == old(slots) + [ts]
      ensures workload == old(workload) && dailySlots == old(dailySlots)
    {
      BreakKeepsConsistent(days, names, shift, grid, slots, workload, dailySlots, ts);
      grid, slots := Book(grid, ts), slots + [ts];
    }

    /**
     * Lines 270-289: write the class into its cell, append it to the slot
     * list, add its minutes to the teacher's day tally and append it to the
     * teacher's day list.
     */
    method Commit(ts: TimeSlot)
      modifies this
      requires Valid() && NonBreak(ts) && ts.day in grid && ts.Span() in GetTimeSlots(shift)
      requires CellFree(grid[ts.day], ts.Span()) && (ts.faculty, ts.day) in workload
      ensures Valid()
      ensures grid == Book(old(grid), ts) && slots == old(slots) + [ts]
      ensures var p := (ts.faculty, ts.day);
        workload == AddTally(old(workload), p, ts.duration)
        && dailySlots == old(dailySlots)[p := old(dailySlots)[p] + [ts]]
    {
      CommitKeepsConsistent(days, names, shift, grid, slots, workload, dailySlots, ts);
      var p := (ts.faculty, ts.day);
      grid, slots := Book(grid, ts), slots + [ts];
      workload, dailySlots := AddTally(workload, p, ts.duration), dailySlots[p := dailySlots[p] + [ts]];
    }

    /**
     * One window of the innermost loop once the attempt is counted and the
     * daily cap passed (lines 256-290): find a room, run the consecutive-hours
     * test, and book the window when the session still fits the quota.
     */
    method TryWindow(subject: Subject, quota: nat, batch: Batch, f: Faculty, day: string,
                     ghost pool: seq<Faculty>, rooms: seq<Classroom>, c: Constraints, stamp: string,
                     w: Window, placed: nat)
      returns (booked: Option<TimeSlot>)
      modifies this
      requires Valid() && day in days && f.name in names && f in pool && Eligible(f, subject, batch)
      requires w in GetTimeSlots(shift) && Open(grid[day], day, f, w)
      requires workload[(f.name, day)] < c.maxDailyHoursPerFaculty * 60
      ensures Valid()
      ensures booked.None? ==>
        grid == old(grid) && slots == old(slots) && workload == old(workload) && dailySlots == old(dailySlots)
      ensures booked.Some? ==> var ts := booked.value; var p := (ts.faculty, ts.day);
        ts.day == day && ts.faculty == f.name && ts.duration == subject.duration
        && ts.Span() == w && Committed(ts, subject, batch, pool, rooms, days, shift)
        && placed + subject.duration <= quota * 60 && day in old(grid)
        && CellFree(old(grid)[day], w) && !FacultyConflict(old(grid)[day], w, f.name)
        && ClassroomFree(old(grid)[day], w, ts.classroom) && old(workload)[p] < c.maxDailyHoursPerFaculty * 60
        && grid == Book(old(grid), ts) && slots == old(slots) + [ts]
        && workload == AddTally(old(workload), p, ts.duration)
        && dailySlots == old(dailySlots)[p := old(dailySlots)[p] + [ts]]
    {
      booked := None;
      var room := FindAvailableClassroom(rooms, day, w, subject.stype, grid[day]);
      if room.None? {
        return;
      }
      var violates := WouldViolateConsecutiveHours(f.name, day, w, dailySlots[(f.name, day)],
                                                   c.minBreakBetweenClasses, c.maxConsecutiveHoursPerFaculty);
      if violates {
        return;
      }
      if placed + subject.duration <= quota * 60 {
        assert w.start < 6000;
        var ts := TimeSlot(batch.id + "-" + subject.id + "-" + day + "-" + FormatTime(w.start) + "-" + stamp,
                           day, w.start, w.end, subject.name, f.name, room.value.name, batch.name,
                           KindFor(subject.stype), subject.duration);
        assert Committed(ts, subject, batch, pool, rooms, days, shift);
        Commit(ts);
        booked := Some(ts);
      }
    }

    /**
     * The innermost loop (lines 248-291): walk the windows that were open for
     * teacher `f` on `day` when the day began, and book each one a room and
     * the consecutive-hours test allow, while the quota, the attempt cap and
     * the teacher's daily cap leave room.
     */
    method ScheduleOnDay(subject: Subject, quota: nat, batch: Batch, f: Faculty, day: string,
                         ghost pool: seq<Faculty>, rooms: seq<Classroom>, c: Constraints, stamp: string,
                         placed0: nat, attempts0: nat)
      returns (placed: nat, attempts: nat)
      modifies this
      requires Valid() && day in days && f.name in names && batch.shift == shift
      requires f in pool && Eligible(f, subject, batch)
      requires placed0 <= quota * 60 && attempts0 <= 100
      ensures Valid()
      ensures Grows(old(slots), slots, subject, batch, pool, rooms, days, shift)
      ensures placed == placed0 + TotalMinutes(slots[|old(slots)|..]) && placed <= quota * 60
      ensures attempts0 <= attempts <= 100 && |slots| - |old(slots)| <= attempts - attempts0
      ensures TalliesBounded(old(workload), workload, c.maxDailyHoursPerFaculty, subject.duration)
    {
      ghost var slots0, workload0 := slots, workload;
      var windows := GetAvailableSlots(day, grid[day], batch, f);
      placed, attempts := placed0, attempts0;
      var k := 0;
      while k < |windows|
        invariant 0 <= k <= |windows|
        invariant Valid() && day in grid
        invariant forall j :: k <= j < |windows| ==> Open(grid[day], day, f, windows[j])
        invariant Grows(slots0, slots, subject, batch, pool, rooms, days, shift)
        invariant placed == placed0 + TotalMinutes(slots[|slots0|..]) && placed <= quota * 60
        invariant attempts0 <= attempts <= 100 && |slots| - |slots0| <= attempts - attempts0
        invariant TalliesBounded(workload0, workload, c.maxDailyHoursPerFaculty, subject.duration)
      {
        if placed >= quota * 60 || attempts >= 100 {
          break;
        }
        attempts := attempts + 1;
        if workload[(f.name, day)] >= c.maxDailyHoursPerFaculty * 60 {
          break;
        }
        ghost var before, slotsBefore, workloadBefore := grid[day], slots, workload;
        var booked := TryWindow(subject, quota, batch, f, day, pool, rooms, c, stamp, windows[k], placed);
        if booked.Some? {
          TalliesStep(workload0, workloadBefore, (booked.value.faculty, booked.value.day), c.maxDailyHoursPerFaculty,
                      subject.duration);
          LaterWindowsStayOpen(before, booked.value, windows, k, day, f);
          GrowsSnoc(slots0, slotsBefore, booked.value, subject, batch, pool, rooms, days, shift);
          placed := placed + subject.duration;
        }
        k := k + 1;
      }
    }

    /**
     * The day loop (lines 233-292): on each working day where the teacher is
     * still under the daily cap, run the window loop, while the quota and the
     * attempt cap leave room.
     */
    method ScheduleWithFaculty(subject: Subject, quota: nat, batch: Batch, f: Faculty,
                               ghost pool: seq<Faculty>, rooms: seq<Classroom>, c: Constraints, stamp: string,
                               placed0: nat, attempts0: nat)
      returns (placed: nat, attempts: nat)
      modifies this
      requires Valid() && f.name in names && batch.shift == shift
      requires f in pool && Eligible(f, subject, batch)
      requires placed0 <= quota * 60 && attempts0 <= 100
      ensures Valid()
      ensures Grows(old(slots), slots, subject, batch, pool, rooms, days, shift)
      ensures placed == placed0 + TotalMinutes(slots[|old(slots)|..]) && placed <= quota * 60
      ensures attempts0 <= attempts <= 100 && |slots| - |old(slots)| <= attempts - attempts0
      ensures TalliesBounded(old(workload), workload, c.maxDailyHoursPerFaculty, subject.duration)
    {
      ghost var slots0, workload0 := slots, workload;
      placed, attempts := placed0, attempts0;
      var i := 0;
      while i < |days|
        invariant 0 <= i <= |days|
        invariant Valid()
        invariant Grows(slots0, slots, subject, batch, pool, rooms, days, shift)
        invariant placed == placed0 + TotalMinutes(slots[|slots0|..]) && placed <= quota * 60
        invariant attempts0 <= attempts <= 100 && |slots| - |slots0| <= attempts - attempts0
        invariant TalliesBounded(workload0, workload, c.maxDailyHoursPerFaculty, subject.duration)
      {
        if placed >= quota * 60 || attempts >= 100 {
          break;
        }
        var day := days[i];
        if workload[(f.name, day)] < c.maxDailyHoursPerFaculty * 60 {
          ghost var slots1 := slots;
          placed, attempts := ScheduleOnDay(subject, quota, batch, f, day, pool, rooms, c, stamp, placed, attempts);
          GrowsTrans(slots0, slots1, slots, subject, batch, pool, rooms, days, shift);
        }
        i := i + 1;
      }
    }

    /**
     * One subject of the batch (lines 206-293): the eligible teachers, in the
     * variant's order, each tried over the working days until the weekly quota
     * or the attempt cap is reached. No eligible teacher: nothing is booked.
     */
    method ScheduleSubject(subject: Subject, quota: nat, batch: Batch, faculties: seq<Faculty>,
                           rooms: seq<Classroom>, c: Constraints, variant: nat,
                           shuffle: seq<Faculty> -> seq<Faculty>, stamp: string)
      modifies this
      requires Valid() && batch.shift == shift && IsShuffle(shuffle)
      requires forall f :: f in faculties ==> f.name in names
      ensures Valid()
      ensures Grows(old(slots), slots, subject, batch, faculties, rooms, days, shift)
      ensures TotalMinutes(slots[|old(slots)|..]) <= quota * 60 && |slots| - |old(slots)| <= 100
      ensures TalliesBounded(old(workload), workload, c.maxDailyHoursPerFaculty, subject.duration)
      ensures (forall f :: f in faculties ==> !Eligible(f, subject, batch)) ==>
        grid == old(grid) && slots == old(slots) && workload == old(workload)
    {
      ghost var slots0 := slots;
      var available := Filter(faculties, EligibleTest(subject, batch));
      if forall f :: f in faculties ==> !Eligible(f, subject, batch) {
        FilterNone(faculties, EligibleTest(subject, batch));
      }
      if |available| == 0 {
        return;
      }
      var selected := SelectFacultiesForVariant(available, variant, shuffle);
      assert forall f :: f in selected ==> f in available by {
        forall f | f in selected ensures f in available {
          assert multiset(selected)[f] > 0;
        }
      }
      var placed, attempts := 0, 0;
      var n := 0;
      while n < |selected|
        invariant 0 <= n <= |selected|
        invariant Valid()
        invariant Grows(slots0, slots, subject, batch, faculties, rooms, days, shift)
        invariant placed == TotalMinutes(slots[|slots0|..]) && placed <= quota * 60
        invariant attempts <= 100 && |slots| - |slots0| <= attempts
        invariant TalliesBounded(old(workload), workload, c.maxDailyHoursPerFaculty, subject.duration)
      {
        if placed >= quota * 60 || attempts >= 100 {
          break;
        }
        ghost var slots1 := slots;
        var f := selected[n];
        placed, attempts := ScheduleWithFaculty(subject, quota, batch, f, faculties, rooms, c, stamp, placed, attempts);
        GrowsTrans(slots0, slots1, slots, subject, batch, faculties, rooms, days, shift);
        n := n + 1;
      }
    }

    /**
     * `scheduleSubjectsForBatchWithWorkload` (lines 173-295): the batch's
     * subjects, one per distinct id in order of first appearance, each with the
     * weekly hours of the last subject listed under that id.
     */
    method ScheduleBatch(batch: Batch, subjects: seq<Subject>, faculties: seq<Faculty>, rooms: seq<Classroom>,
                         c: Constraints, variant: nat, shuffle: seq<Faculty> -> seq<Faculty>, stamp: string)
      modifies this
      requires Valid() && batch.shift == shift && IsShuffle(shuffle)
      requires forall f :: f in faculties ==> f.name in names
      ensures Valid()
      ensures GrowsForBatch(old(slots), slots, GetSubjectsForBatch(batch, subjects), batch, faculties, rooms, days, shift)
      ensures workload.Keys == old(workload).Keys
    {
      var batchSubjects := GetSubjectsForBatch(batch, subjects);
      var ids := SubjectIds(batchSubjects);
      ghost var slots0 := slots;
      var n := 0;
      while n < |ids|
        invariant 0 <= n <= |ids|
        invariant Valid() && workload.Keys == old(workload).Keys
        invariant GrowsForBatch(slots0, slots, batchSubjects, batch, faculties, rooms, days, shift)
      {
        assert ids[n] in ids;
        var subject := FirstWithId(batchSubjects, ids[n]);
        var quota := Quota(batchSubjects, ids[n]);
        ghost var slots1 := slots;
        ScheduleSubject(subject, quota, batch, faculties, rooms, c, variant, shuffle, stamp);
        GrowsForBatchStep(slots0, slots1, slots, batchSubjects, subject, batch, faculties, rooms, days, shift);
        n := n + 1;
      }
    }
  }
}
