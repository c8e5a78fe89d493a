/**
 * The checks the allocator runs before it books a window
 * (TimetableGenerator.tsx): whether a grid cell is free, whether the teacher
 * is already busy (`checkFacultyConflict`, lines 652-669), which windows stay
 * open for a teacher on a day (`getAvailableSlotsWithWorkload`, lines 624-650),
 * which room can host the session (`findAvailableClassroom` and
 * `checkClassroomAvailability`, lines 478-519), and the approximate
 * consecutive-hours test (`wouldViolateConsecutiveHoursSimplified`, lines
 * 316-349).
 */
module Gates {
  import opened Wrappers
  import opened Seqs
  import opened Clock
  import opened Entities
  import opened TimeGrid

  /** One day of the scheduling grid: window -> booked slot, or null. */
  type DayGrid = map<Window, Option<TimeSlot>>

  /** The scheduling grid: day -> that day's cells. */
  type Grid = map<string, DayGrid>

  /** `!schedule[day][key]`: the cell is missing or holds null. */
  predicate CellFree(dg: DayGrid, w: Window) {
    w !in dg || dg[w].None?
  }

  /** A class (not a break) of teacher `name` booked on the day overlaps `w`. */
  predicate FacultyConflict(dg: DayGrid, w: Window, name: string) {
    exists k :: k in dg && dg[k].Some? && dg[k].value.faculty == name && NonBreak(dg[k].value)
      && Overlap(w, dg[k].value.Span())
  }

  /** No class (not a break) booked on the day in room `room` overlaps `w`. */
  predicate ClassroomFree(dg: DayGrid, w: Window, room: string) {
    !exists k :: k in dg && dg[k].Some? && dg[k].value.classroom == room && NonBreak(dg[k].value)
      && Overlap(w, dg[k].value.Span())
  }

  /** Booking a free cell adds exactly the new slot to what the teacher check sees. */
  lemma FacultyConflictAfterBooking(dg: DayGrid, w0: Window, ts: TimeSlot, w: Window, name: string)
    requires CellFree(dg, w0)
    ensures FacultyConflict(dg[w0 := Some(ts)], w, name) <==>
      FacultyConflict(dg, w, name) || (ts.faculty == name && NonBreak(ts) && Overlap(w, ts.Span()))
  {
    var dg' := dg[w0 := Some(ts)];
    if FacultyConflict(dg', w, name) {
      var k :| k in dg' && dg'[k].Some? && dg'[k].value.faculty == name && NonBreak(dg'[k].value)
        && Overlap(w, dg'[k].value.Span());
      if k != w0 {
        assert k in dg && dg[k] == dg'[k];
      }
    }
    if FacultyConflict(dg, w, name) {
      var k :| k in dg && dg[k].Some? && dg[k].value.faculty == name && NonBreak(dg[k].value)
        && Overlap(w, dg[k].value.Span());
      assert k != w0 && dg'[k] == dg[k];
    }
    if ts.faculty == name && NonBreak(ts) && Overlap(w, ts.Span()) {
      assert w0 in dg' && dg'[w0] == Some(ts);
    }
  }

  /** Booking a free cell adds exactly the new slot to what the room check sees. */
  lemma ClassroomFreeAfterBooking(dg: DayGrid, w0: Window, ts: TimeSlot, w: Window, room: string)
    requires CellFree(dg, w0)
    ensures ClassroomFree(dg[w0 := Some(ts)], w, room) <==>
      ClassroomFree(dg, w, room) && !(ts.classroom == room && NonBreak(ts) && Overlap(w, ts.Span()))
  {
    var dg' := dg[w0 := Some(ts)];
    if !ClassroomFree(dg', w, room) {
      var k :| k in dg' && dg'[k].Some? && dg'[k].value.classroom == room && NonBreak(dg'[k].value)
        && Overlap(w, dg'[k].value.Span());
      if k != w0 {
        assert k in dg && dg[k] == dg'[k];
      }
    }
    if !ClassroomFree(dg, w, room) {
      var k :| k in dg && dg[k].Some? && dg[k].value.classroom == room && NonBreak(dg[k].value)
        && Overlap(w, dg[k].value.Span());
      assert k != w0 && dg'[k] == dg[k];
    }
    if ts.classroom == room && NonBreak(ts) && Overlap(w, ts.Span()) {
      assert w0 in dg' && dg'[w0] == Some(ts);
    }
  }

  /** A window stays open for a teacher: its cell is free, the teacher works that day and is not busy then. */
  predicate Open(dg: DayGrid, day: string, f: Faculty, w: Window) {
    CellFree(dg, w) && day in f.availability && !FacultyConflict(dg, w, f.name)
  }

  function OpenTest(dg: DayGrid, day: string, f: Faculty): Window -> bool {
    w => Open(dg, day, f, w)
  }

  /**
   * `getAvailableSlotsWithWorkload`: the batch's grid windows that are open for
   * the teacher, in grid order. (The teacher's day list the source passes in
   * is not consulted there.)
   */
  function GetAvailableSlots(day: string, dg: DayGrid, batch: Batch, f: Faculty): (r: seq<Window>)
    ensures forall w :: w in r <==> w in GetTimeSlots(batch.shift) && Open(dg, day, f, w)
    ensures Chain(r)
  {
    var ws := GetTimeSlots(batch.shift);
    var r := Filter(ws, OpenTest(dg, day, f));
    forall w | w in ws && Open(dg, day, f, w) ensures w in r {
      FilterComplete(ws, OpenTest(dg, day, f), w);
    }
    ChainFilter(ws, OpenTest(dg, day, f));
    r
  }

  /**
   * The room-type rule of `findAvailableClassroom`: the same type, or a
   * lecture room for a theory or elective subject.
   */
  predicate Suitable(c: Classroom, t: SubjectType) {
    (c.rtype == LabRoom && t == Lab) || (c.rtype == LectureRoom && (t == Theory || t == Elective))
  }

  /** Lab subjects get lab rooms only, and every other subject lecture rooms only. */
  lemma SuitableMeans(c: Classroom, t: SubjectType)
    ensures Suitable(c, t) <==> (c.rtype == LabRoom <==> t == Lab)
  {
  }

  /** A room can host the session: right type, open that day, not booked at an overlapping time. */
  predicate RoomFits(c: Classroom, day: string, w: Window, t: SubjectType, dg: DayGrid) {
    Suitable(c, t) && day in c.availability && ClassroomFree(dg, w, c.name)
  }

  /** `findAvailableClassroom`: the first room, in list order, that fits; None when no room does. */
  function FindAvailableClassroom(rooms: seq<Classroom>, day: string, w: Window, t: SubjectType, dg: DayGrid)
    : (r: Option<Classroom>)
    ensures r.Some? ==> r.value in rooms && RoomFits(r.value, day, w, t, dg)
    ensures r.None? <==> forall c :: c in rooms ==> !RoomFits(c, day, w, t, dg)
    ensures r.Some? ==> exists i :: (0 <= i < |rooms| && rooms[i] == r.value
      && forall j :: 0 <= j < i ==> !RoomFits(rooms[j], day, w, t, dg))
  {
    if rooms == [] then None
    else if RoomFits(rooms[0], day, w, t, dg) then Some(rooms[0])
    else
      var r := FindAvailableClassroom(rooms[1..], day, w, t, dg);
      assert forall c :: c in rooms ==> c == rooms[0] || c in rooms[1..];
      assert r.Some? ==> exists i :: (0 <= i < |rooms| && rooms[i] == r.value
        && forall j :: 0 <= j < i ==> !RoomFits(rooms[j], day, w, t, dg)) by {
        if r.Some? {
          var i :| 0 <= i < |rooms[1..]| && rooms[1..][i] == r.value
            && forall j :: 0 <= j < i ==> !RoomFits(rooms[1..][j], day, w, t, dg);
          FirstFitPastHead(rooms, day, w, t, dg, i);
        }
      }
      r
  }

  /** A first fit among the rooms after an unfit head is the first fit of the whole list, one place on. */
  lemma FirstFitPastHead(rooms: seq<Classroom>, day: string, w: Window, t: SubjectType, dg: DayGrid, i: nat)
    requires rooms != [] && !RoomFits(rooms[0], day, w, t, dg) && i < |rooms| - 1
    requires forall j :: 0 <= j < i ==> !RoomFits(rooms[1..][j], day, w, t, dg)
    ensures rooms[i + 1] == rooms[1..][i]
    ensures forall j :: 0 <= j < i + 1 ==> !RoomFits(rooms[j], day, w, t, dg)
  {
    forall j | 0 <= j < i + 1 ensures !RoomFits(rooms[j], day, w, t, dg) {
      if j > 0 {
        assert rooms[j] == rooms[1..][j - 1];
      }
    }
  }

  function Abs(x: int): nat {
    if x < 0 then -x else x
  }

  /** An existing slot of the teacher on the day lies within `gap` minutes of `w`, at either end. */
  predicate Adjacent(s: TimeSlot, day: string, name: string, w: Window, gap: nat) {
    s.day == day && s.faculty == name
    && (Abs(s.endTime - w.start) <= gap || Abs(w.end - s.startTime) <= gap)
  }

  function AdjacentTest(day: string, name: string, w: Window, gap: nat): TimeSlot -> bool {
    s => Adjacent(s, day, name, w, gap)
  }

  /**
   * What `wouldViolateConsecutiveHoursSimplified` decides: at least one
   * existing slot is adjacent, and the new slot plus the adjacent existing ones
   * number more than the limit. The limit is only compared after a neighbour
   * is counted, so with no neighbour the answer is false whatever the limit.
   * Only direct neighbours of the new slot are counted, not the length of the
   * run they belong to.
   */
  predicate ViolatesConsecutive(existing: seq<TimeSlot>, day: string, name: string, w: Window, gap: nat, limit: nat) {
    var c := Count(existing, AdjacentTest(day, name, w, gap));
    c > 0 && 1 + c > limit
  }

  method WouldViolateConsecutiveHours(name: string, day: string, w: Window, existing: seq<TimeSlot>, gap: nat, limit: nat)
    returns (r: bool)
    ensures r == ViolatesConsecutive(existing, day, name, w, gap, limit)
  {
    if |existing| == 0 {
      return false;
    }
    var count := 1;
    var i := 0;
    ghost var p := AdjacentTest(day, name, w, gap);
    while i < |existing|
      invariant 0 <= i <= |existing|
      invariant count == 1 + Count(existing[..i], p)
      invariant count <= limit || count == 1
    {
      CountStep(existing, p, i);
      if Adjacent(existing[i], day, name, w, gap) {
        count := count + 1;
        if count > limit {
          FilterPrefixMonotone(existing, p, i + 1);
          return true;
        }
      }
      i := i + 1;
    }
    assert existing[..i] == existing;
    return false;
  }

  lemma CountStep<T>(s: seq<T>, p: T -> bool, i: nat)
    requires i < |s|
    ensures Count(s[..i + 1], p) == Count(s[..i], p) + (if p(s[i]) then 1 else 0)
  {
    assert s[..i + 1] == s[..i] + [s[i]];
    FilterSnoc(s[..i], s[i], p);
  }

  /** Filtering a longer prefix never yields fewer elements. */
  lemma {:induction false} FilterPrefixMonotone<T>(s: seq<T>, p: T -> bool, i: nat)
    requires i <= |s|
    ensures |Filter(s[..i], p)| <= |Filter(s, p)|
  {
    if i < |s| {
      var n := |s| - 1;
      assert s[..n][..i] == s[..i];
      FilterPrefixMonotone(s[..n], p, i);
    } else {
      assert s[..i] == s;
    }
  }

  /**
   * The test is approximate: with the configured 15-minute gap and a limit of
   * 2, a teacher who already teaches 09:00-10:00 and 10:00-11:00 may still be
   * given 11:15-12:15, because only 10:00-11:00 touches the new window: three
   * back-to-back hours pass a two-hour limit.
   */
  lemma ConsecutiveCheckAdmitsThreeHourRun(a: TimeSlot, b: TimeSlot)
    requires a.day == "Monday" && a.faculty == "T" && a.Span() == Window(540, 600)
    requires b.day == "Monday" && b.faculty == "T" && b.Span() == Window(600, 660)
    ensures !ViolatesConsecutive([a, b], "Monday", "T", Window(675, 735), 15, 2)
    ensures !ViolatesConsecutive([a], "Monday", "T", Window(600, 660), 15, 2)
  {
    var p := AdjacentTest("Monday", "T", Window(675, 735), 15);
    assert [a, b][..1] == [a];
    assert Filter([a, b], p) == [b];
  }
}
