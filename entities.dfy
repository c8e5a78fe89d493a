/**
 * The records the scheduler and the lifecycle screens work on
 * (src/App.tsx, lines 19-82), and the constraint object the generator is
 * configured with (TimetableGenerator.tsx, lines 3-12). Every "HH:MM" time is
 * held as minutes since midnight; `Clock.TimeToMinutes` relates the two.
 */
module Entities {
  import opened Wrappers
  import opened Clock

  datatype Shift = Morning | Evening

  /** `type` of a TimeSlot: 'lecture' | 'lab' | 'break'. */
  datatype SlotKind = LectureSlot | LabSlot | BreakSlot

  /** `type` of a Subject: 'theory' | 'lab' | 'elective'. */
  datatype SubjectType = Theory | Lab | Elective

  /** `type` of a Classroom: 'lecture' | 'lab'. */
  datatype RoomType = LectureRoom | LabRoom

  datatype Status = Draft | Pending | Approved | Rejected

  datatype Level = UG | PG

  datatype TimeSlot = TimeSlot(
    id: string,
    day: string,
    startTime: nat,
    endTime: nat,
    subject: string,
    faculty: string,
    classroom: string,
    batch: string,
    kind: SlotKind,
    duration: nat)
  {
    /** The `{ start, end }` window the slot occupies. */
    function Span(): Window {
      Window(startTime, endTime)
    }
  }

  datatype Timetable = Timetable(
    id: string,
    name: string,
    department: string,
    shift: Shift,
    status: Status,
    slots: seq<TimeSlot>,
    createdBy: string,
    createdAt: string,
    approvedBy: Option<string>,
    approvedAt: Option<string>,
    comments: Option<string>)

  datatype Subject = Subject(
    id: string,
    name: string,
    code: string,
    weeklyHours: nat,
    stype: SubjectType,
    duration: nat,
    department: string)

  /** `isOnLeave` is optional in the source; an absent flag reads as false. */
  datatype Faculty = Faculty(
    id: string,
    name: string,
    department: string,
    subjects: seq<string>,
    assignedClasses: seq<string>,
    availability: seq<string>,
    isOnLeave: bool)

  datatype Classroom = Classroom(
    id: string,
    name: string,
    capacity: nat,
    rtype: RoomType,
    availability: seq<string>)

  datatype Batch = Batch(
    id: string,
    name: string,
    department: string,
    level: Level,
    shift: Shift,
    strength: nat)

  /** `TimetableConstraints`; hour limits are whole hours, the break gap is in minutes. */
  datatype Constraints = Constraints(
    workingDays: seq<string>,
    timeSlots: seq<Window>,
    lunchBreak: Window,
    lunchDuration: nat,
    maxDailyHours: nat,
    maxConsecutiveHours: nat,
    minBreakBetweenClasses: nat,
    maxDailyHoursPerFaculty: nat,
    maxConsecutiveHoursPerFaculty: nat)

  /** Slots other than breaks: the ones every check of the generator looks at. */
  predicate NonBreak(s: TimeSlot) {
    s.kind != BreakSlot
  }

  predicate IsBreak(s: TimeSlot) {
    s.kind == BreakSlot
  }

  /** Total length, in minutes, of a list of slots. */
  function TotalMinutes(s: seq<TimeSlot>): nat {
    if s == [] then 0 else TotalMinutes(s[..|s| - 1]) + s[|s| - 1].duration
  }

  lemma TotalMinutesSnoc(s: seq<TimeSlot>, x: TimeSlot)
    ensures TotalMinutes(s + [x]) == TotalMinutes(s) + x.duration
  {
    assert (s + [x])[..|s|] == s;
  }

  lemma {:induction false} TotalMinutesAppend(a: seq<TimeSlot>, b: seq<TimeSlot>)
    ensures TotalMinutes(a + b) == TotalMinutes(a) + TotalMinutes(b)
  {
    if b != [] {
      var n := |b| - 1;
      assert a + b == (a + b[..n]) + [b[n]];
      assert b == b[..n] + [b[n]];
      TotalMinutesSnoc(a + b[..n], b[n]);
      TotalMinutesSnoc(b[..n], b[n]);
      TotalMinutesAppend(a, b[..n]);
    } else {
      assert a + b == a;
    }
  }
}
