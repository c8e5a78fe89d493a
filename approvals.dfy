/**
 * The head of department's review screen
 * (src/components/hod/PendingApprovals.tsx): the list of timetables awaiting
 * review, the approve and reject actions, the guard on the dialog's submit
 * button that demands a reason for a rejection, and the per-timetable
 * figures. The signed-in user's name and the clock reading are parameters.
 */
module Approvals {
  import opened Wrappers
  import opened Seqs
  import opened Strings
  import opened Entities
  import opened Lifecycle

  predicate AwaitingReview(t: Timetable, department: string, shift: Shift) {
    t.status == Pending && t.department == department && t.shift == shift
  }

  function AwaitingTest(department: string, shift: Shift): Timetable -> bool {
    t => AwaitingReview(t, department, shift)
  }

  /** `pendingTimetables`: in list order, the pending timetables of the selected department and shift. */
  function PendingTimetables(ts: seq<Timetable>, department: string, shift: Shift): (r: seq<Timetable>)
    ensures forall t :: t in r <==> t in ts && AwaitingReview(t, department, shift)
  {
    var r := Filter(ts, AwaitingTest(department, shift));
    forall t | t in ts && AwaitingReview(t, department, shift) ensures t in r {
      FilterComplete(ts, AwaitingTest(department, shift), t);
    }
    r
  }

  /** `currentUser?.name || 'HOD'`: a missing user or an empty name falls back to "HOD". */
  function Reviewer(user: Option<string>): string {
    if user.Some? && user.value != "" then user.value else "HOD"
  }

  /** `comments || undefined`: an empty comment is dropped. */
  function ApprovalComment(comments: string): Option<string> {
    if comments == "" then None else Some(comments)
  }

  /** `comments || 'Rejected by HOD'`: an empty comment is replaced by the default reason. */
  function RejectionComment(comments: string): string {
    if comments == "" then "Rejected by HOD" else comments
  }

  function ApproveRecord(user: Option<string>, comments: string, now: string): Timetable -> Timetable {
    (t: Timetable) => t.(status := Approved, approvedBy := Some(Reviewer(user)), approvedAt := Some(now),
            comments := ApprovalComment(comments))
  }

  function RejectRecord(comments: string): Timetable -> Timetable {
    (t: Timetable) => t.(status := Rejected, comments := Some(RejectionComment(comments)))
  }

  /**
   * `handleApprove`: every record carrying the id becomes approved, signed by
   * the reviewer, stamped and given the comment (none when empty); all other
   * fields and all other records stay as they were.
   */
  function Approve(ts: seq<Timetable>, id: string, user: Option<string>, comments: string, now: string)
    : (r: seq<Timetable>)
    ensures |r| == |ts|
    ensures forall i :: 0 <= i < |ts| && ts[i].id != id ==> r[i] == ts[i]
    ensures forall i :: 0 <= i < |ts| && ts[i].id == id ==>
      r[i].status == Approved && r[i].approvedBy == Some(Reviewer(user)) && r[i].approvedAt == Some(now)
      && r[i].comments == (if comments == "" then None else Some(comments))
      && r[i].(status := ts[i].status, approvedBy := ts[i].approvedBy, approvedAt := ts[i].approvedAt,
               comments := ts[i].comments) == ts[i]
  {
    UpdateWhere(ts, id, ApproveRecord(user, comments, now))
  }

  /**
   * `handleReject`: every record carrying the id becomes rejected with the
   * comment, or "Rejected by HOD" when it is empty; nothing else changes.
   */
  function Reject(ts: seq<Timetable>, id: string, comments: string): (r: seq<Timetable>)
    ensures |r| == |ts|
    ensures forall i :: 0 <= i < |ts| && ts[i].id != id ==> r[i] == ts[i]
    ensures forall i :: 0 <= i < |ts| && ts[i].id == id ==>
      r[i].status == Rejected && r[i].comments == Some(if comments == "" then "Rejected by HOD" else comments)
      && r[i].(status := ts[i].status, comments := ts[i].comments) == ts[i]
  {
    UpdateWhere(ts, id, RejectRecord(comments))
  }

  datatype ReviewAction = ApproveAction | RejectAction

  /**
   * The dialog's submit button: a rejection whose comment is blank after
   * trimming is refused (None) and leaves the list alone; otherwise the chosen
   * action is applied to the selected timetable.
   */
  function Submit(action: ReviewAction, ts: seq<Timetable>, selected: Timetable, user: Option<string>,
                  comments: string, now: string): (r: Option<seq<Timetable>>)
    ensures r.None? <==> action == RejectAction && Trim(comments) == ""
    ensures r.Some? && action == ApproveAction ==> r.value == Approve(ts, selected.id, user, comments, now)
    ensures r.Some? && action == RejectAction ==> r.value == Reject(ts, selected.id, comments)
  {
    if action == RejectAction && Trim(comments) == "" then None
    else if action == ApproveAction then Some(Approve(ts, selected.id, user, comments, now))
    else Some(Reject(ts, selected.id, comments))
  }

  /** A rejection that gets through the dialog always records the reviewer's own reason, never the default. */
  lemma SubmittedRejectionKeepsReason(ts: seq<Timetable>, selected: Timetable, user: Option<string>,
                                      comments: string, now: string)
    requires Submit(RejectAction, ts, selected, user, comments, now).Some?
    ensures comments != ""
    ensures forall i :: 0 <= i < |ts| && ts[i].id == selected.id ==>
      Submit(RejectAction, ts, selected, user, comments, now).value[i].comments == Some(comments)
  {
    if comments == "" {
      TrimEmptyIff(comments);
    }
  }

  /** After an approval the review list is the old one without the approved id. */
  lemma PendingAfterApprove(ts: seq<Timetable>, id: string, user: Option<string>, comments: string,
                            now: string, department: string, shift: Shift)
    ensures PendingTimetables(Approve(ts, id, user, comments, now), department, shift)
      == Filter(PendingTimetables(ts, department, shift), IdIsNot(id))
  {
    FilterAfterUpdate(ts, id, ApproveRecord(user, comments, now), AwaitingTest(department, shift));
  }

  /** After a rejection the review list is the old one without the rejected id. */
  lemma PendingAfterReject(ts: seq<Timetable>, id: string, comments: string, department: string, shift: Shift)
    ensures PendingTimetables(Reject(ts, id, comments), department, shift)
      == Filter(PendingTimetables(ts, department, shift), IdIsNot(id))
  {
    FilterAfterUpdate(ts, id, RejectRecord(comments), AwaitingTest(department, shift));
  }

  /** Reviewing a listed timetable, with ids unique, moves it one step along the lifecycle and touches nothing else. */
  lemma ReviewIsOneStep(ts: seq<Timetable>, k: nat, action: ReviewAction, user: Option<string>, comments: string,
                        now: string, department: string, shift: Shift)
    requires UniqueIds(ts) && k < |ts| && ts[k] in PendingTimetables(ts, department, shift)
    requires Submit(action, ts, ts[k], user, comments, now).Some?
    ensures var r := Submit(action, ts, ts[k], user, comments, now).value;
      |r| == |ts| && NextStatus(ts[k].status, r[k].status)
      && forall i :: 0 <= i < |ts| && i != k ==> r[i] == ts[i]
  {
  }

  datatype TimetableStats = TimetableStats(totalSlots: nat, classSlots: nat, uniqueFaculties: nat,
                                           uniqueClassrooms: nat)

  /**
   * `getTimetableStats`: all slots, the classes among them, and how many
   * distinct teachers and rooms the classes use.
   */
  function GetTimetableStats(t: Timetable): (r: TimetableStats)
    ensures r.totalSlots == |t.slots|
    ensures r.classSlots + Count(t.slots, IsBreak) == r.totalSlots
    ensures r.uniqueFaculties == |set x | x in t.slots && NonBreak(x) :: x.faculty|
    ensures r.uniqueClassrooms == |set x | x in t.slots && NonBreak(x) :: x.classroom|
    ensures r.uniqueFaculties <= r.classSlots && r.uniqueClassrooms <= r.classSlots && r.classSlots <= r.totalSlots
  {
    var classes := Filter(t.slots, NonBreak);
    ClassesAndBreaks(t.slots);
    ClassTeachersAndRooms(t.slots);
    TimetableStats(|t.slots|, |classes|, |set x | x in classes :: x.faculty|, |set x | x in classes :: x.classroom|)
  }

  /** The teachers and rooms of the classes, and how many of each there can be. */
  lemma ClassTeachersAndRooms(s: seq<TimeSlot>)
    ensures (set x | x in Filter(s, NonBreak) :: x.faculty) == (set x | x in s && NonBreak(x) :: x.faculty)
    ensures (set x | x in Filter(s, NonBreak) :: x.classroom) == (set x | x in s && NonBreak(x) :: x.classroom)
    ensures |set x | x in Filter(s, NonBreak) :: x.faculty| <= |Filter(s, NonBreak)|
    ensures |set x | x in Filter(s, NonBreak) :: x.classroom| <= |Filter(s, NonBreak)|
  {
    var classes := Filter(s, NonBreak);
    forall x | x in s && NonBreak(x) ensures x in classes {
      FilterComplete(s, NonBreak, x);
    }
    TeacherCountBound(classes);
    RoomCountBound(classes);
  }

  /** A list of slots names at most as many teachers as it has slots. */
  lemma {:induction false} TeacherCountBound(s: seq<TimeSlot>)
    ensures |set x | x in s :: x.faculty| <= |s|
  {
    if s != [] {
      var n := |s| - 1;
      TeacherCountBound(s[..n]);
      SplitLast(s);
      assert (set x | x in s :: x.faculty) == (set x | x in s[..n] :: x.faculty) + {s[n].faculty};
    }
  }

  /** A list of slots names at most as many rooms as it has slots. */
  lemma {:induction false} RoomCountBound(s: seq<TimeSlot>)
    ensures |set x | x in s :: x.classroom| <= |s|
  {
    if s != [] {
      var n := |s| - 1;
      RoomCountBound(s[..n]);
      SplitLast(s);
      assert (set x | x in s :: x.classroom) == (set x | x in s[..n] :: x.classroom) + {s[n].classroom};
    }
  }

  /** Every slot is a class or a break, never both. */
  lemma {:induction false} ClassesAndBreaks(s: seq<TimeSlot>)
    ensures |Filter(s, NonBreak)| + |Filter(s, IsBreak)| == |s|
  {
    if s != [] {
      var n := |s| - 1;
      ClassesAndBreaks(s[..n]);
      assert s == s[..n] + [s[n]];
      FilterSnoc(s[..n], s[n], NonBreak);
      FilterSnoc(s[..n], s[n], IsBreak);
    }
  }
}
