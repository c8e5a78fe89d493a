/**
 * The administrator's timetable list (src/components/admin/TimetableManagement.tsx):
 * the search and status filter, the per-status counts, and the send, delete
 * and duplicate actions, with the rule for which actions a row offers. The
 * clock readings the copy's id and creation time come from are parameters.
 */
module Management {
  import opened Wrappers
  import opened Seqs
  import opened Strings
  import opened Entities
  import opened Lifecycle
  import opened Approvals

  /** The status select: 'all', or one status. */
  datatype StatusFilter = AnyStatus | OnlyStatus(status: Status)

  /** The name or the department contains the search term, ignoring the case of A to Z. */
  predicate MatchesSearch(t: Timetable, term: string) {
    Contains(ToLower(t.name), ToLower(term)) || Contains(ToLower(t.department), ToLower(term))
  }

  predicate Listed(t: Timetable, term: string, filter: StatusFilter, department: string, shift: Shift) {
    MatchesSearch(t, term) && (filter.AnyStatus? || t.status == filter.status)
    && t.department == department && t.shift == shift
  }

  function ListedTest(term: string, filter: StatusFilter, department: string, shift: Shift): Timetable -> bool {
    t => Listed(t, term, filter, department, shift)
  }

  /** `filteredTimetables`: in list order, the timetables that pass all four tests. */
  function FilteredTimetables(ts: seq<Timetable>, term: string, filter: StatusFilter, department: string,
                              shift: Shift): (r: seq<Timetable>)
    ensures forall t :: t in r <==> t in ts && Listed(t, term, filter, department, shift)
    ensures forall t :: multiset(r)[t] == if Listed(t, term, filter, department, shift) then multiset(ts)[t] else 0
  {
    var r := Filter(ts, ListedTest(term, filter, department, shift));
    forall t ensures multiset(r)[t] == if Listed(t, term, filter, department, shift) then multiset(ts)[t] else 0 {
      FilterMultiset(ts, ListedTest(term, filter, department, shift), t);
    }
    r
  }

  /** With an empty search and the 'all' filter, the list is every timetable of the department and shift. */
  lemma EmptySearchListsGroup(ts: seq<Timetable>, department: string, shift: Shift)
    ensures forall t :: t in FilteredTimetables(ts, "", AnyStatus, department, shift) <==>
      t in ts && t.department == department && t.shift == shift
  {
    forall t: Timetable ensures MatchesSearch(t, "") {
      ContainsTrivial(ToLower(t.name));
    }
  }

  datatype StatusCounts = StatusCounts(all: nat, draft: nat, pending: nat, approved: nat, rejected: nat)

  function StatusIs(s: Status): Timetable -> bool {
    (t: Timetable) => t.status == s
  }

  /** `statusCounts` over the filtered list: its size, and how many of it have each status. */
  function GetStatusCounts(listed: seq<Timetable>): (r: StatusCounts)
    ensures r.all == |listed|
    ensures r.draft + r.pending + r.approved + r.rejected == r.all
  {
    StatusPartition(listed);
    StatusCounts(|listed|, Count(listed, StatusIs(Draft)), Count(listed, StatusIs(Pending)),
                 Count(listed, StatusIs(Approved)), Count(listed, StatusIs(Rejected)))
  }

  /** Every timetable has exactly one of the four statuses. */
  lemma {:induction false} StatusPartition(s: seq<Timetable>)
    ensures Count(s, StatusIs(Draft)) + Count(s, StatusIs(Pending)) + Count(s, StatusIs(Approved))
      + Count(s, StatusIs(Rejected)) == |s|
  {
    if s != [] {
      var n := |s| - 1;
      StatusPartition(s[..n]);
      SplitLast(s);
      FilterSnoc(s[..n], s[n], StatusIs(Draft));
      FilterSnoc(s[..n], s[n], StatusIs(Pending));
      FilterSnoc(s[..n], s[n], StatusIs(Approved));
      FilterSnoc(s[..n], s[n], StatusIs(Rejected));
    }
  }

  function SendRecord(): Timetable -> Timetable {
    (t: Timetable) => t.(status := Pending)
  }

  /** `handleSendForApproval`: every record carrying the id becomes pending; nothing else changes. */
  function SendForApproval(ts: seq<Timetable>, id: string): (r: seq<Timetable>)
    ensures |r| == |ts|
    ensures forall i :: 0 <= i < |ts| && ts[i].id != id ==> r[i] == ts[i]
    ensures forall i :: 0 <= i < |ts| && ts[i].id == id ==>
      r[i].status == Pending && r[i].(status := ts[i].status) == ts[i]
  {
    UpdateWhere(ts, id, SendRecord())
  }

  /**
   * `handleDelete`: the records carrying the id are dropped and every other
   * record is kept, as often as it occurred and in its order.
   */
  function Delete(ts: seq<Timetable>, id: string): (r: seq<Timetable>)
    ensures forall t :: t in r <==> t in ts && t.id != id
    ensures forall t :: multiset(r)[t] == if t.id != id then multiset(ts)[t] else 0
  {
    var r := Filter(ts, IdIsNot(id));
    forall t ensures multiset(r)[t] == if t.id != id then multiset(ts)[t] else 0 {
      FilterMultiset(ts, IdIsNot(id), t);
    }
    r
  }

  /** Delete keeps the order of what it keeps: any relation between earlier and later records survives. */
  lemma DeleteKeepsOrder(ts: seq<Timetable>, id: string, rel: (Timetable, Timetable) -> bool)
    requires forall i, j :: 0 <= i < j < |ts| ==> rel(ts[i], ts[j])
    ensures var r := Delete(ts, id); forall a, b :: 0 <= a < b < |r| ==> rel(r[a], r[b])
  {
    FilterKeepsOrderedPairs(ts, IdIsNot(id), rel);
  }

  /** The record `handleDuplicate` appends: a fresh draft with the same slots and no review data. */
  function Copy(t: Timetable, stamp: string, createdAt: string): Timetable {
    t.(id := t.id + "-copy-" + stamp, name := t.name + " (Copy)", status := Draft, createdAt := createdAt,
       approvedBy := None, approvedAt := None, comments := None)
  }

  /** `handleDuplicate`: the list with one more record at its end. */
  function Duplicate(ts: seq<Timetable>, t: Timetable, stamp: string, createdAt: string): (r: seq<Timetable>)
    ensures |r| == |ts| + 1 && r[..|ts|] == ts
    ensures var c := r[|ts|];
      c.id == t.id + "-copy-" + stamp && c.name == t.name + " (Copy)" && c.status == Draft
      && c.createdAt == createdAt && c.approvedBy.None? && c.approvedAt.None? && c.comments.None?
      && c.slots == t.slots && c.department == t.department && c.shift == t.shift && c.createdBy == t.createdBy
  {
    ts + [Copy(t, stamp, createdAt)]
  }

  /** The copy never shares the original's id, so deleting the original keeps the copy. */
  lemma DeleteOriginalKeepsCopy(ts: seq<Timetable>, t: Timetable, stamp: string, createdAt: string)
    ensures Delete(Duplicate(ts, t, stamp, createdAt), t.id) == Delete(ts, t.id) + [Copy(t, stamp, createdAt)]
  {
    var c := Copy(t, stamp, createdAt);
    assert |c.id| > |t.id|;
    FilterSnoc(ts, c, IdIsNot(t.id));
  }

  /** A copy under an id not yet in use keeps the ids unique. */
  lemma DuplicateKeepsIdsUnique(ts: seq<Timetable>, t: Timetable, stamp: string, createdAt: string)
    requires UniqueIds(ts)
    requires forall u :: u in ts ==> u.id != t.id + "-copy-" + stamp
    ensures UniqueIds(Duplicate(ts, t, stamp, createdAt))
  {
    var r := Duplicate(ts, t, stamp, createdAt);
    forall i, j | 0 <= i < j < |r| ensures r[i].id != r[j].id {
      assert r[i] == ts[i];
      if j < |ts| {
        assert r[j] == ts[j];
      }
    }
  }

  /** A row offers the send button for drafts only. */
  predicate CanSend(t: Timetable) {
    t.status == Draft
  }

  /** A row offers the delete button for drafts and rejected timetables only. */
  predicate CanDelete(t: Timetable) {
    t.status == Draft || t.status == Rejected
  }

  /** Sending a draft, with ids unique, moves it one step along the lifecycle and touches nothing else. */
  lemma SendIsOneStep(ts: seq<Timetable>, k: nat)
    requires UniqueIds(ts) && k < |ts| && CanSend(ts[k])
    ensures var r := SendForApproval(ts, ts[k].id);
      NextStatus(ts[k].status, r[k].status) && forall i :: 0 <= i < |ts| && i != k ==> r[i] == ts[i]
  {
  }

  /** The actions the two screens offer on one timetable. */
  datatype Action = SendAction | DeleteAction | DuplicateAction | Review(decision: ReviewAction)

  /** Whether the row (or, for a review, the review list) offers the action for `t`. */
  predicate Offered(a: Action, t: Timetable, department: string, shift: Shift) {
    match a
    case SendAction => CanSend(t)
    case DeleteAction => CanDelete(t)
    case DuplicateAction => true
    case Review(_) => AwaitingReview(t, department, shift)
  }

  /** The new list after the action, or None when the review dialog refuses it. */
  function Perform(a: Action, ts: seq<Timetable>, t: Timetable, user: Option<string>, comments: string,
                   stamp: string, now: string): Option<seq<Timetable>> {
    match a
    case SendAction => Some(SendForApproval(ts, t.id))
    case DeleteAction => Some(Delete(ts, t.id))
    case DuplicateAction => Some(Duplicate(ts, t, stamp, now))
    case Review(d) => Submit(d, ts, t, user, comments, now)
  }

  /**
   * With ids unique, approval is final: no action either screen offers on
   * any timetable of the list removes or changes an approved one.
   */
  lemma ApprovedIsFinal(a: Action, ts: seq<Timetable>, k: nat, j: nat, user: Option<string>, comments: string,
                        stamp: string, now: string, department: string, shift: Shift)
    requires UniqueIds(ts) && k < |ts| && j < |ts| && ts[j].status == Approved
    requires Offered(a, ts[k], department, shift)
    requires Perform(a, ts, ts[k], user, comments, stamp, now).Some?
    ensures ts[j] in Perform(a, ts, ts[k], user, comments, stamp, now).value
  {
    var r := Perform(a, ts, ts[k], user, comments, stamp, now).value;
    assert j != k ==> ts[j].id != ts[k].id;
    match a
    case SendAction =>
      assert r[j] == ts[j];
    case DeleteAction =>
      assert ts[j].id != ts[k].id;
    case DuplicateAction =>
      assert r[j] == ts[j];
    case Review(d) =>
      assert r[j] == ts[j];
  }
}
