/**
 * What the two lifecycle screens share (PendingApprovals.tsx and
 * TimetableManagement.tsx): the list is keyed by timetable id, each action
 * replaces the whole list with a new one, and a timetable moves from draft to
 * pending to approved or rejected.
 */
module Lifecycle {
  import opened Seqs
  import opened Entities

  /** `timetables.map(t => t.id === id ? change(t) : t)`. */
  function UpdateWhere(ts: seq<Timetable>, id: string, change: Timetable -> Timetable): seq<Timetable> {
    seq(|ts|, i requires 0 <= i < |ts| => if ts[i].id == id then change(ts[i]) else ts[i])
  }

  predicate HasId(t: Timetable, id: string) {
    t.id == id
  }

  function IdIsNot(id: string): Timetable -> bool {
    (t: Timetable) => !HasId(t, id)
  }

  /** No two timetables of the list share an id. */
  predicate UniqueIds(ts: seq<Timetable>) {
    forall i, j :: 0 <= i < j < |ts| ==> ts[i].id != ts[j].id
  }

  /** The status steps the screens offer: draft to pending, pending to approved or rejected. */
  predicate NextStatus(a: Status, b: Status) {
    (a == Draft && b == Pending) || (a == Pending && (b == Approved || b == Rejected))
  }

  /**
   * When the change takes every record carrying the id out of `p`, the records
   * of the updated list satisfying `p` are the old ones minus that id.
   */
  lemma {:induction false} FilterAfterUpdate(ts: seq<Timetable>, id: string, change: Timetable -> Timetable,
                                             p: Timetable -> bool)
    requires forall i :: 0 <= i < |ts| && ts[i].id == id ==> !p(change(ts[i]))
    ensures Filter(UpdateWhere(ts, id, change), p) == Filter(Filter(ts, p), IdIsNot(id))
  {
    if ts != [] {
      var n := |ts| - 1;
      var front := ts[..n];
      var q := Filter(Filter(front, p), IdIsNot(id));
      var x := if ts[n].id == id then change(ts[n]) else ts[n];
      FilterAfterUpdate(front, id, change, p);
      assert Filter(UpdateWhere(ts, id, change), p) == q + (if p(x) then [x] else []) by {
        UpdateSnoc(ts, id, change);
        FilterSnoc(UpdateWhere(front, id, change), x, p);
      }
      FilterTwiceSnoc(ts, id, p);
      if ts[n].id == id {
        assert !p(x);
      }
    }
  }

  /** Filtering twice, one record at a time from the end. */
  lemma FilterTwiceSnoc(ts: seq<Timetable>, id: string, p: Timetable -> bool)
    requires ts != []
    ensures var n := |ts| - 1;
      Filter(Filter(ts, p), IdIsNot(id))
      == Filter(Filter(ts[..n], p), IdIsNot(id)) + (if p(ts[n]) && ts[n].id != id then [ts[n]] else [])
  {
    var n := |ts| - 1;
    var front := ts[..n];
    SplitLast(ts);
    FilterSnoc(front, ts[n], p);
    if p(ts[n]) {
      assert Filter(ts, p) == Filter(front, p) + [ts[n]];
      FilterSnoc(Filter(front, p), ts[n], IdIsNot(id));
    } else {
      assert Filter(ts, p) == Filter(front, p) + [];
      assert Filter(front, p) + [] == Filter(front, p);
    }
  }

  /** Updating a list is updating all but its last record, then the last one. */
  lemma UpdateSnoc(ts: seq<Timetable>, id: string, change: Timetable -> Timetable)
    requires ts != []
    ensures var n := |ts| - 1;
      UpdateWhere(ts, id, change) == UpdateWhere(ts[..n], id, change) + [if ts[n].id == id then change(ts[n]) else ts[n]]
  {
  }

  /** With unique ids, an update by id touches at most the one record carrying it. */
  lemma UpdateTouchesOne(ts: seq<Timetable>, k: nat, change: Timetable -> Timetable)
    requires UniqueIds(ts) && k < |ts|
    ensures forall i :: 0 <= i < |ts| && i != k ==> UpdateWhere(ts, ts[k].id, change)[i] == ts[i]
    ensures UpdateWhere(ts, ts[k].id, change)[k] == change(ts[k])
  {
  }
}
