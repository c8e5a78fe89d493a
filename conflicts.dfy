/**
 * `detectConflicts` (TimetableGenerator.tsx, lines 521-564) and the overlap
 * test it uses, `slotsOverlap` (lines 566-575). The detector groups the
 * classes (not the breaks) of a timetable by teacher and by room, in order of
 * first appearance, and reports every pair i < j inside a group that meets on
 * the same day at overlapping times.
 */
module ConflictCheck {
  import opened Seqs
  import opened Clock
  import opened Entities

  /** `slotsOverlap`: same day, and the strict half-open overlap of the two windows. */
  predicate SlotsOverlap(a: TimeSlot, b: TimeSlot) {
    a.day == b.day && Overlap(a.Span(), b.Span())
  }

  /** Slots on different days never overlap; on the same day the test is symmetric. */
  lemma SlotsOverlapProperties(a: TimeSlot, b: TimeSlot)
    ensures a.day != b.day ==> !SlotsOverlap(a, b)
    ensures SlotsOverlap(a, b) <==> SlotsOverlap(b, a)
  {
  }

  /** The two group tables of the detector: by teacher and by room. */
  datatype Dimension = ByFaculty | ByClassroom

  function KeyOf(d: Dimension, s: TimeSlot): string {
    match d
    case ByFaculty => s.faculty
    case ByClassroom => s.classroom
  }

  function KeyFn(d: Dimension): TimeSlot -> string {
    s => KeyOf(d, s)
  }

  predicate InGroup(d: Dimension, k: string, s: TimeSlot) {
    NonBreak(s) && KeyOf(d, s) == k
  }

  function GroupTest(d: Dimension, k: string): TimeSlot -> bool {
    s => InGroup(d, k, s)
  }

  /**
   * The keys of a group table, in order of first appearance, which is the order
   * `Object.entries` visits keys that do not look like array indices.
   */
  function GroupKeys(d: Dimension, s: seq<TimeSlot>): seq<string> {
    DistinctKeys(Filter(s, NonBreak), KeyFn(d))
  }

  /** The slots filed under key `k`, in timetable order. */
  function Group(d: Dimension, s: seq<TimeSlot>, k: string): seq<TimeSlot> {
    Filter(s, GroupTest(d, k))
  }

  function Message(d: Dimension, k: string, a: TimeSlot, b: TimeSlot): string {
    match d
    case ByFaculty => "Faculty " + k + " has overlapping classes: " + a.subject + " and " + b.subject
    case ByClassroom => "Classroom " + k + " has overlapping bookings: " + a.subject + " and " + b.subject
  }

  /** Messages for the pairs (i, j) with i < j < m of group `g`: the inner loop up to m. */
  function RowMessages(d: Dimension, k: string, g: seq<TimeSlot>, i: nat, m: nat): seq<string>
    requires i < |g| && m <= |g|
  {
    if m <= i + 1 then []
    else
      RowMessages(d, k, g, i, m - 1)
      + (if SlotsOverlap(g[i], g[m - 1]) then [Message(d, k, g[i], g[m - 1])] else [])
  }

  /** Messages for the first n rows of group `g`: the outer loop up to n. */
  function PairMessages(d: Dimension, k: string, g: seq<TimeSlot>, n: nat): seq<string>
    requires n <= |g|
  {
    if n == 0 then [] else PairMessages(d, k, g, n - 1) + RowMessages(d, k, g, n - 1, |g|)
  }

  function GroupMessages(d: Dimension, k: string, g: seq<TimeSlot>): seq<string> {
    PairMessages(d, k, g, |g|)
  }

  /** Messages for the groups under `keys`, in that order. */
  function KeyMessages(d: Dimension, s: seq<TimeSlot>, keys: seq<string>): seq<string> {
    if keys == [] then []
    else
      var n := |keys| - 1;
      KeyMessages(d, s, keys[..n]) + GroupMessages(d, keys[n], Group(d, s, keys[n]))
  }

  /** What `detectConflicts` returns: the teacher messages, then the room messages. */
  function Conflicts(s: seq<TimeSlot>): seq<string> {
    KeyMessages(ByFaculty, s, GroupKeys(ByFaculty, s)) + KeyMessages(ByClassroom, s, GroupKeys(ByClassroom, s))
  }

  /** What one more slot does to the group tables. */
  lemma GroupsSnoc(d: Dimension, s: seq<TimeSlot>, x: TimeSlot)
    ensures GroupKeys(d, s + [x]) == GroupKeys(d, s)
      + (if NonBreak(x) && KeyOf(d, x) !in GroupKeys(d, s) then [KeyOf(d, x)] else [])
    ensures forall k :: Group(d, s + [x], k) == Group(d, s, k) + (if InGroup(d, k, x) then [x] else [])
  {
    FilterSnoc(s, x, NonBreak);
    var c := Filter(s, NonBreak);
    if NonBreak(x) {
      assert Filter(s + [x], NonBreak) == c + [x];
      assert (c + [x])[..|c|] == c;
      assert KeyFn(d)(x) == KeyOf(d, x);
    } else {
      assert Filter(s + [x], NonBreak) == c;
    }
    forall k ensures Group(d, s + [x], k) == Group(d, s, k) + (if InGroup(d, k, x) then [x] else []) {
      FilterSnoc(s, x, GroupTest(d, k));
    }
  }

  /** The group table as the grouping loop fills it: key -> slots filed so far. */
  function GroupTable(d: Dimension, s: seq<TimeSlot>): map<string, seq<TimeSlot>> {
    if s == [] then map[]
    else
      var n := |s| - 1;
      var m := GroupTable(d, s[..n]);
      var key := KeyOf(d, s[n]);
      if NonBreak(s[n]) then m[key := (if key in m then m[key] else []) + [s[n]]] else m
  }

  /** The table files every class under its key, in order, and has exactly the group keys. */
  lemma {:induction false} GroupTableIsGroups(d: Dimension, s: seq<TimeSlot>)
    ensures forall k :: k in GroupTable(d, s) <==> k in GroupKeys(d, s)
    ensures forall k :: k in GroupTable(d, s) ==> GroupTable(d, s)[k] == Group(d, s, k)
    ensures forall k :: k !in GroupTable(d, s) ==> Group(d, s, k) == []
  {
    if s != [] {
      var n := |s| - 1;
      var front, x := s[..n], s[n];
      GroupTableIsGroups(d, front);
      SplitLast(s);
      GroupsSnoc(d, front, x);
      var m, key := GroupTable(d, front), KeyOf(d, x);
      var t := GroupTable(d, s);
      assert t == if NonBreak(x) then m[key := (if key in m then m[key] else []) + [x]] else m;
      forall k ensures (k in t <==> k in GroupKeys(d, s)) && (k in t ==> t[k] == Group(d, s, k))
        && (k !in t ==> Group(d, s, k) == [])
      {
        if InGroup(d, k, x) {
          assert k == key && t[k] == (if k in m then m[k] else []) + [x];
        } else {
          assert k in t <==> k in m;
        }
      }
    }
  }

  /** Filing one more slot: the table and the key list grow together. */
  lemma GroupStep(d: Dimension, s: seq<TimeSlot>, x: TimeSlot)
    ensures var m := GroupTable(d, s); var key := KeyOf(d, x);
      GroupTable(d, s + [x]) == (if NonBreak(x) then m[key := (if key in m then m[key] else []) + [x]] else m)
    ensures GroupKeys(d, s + [x]) == GroupKeys(d, s)
      + (if NonBreak(x) && KeyOf(d, x) !in GroupTable(d, s) then [KeyOf(d, x)] else [])
  {
    assert (s + [x])[..|s|] == s;
    var key := KeyOf(d, x);
    assert key in GroupTable(d, s) <==> key in GroupKeys(d, s) by {
      GroupTableIsGroups(d, s);
    }
    assert GroupKeys(d, s + [x]) == GroupKeys(d, s)
      + (if NonBreak(x) && key !in GroupKeys(d, s) then [key] else []) by {
      GroupsSnoc(d, s, x);
    }
  }

  /**
   * `detectConflicts`. The group tables are maps from key to slot list; the
   * order in which `Object.entries` visits them is kept in a key list beside
   * each map.
   */
  method DetectConflicts(t: Timetable) returns (conflicts: seq<string>)
    ensures conflicts == Conflicts(t.slots)
  {
    var slots := t.slots;
    var facultySchedule: map<string, seq<TimeSlot>> := map[];
    var facultyKeys: seq<string> := [];
    var classroomSchedule: map<string, seq<TimeSlot>> := map[];
    var classroomKeys: seq<string> := [];
    var i := 0;
    while i < |slots|
      invariant 0 <= i <= |slots|
      invariant facultySchedule == GroupTable(ByFaculty, slots[..i])
      invariant facultyKeys == GroupKeys(ByFaculty, slots[..i])
      invariant classroomSchedule == GroupTable(ByClassroom, slots[..i])
      invariant classroomKeys == GroupKeys(ByClassroom, slots[..i])
    {
      var slot := slots[i];
      assert slots[..i + 1] == slots[..i] + [slot];
      facultySchedule, facultyKeys := FileSlot(ByFaculty, slots[..i], slot, facultySchedule, facultyKeys);
      classroomSchedule, classroomKeys := FileSlot(ByClassroom, slots[..i], slot, classroomSchedule, classroomKeys);
      i := i + 1;
    }
    assert slots[..i] == slots;
    assert facultyKeys == GroupKeys(ByFaculty, slots) && classroomKeys == GroupKeys(ByClassroom, slots);
    assert forall k :: k in facultyKeys ==> k in facultySchedule && facultySchedule[k] == Group(ByFaculty, slots, k) by {
      GroupTableIsGroups(ByFaculty, slots);
    }
    assert forall k :: k in classroomKeys ==> k in classroomSchedule && classroomSchedule[k] == Group(ByClassroom, slots, k) by {
      GroupTableIsGroups(ByClassroom, slots);
    }
    conflicts := ReportGroups(ByFaculty, slots, facultyKeys, facultySchedule, []);
    EmptyAppend(KeyMessages(ByFaculty, slots, facultyKeys));
    conflicts := ReportGroups(ByClassroom, slots, classroomKeys, classroomSchedule, conflicts);
  }

  /** Files one slot, unless it is a break, under its key: a new key starts an empty list. */
  method FileSlot(d: Dimension, ghost s: seq<TimeSlot>, slot: TimeSlot,
                  schedule: map<string, seq<TimeSlot>>, keys: seq<string>)
    returns (schedule': map<string, seq<TimeSlot>>, keys': seq<string>)
    requires schedule == GroupTable(d, s) && keys == GroupKeys(d, s)
    ensures schedule' == GroupTable(d, s + [slot]) && keys' == GroupKeys(d, s + [slot])
  {
    schedule', keys' := schedule, keys;
    if slot.kind != BreakSlot {
      var key := KeyOf(d, slot);
      if key !in schedule' {
        schedule' := schedule'[key := []];
        keys' := keys' + [key];
      }
      schedule' := schedule'[key := schedule'[key] + [slot]];
      assert schedule' == schedule[key := (if key in schedule then schedule[key] else []) + [slot]];
    }
    GroupStep(d, s, slot);
  }

  /** The `Object.entries(...).forEach` walk over one group table. */
  method ReportGroups(d: Dimension, slots: seq<TimeSlot>, keys: seq<string>, groups: map<string, seq<TimeSlot>>,
                      acc: seq<string>) returns (r: seq<string>)
    requires forall k :: k in keys ==> k in groups && groups[k] == Group(d, slots, k)
    ensures r == acc + KeyMessages(d, slots, keys)
  {
    r := acc;
    var n := 0;
    while n < |keys|
      invariant 0 <= n <= |keys|
      invariant r == acc + KeyMessages(d, slots, keys[..n])
    {
      assert keys[..n + 1][..n] == keys[..n];
      r := ReportPairs(d, keys[n], groups[keys[n]], r);
      n := n + 1;
    }
    assert keys[..n] == keys;
  }

  /** The two nested index loops over one group. */
  method ReportPairs(d: Dimension, k: string, g: seq<TimeSlot>, acc: seq<string>) returns (r: seq<string>)
    ensures r == acc + GroupMessages(d, k, g)
  {
    r := acc;
    var i := 0;
    while i < |g|
      invariant 0 <= i <= |g|
      invariant r == acc + PairMessages(d, k, g, i)
    {
      var j := i + 1;
      while j < |g|
        invariant i + 1 <= j <= |g|
        invariant r == acc + PairMessages(d, k, g, i) + RowMessages(d, k, g, i, j)
      {
        if SlotsOverlap(g[i], g[j]) {
          r := r + [Message(d, k, g[i], g[j])];
        }
        j := j + 1;
      }
      i := i + 1;
    }
  }
}
