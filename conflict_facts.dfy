/**
 * What the conflict report means: `detectConflicts` reports nothing exactly
 * when no two classes (breaks aside) of one teacher, or in one room, overlap
 * on the same day.
 */
module ConflictFacts {
  import opened Seqs
  import opened Entities
  import opened ConflictCheck

  /** No two slots of list `g` overlap. */
  predicate GroupClean(g: seq<TimeSlot>) {
    forall i, j :: 0 <= i < j < |g| ==> !SlotsOverlap(g[i], g[j])
  }

  /** No two classes with the same key (teacher or room) overlap. */
  predicate DimensionClean(d: Dimension, s: seq<TimeSlot>) {
    forall i, j :: 0 <= i < j < |s| && NonBreak(s[i]) && NonBreak(s[j]) && KeyOf(d, s[i]) == KeyOf(d, s[j])
      ==> !SlotsOverlap(s[i], s[j])
  }

  /** No teacher and no room is booked twice at overlapping times on one day. */
  predicate NoDoubleBooking(s: seq<TimeSlot>) {
    forall i, j :: 0 <= i < j < |s| && NonBreak(s[i]) && NonBreak(s[j])
      && (s[i].faculty == s[j].faculty || s[i].classroom == s[j].classroom)
      ==> !SlotsOverlap(s[i], s[j])
  }

  lemma {:induction false} RowMessagesEmpty(d: Dimension, k: string, g: seq<TimeSlot>, i: nat, m: nat)
    requires i < |g| && m <= |g|
    ensures RowMessages(d, k, g, i, m) == [] <==> forall j :: i < j < m ==> !SlotsOverlap(g[i], g[j])
  {
    if m > i + 1 {
      RowMessagesEmpty(d, k, g, i, m - 1);
    }
  }

  lemma {:induction false} PairMessagesEmpty(d: Dimension, k: string, g: seq<TimeSlot>, n: nat)
    requires n <= |g|
    ensures PairMessages(d, k, g, n) == [] <==>
      forall i, j :: 0 <= i < n && i < j < |g| ==> !SlotsOverlap(g[i], g[j])
  {
    if n > 0 {
      PairMessagesEmpty(d, k, g, n - 1);
      RowMessagesEmpty(d, k, g, n - 1, |g|);
    }
  }

  /** One group yields no message exactly when no two of its slots overlap. */
  lemma GroupMessagesEmpty(d: Dimension, k: string, g: seq<TimeSlot>)
    ensures GroupMessages(d, k, g) == [] <==> GroupClean(g)
  {
    PairMessagesEmpty(d, k, g, |g|);
  }

  lemma {:induction false} KeyMessagesEmpty(d: Dimension, s: seq<TimeSlot>, keys: seq<string>)
    ensures KeyMessages(d, s, keys) == [] <==> forall k :: k in keys ==> GroupClean(Group(d, s, k))
  {
    if keys != [] {
      var n := |keys| - 1;
      KeyMessagesEmpty(d, s, keys[..n]);
      GroupMessagesEmpty(d, keys[n], Group(d, s, keys[n]));
      assert forall k :: k in keys <==> k in keys[..n] || k == keys[n] by {
        assert keys == keys[..n] + [keys[n]];
      }
    }
  }

  /** A group is clean exactly when the timetable has no overlapping pair inside that group. */
  lemma GroupCleanIff(d: Dimension, s: seq<TimeSlot>, k: string)
    ensures GroupClean(Group(d, s, k)) <==>
      forall i, j :: 0 <= i < j < |s| && InGroup(d, k, s[i]) && InGroup(d, k, s[j]) ==> !SlotsOverlap(s[i], s[j])
  {
    var p := GroupTest(d, k);
    var r := Filter(s, p);
    if GroupClean(r) {
      forall i, j | 0 <= i < j < |s| && InGroup(d, k, s[i]) && InGroup(d, k, s[j])
        ensures !SlotsOverlap(s[i], s[j])
      {
        FilterPosition(s, p, i);
        FilterPosition(s, p, j);
        FilterPositionMonotone(s, p, i, j);
      }
    }
    if forall i, j :: 0 <= i < j < |s| && InGroup(d, k, s[i]) && InGroup(d, k, s[j]) ==> !SlotsOverlap(s[i], s[j]) {
      var rel := (a: TimeSlot, b: TimeSlot) => InGroup(d, k, a) && InGroup(d, k, b) ==> !SlotsOverlap(a, b);
      FilterKeepsOrderedPairs(s, p, rel);
      forall a, b | 0 <= a < b < |r| ensures !SlotsOverlap(r[a], r[b]) {
        assert r[a] in r && r[b] in r;
        assert rel(r[a], r[b]);
      }
    }
  }

  /** One table of the detector is silent exactly when that dimension has no overlapping pair. */
  lemma KeyMessagesEmptyIffClean(d: Dimension, s: seq<TimeSlot>)
    ensures KeyMessages(d, s, GroupKeys(d, s)) == [] <==> DimensionClean(d, s)
  {
    var keys := GroupKeys(d, s);
    KeyMessagesEmpty(d, s, keys);
    if KeyMessages(d, s, keys) == [] {
      forall i, j | 0 <= i < j < |s| && NonBreak(s[i]) && NonBreak(s[j]) && KeyOf(d, s[i]) == KeyOf(d, s[j])
        ensures !SlotsOverlap(s[i], s[j])
      {
        var k := KeyOf(d, s[i]);
        FilterComplete(s, NonBreak, s[i]);
        assert KeyFn(d)(s[i]) == k;
        assert k in keys;
        GroupCleanIff(d, s, k);
      }
    }
    if DimensionClean(d, s) {
      forall k | k in keys ensures GroupClean(Group(d, s, k)) {
        GroupCleanIff(d, s, k);
      }
    }
  }

  /** The report is empty exactly when nobody and no room is double-booked. */
  lemma ConflictsEmptyIff(s: seq<TimeSlot>)
    ensures Conflicts(s) == [] <==> NoDoubleBooking(s)
  {
    KeyMessagesEmptyIffClean(ByFaculty, s);
    KeyMessagesEmptyIffClean(ByClassroom, s);
  }

  /** A timetable of breaks only produces no report. */
  lemma NoClassesNoConflicts(s: seq<TimeSlot>)
    requires forall i :: 0 <= i < |s| ==> IsBreak(s[i])
    ensures Conflicts(s) == []
  {
    ConflictsEmptyIff(s);
  }

  /** Groups that hold the same slots yield the same messages. */
  lemma {:induction false} KeyMessagesSameGroups(d: Dimension, s: seq<TimeSlot>, s': seq<TimeSlot>, keys: seq<string>)
    requires forall k :: k in keys ==> Group(d, s, k) == Group(d, s', k)
    ensures KeyMessages(d, s, keys) == KeyMessages(d, s', keys)
  {
    if keys != [] {
      var n := |keys| - 1;
      assert keys[n] in keys;
      assert forall k :: k in keys[..n] ==> k in keys;
      KeyMessagesSameGroups(d, s, s', keys[..n]);
    }
  }

  /** The detector skips breaks: appending one changes no message. */
  lemma BreaksAreIgnored(s: seq<TimeSlot>, x: TimeSlot)
    requires IsBreak(x)
    ensures Conflicts(s + [x]) == Conflicts(s)
  {
    BreakLeavesTable(ByFaculty, s, x);
    BreakLeavesTable(ByClassroom, s, x);
  }

  /** One table of the detector does not see a break. */
  lemma BreakLeavesTable(d: Dimension, s: seq<TimeSlot>, x: TimeSlot)
    requires IsBreak(x)
    ensures KeyMessages(d, s + [x], GroupKeys(d, s + [x])) == KeyMessages(d, s, GroupKeys(d, s))
  {
    GroupsSnoc(d, s, x);
    assert GroupKeys(d, s + [x]) == GroupKeys(d, s);
    forall k ensures Group(d, s + [x], k) == Group(d, s, k) {
      assert !InGroup(d, k, x);
    }
    KeyMessagesSameGroups(d, s + [x], s, GroupKeys(d, s));
  }
}
