/**
 * The orderings and the subject choice that feed the allocator
 * (TimetableGenerator.tsx): `sortBatchesForVariant` (lines 152-171),
 * `selectFacultiesForVariant` (lines 297-314), `getSubjectsForBatch`
 * (lines 430-476), and the subject-id table built at lines 187-190 and walked
 * at lines 200-222.
 */
module Selection {
  import opened Wrappers
  import opened Seqs
  import opened Strings
  import opened Entities

  /*
   * Array.prototype.sort is stable. A comparator `cmp` is modelled by the
   * relation le(a, b) == (cmp(a, b) <= 0), and the sort by insertion sort that
   * puts each later element after every earlier one it does not precede.
   */

  function Insert<T>(x: T, s: seq<T>, le: (T, T) -> bool): (r: seq<T>)
    ensures multiset(r) == multiset(s) + multiset{x}
  {
    if s == [] then [x]
    else if le(s[0], x) then
      assert s == [s[0]] + s[1..];
      [s[0]] + Insert(x, s[1..], le)
    else [x] + s
  }

  function SortBy<T>(s: seq<T>, le: (T, T) -> bool): (r: seq<T>)
    ensures multiset(r) == multiset(s)
  {
    if s == [] then []
    else
      var n := |s| - 1;
      assert s == s[..n] + [s[n]];
      Insert(s[n], SortBy(s[..n], le), le)
  }

  ghost predicate Total<T(!new)>(le: (T, T) -> bool) {
    forall a, b :: le(a, b) || le(b, a)
  }

  ghost predicate Transitive<T(!new)>(le: (T, T) -> bool) {
    forall a, b, c :: le(a, b) && le(b, c) ==> le(a, c)
  }

  predicate SortedBy<T>(s: seq<T>, le: (T, T) -> bool) {
    forall i, j :: 0 <= i < j < |s| ==> le(s[i], s[j])
  }

  lemma {:induction false} InsertKeepsSorted<T(!new)>(x: T, s: seq<T>, le: (T, T) -> bool)
    requires Total(le) && Transitive(le) && SortedBy(s, le)
    ensures SortedBy(Insert(x, s, le), le)
  {
    if s != [] && le(s[0], x) {
      SortedTail(s, le);
      InsertKeepsSorted(x, s[1..], le);
      HeadPrecedesInsert(x, s, le);
      ConsSorted(s[0], Insert(x, s[1..], le), le);
    } else if s != [] {
      forall y | y in s ensures le(x, y) {
        var k :| 0 <= k < |s| && s[k] == y;
        if k > 0 {
          assert le(s[0], s[k]);
        }
      }
      ConsSorted(x, s, le);
    }
  }

  lemma SortedTail<T>(s: seq<T>, le: (T, T) -> bool)
    requires s != [] && SortedBy(s, le)
    ensures SortedBy(s[1..], le)
  {
    var t := s[1..];
    forall i, j | 0 <= i < j < |t| ensures le(t[i], t[j]) {
      assert t[i] == s[i + 1] && t[j] == s[j + 1];
    }
  }

  /** A head that precedes `x` and the rest of an ordered list precedes everything `x` is inserted among. */
  lemma HeadPrecedesInsert<T>(x: T, s: seq<T>, le: (T, T) -> bool)
    requires s != [] && le(s[0], x) && SortedBy(s, le)
    ensures forall y :: y in Insert(x, s[1..], le) ==> le(s[0], y)
  {
    var t := s[1..];
    var u := Insert(x, t, le);
    forall y | y in u ensures le(s[0], y) {
      assert y in multiset(u);
      if y != x {
        assert y in multiset(t);
        var k :| 0 <= k < |t| && t[k] == y;
        assert s[k + 1] == y;
      }
    }
  }

  /** An ordered list stays ordered under a head that precedes all of it. */
  lemma ConsSorted<T>(h: T, u: seq<T>, le: (T, T) -> bool)
    requires SortedBy(u, le) && forall y :: y in u ==> le(h, y)
    ensures SortedBy([h] + u, le)
  {
    var r := [h] + u;
    forall i, j | 0 <= i < j < |r| ensures le(r[i], r[j]) {
      if i == 0 {
        assert r[j] == u[j - 1] && r[j] in u;
      } else {
        assert r[i] == u[i - 1] && r[j] == u[j - 1];
      }
    }
  }

  /** The sort returns its input in order, when the comparator is a total preorder. */
  lemma {:induction false} SortBySorted<T(!new)>(s: seq<T>, le: (T, T) -> bool)
    requires Total(le) && Transitive(le)
    ensures SortedBy(SortBy(s, le), le)
  {
    if s != [] {
      var n := |s| - 1;
      SortBySorted(s[..n], le);
      InsertKeepsSorted(s[n], SortBy(s[..n], le), le);
    }
  }

  /** The elements `le` cannot tell apart from `c`. */
  function EquivalentTo<T>(le: (T, T) -> bool, c: T): T -> bool {
    y => le(c, y) && le(y, c)
  }

  /** Insertion puts `x` after every element of the ordered list it is equivalent to, and before none. */
  lemma {:induction false} InsertStable<T(!new)>(x: T, u: seq<T>, le: (T, T) -> bool, c: T)
    requires Transitive(le) && SortedBy(u, le)
    ensures Filter(Insert(x, u, le), EquivalentTo(le, c)) == Filter(u + [x], EquivalentTo(le, c))
  {
    if u == [] {
      assert Insert(x, u, le) == u + [x];
    } else if le(u[0], x) {
      SortedTail(u, le);
      InsertStable(x, u[1..], le, c);
      InsertStablePast(x, u, EquivalentTo(le, c), Insert(x, u[1..], le));
    } else {
      InsertStableHere(x, u, le, c);
    }
  }

  /** The step where `x` passes the head: filtering commutes with putting the head back. */
  lemma InsertStablePast<T>(x: T, u: seq<T>, e: T -> bool, w: seq<T>)
    requires u != [] && Filter(w, e) == Filter(u[1..] + [x], e)
    ensures Filter([u[0]] + w, e) == Filter(u + [x], e)
  {
    FilterAppend([u[0]], w, e);
    FilterAppend([u[0]], u[1..] + [x], e);
    assert [u[0]] + (u[1..] + [x]) == u + [x];
  }

  /** The step where `x` goes in front: nothing behind it is equivalent to it. */
  lemma InsertStableHere<T(!new)>(x: T, u: seq<T>, le: (T, T) -> bool, c: T)
    requires Transitive(le) && SortedBy(u, le) && u != [] && !le(u[0], x)
    ensures Filter([x] + u, EquivalentTo(le, c)) == Filter(u + [x], EquivalentTo(le, c))
  {
    var e := EquivalentTo(le, c);
    FilterAppend([x], u, e);
    FilterSnoc(u, x, e);
    assert Filter([x], e) == Filter([], e) + if e(x) then [x] else [];
    if e(x) {
      forall y | y in u
        ensures !e(y)
      {
        var k :| 0 <= k < |u| && u[k] == y;
        if k > 0 {
          assert le(u[0], u[k]);
        }
      }
      FilterNone(u, e);
    }
  }

  /**
   * The sort is stable: the elements equivalent to any `c` come out in the order
   * they went in.
   */
  lemma {:induction false} SortByStable<T(!new)>(s: seq<T>, le: (T, T) -> bool, c: T)
    requires Total(le) && Transitive(le)
    ensures Filter(SortBy(s, le), EquivalentTo(le, c)) == Filter(s, EquivalentTo(le, c))
  {
    if s != [] {
      var n := |s| - 1;
      var e := EquivalentTo(le, c);
      SortByStable(s[..n], le, c);
      SortBySorted(s[..n], le);
      InsertStable(s[n], SortBy(s[..n], le), le, c);
      FilterSnoc(SortBy(s[..n], le), s[n], e);
    }
  }

  /** `a.assignedClasses.length - b.assignedClasses.length`: fewer assigned classes first. */
  predicate FewerClasses(a: Faculty, b: Faculty) {
    |a.assignedClasses| <= |b.assignedClasses|
  }

  /** `b.assignedClasses.length - a.assignedClasses.length`: more assigned classes first. */
  predicate MoreClasses(a: Faculty, b: Faculty) {
    |b.assignedClasses| <= |a.assignedClasses|
  }

  /** `a.name.localeCompare(b.name)`, read as character order. */
  predicate NameAscending(a: Batch, b: Batch) {
    StrLe(a.name, b.name)
  }

  predicate NameDescending(a: Batch, b: Batch) {
    StrLe(b.name, a.name)
  }

  lemma ComparatorsArePreorders()
    ensures Total(FewerClasses) && Transitive(FewerClasses)
    ensures Total(MoreClasses) && Transitive(MoreClasses)
    ensures Total(NameAscending) && Transitive(NameAscending)
    ensures Total(NameDescending) && Transitive(NameDescending)
  {
    FacultyOrdersArePreorders();
    NameOrdersArePreorders();
  }

  lemma FacultyOrdersArePreorders()
    ensures Total(FewerClasses) && Transitive(FewerClasses)
    ensures Total(MoreClasses) && Transitive(MoreClasses)
  {
    forall a: Faculty, b: Faculty ensures FewerClasses(a, b) || FewerClasses(b, a) {
    }
    forall a: Faculty, b: Faculty ensures MoreClasses(a, b) || MoreClasses(b, a) {
    }
    forall a: Faculty, b: Faculty, c: Faculty | FewerClasses(a, b) && FewerClasses(b, c)
      ensures FewerClasses(a, c)
    {
    }
    forall a: Faculty, b: Faculty, c: Faculty | MoreClasses(a, b) && MoreClasses(b, c)
      ensures MoreClasses(a, c)
    {
    }
  }

  lemma NameOrdersArePreorders()
    ensures Total(NameAscending) && Transitive(NameAscending)
    ensures Total(NameDescending) && Transitive(NameDescending)
  {
    forall a: Batch, b: Batch ensures NameAscending(a, b) || NameAscending(b, a) {
      StrLeTotal(a.name, b.name);
    }
    forall a: Batch, b: Batch ensures NameDescending(a, b) || NameDescending(b, a) {
      StrLeTotal(a.name, b.name);
    }
    forall a: Batch, b: Batch, c: Batch | NameAscending(a, b) && NameAscending(b, c)
      ensures NameAscending(a, c)
    {
      StrLeTransitive(a.name, b.name, c.name);
    }
    forall a: Batch, b: Batch, c: Batch | NameDescending(a, b) && NameDescending(b, c)
      ensures NameDescending(a, c)
    {
      StrLeTransitive(c.name, b.name, a.name);
    }
  }

  /** The random order of variant 2 is some rearrangement of its input. */
  ghost predicate IsShuffle(shuffle: seq<Faculty> -> seq<Faculty>) {
    forall s :: multiset(shuffle(s)) == multiset(s)
  }

  /**
   * `selectFacultiesForVariant`: variant 0 puts the teachers with fewer
   * assigned classes first, variant 1 those with more, variant 2 takes the
   * random order `shuffle`, and any other variant keeps the input order.
   */
  function SelectFacultiesForVariant(fs: seq<Faculty>, variant: nat, shuffle: seq<Faculty> -> seq<Faculty>)
    : (r: seq<Faculty>)
    requires IsShuffle(shuffle)
    ensures multiset(r) == multiset(fs)
    ensures variant == 0 ==> SortedBy(r, FewerClasses)
    ensures variant == 1 ==> SortedBy(r, MoreClasses)
    ensures variant > 2 ==> r == fs
  {
    ComparatorsArePreorders();
    if variant == 0 then
      SortBySorted(fs, FewerClasses);
      SortBy(fs, FewerClasses)
    else if variant == 1 then
      SortBySorted(fs, MoreClasses);
      SortBy(fs, MoreClasses)
    else if variant == 2 then shuffle(fs)
    else fs
  }

  function NameHas(d: string): Batch -> bool {
    (b: Batch) => Contains(b.name, d)
  }

  /** How many of the year digits '1' to '4' occur in a batch name. */
  function YearTags(name: string): nat {
    (if Contains(name, "1") then 1 else 0) + (if Contains(name, "2") then 1 else 0)
    + (if Contains(name, "3") then 1 else 0) + (if Contains(name, "4") then 1 else 0)
  }

  /**
   * `sortBatchesForVariant`: variants 0 and 1 sort by name, ascending and
   * descending; variant 2 lists the batches whose name holds a '1', then '2',
   * '3' and '4', so that a batch occurs once for each of those digits in its
   * name (none at all when its name holds none of them); other variants keep
   * the order.
   */
  function SortBatchesForVariant(bs: seq<Batch>, variant: nat): (r: seq<Batch>)
    ensures variant == 0 ==> multiset(r) == multiset(bs) && SortedBy(r, NameAscending)
    ensures variant == 1 ==> multiset(r) == multiset(bs) && SortedBy(r, NameDescending)
    ensures variant == 2 ==> forall b :: multiset(r)[b] == multiset(bs)[b] * YearTags(b.name)
    ensures variant > 2 ==> r == bs
  {
    ComparatorsArePreorders();
    if variant == 0 then
      SortBySorted(bs, NameAscending);
      SortBy(bs, NameAscending)
    else if variant == 1 then
      SortBySorted(bs, NameDescending);
      SortBy(bs, NameDescending)
    else if variant == 2 then
      YearOrderMultiplicity(bs);
      YearOrder(bs)
    else bs
  }

  /** Variant 2's order: the batches with a '1' in their name, then '2', '3' and '4'. */
  function YearOrder(bs: seq<Batch>): seq<Batch> {
    Filter(bs, NameHas("1")) + Filter(bs, NameHas("2")) + Filter(bs, NameHas("3")) + Filter(bs, NameHas("4"))
  }

  lemma YearOrderMultiplicity(bs: seq<Batch>)
    ensures forall b :: multiset(YearOrder(bs))[b] == multiset(bs)[b] * YearTags(b.name)
  {
    forall b ensures multiset(YearOrder(bs))[b] == multiset(bs)[b] * YearTags(b.name) {
      YearOrderCount(bs, b);
    }
  }

  /** Variant 2 lists a batch once for each year digit its name holds. */
  lemma YearOrderCount(bs: seq<Batch>, b: Batch)
    ensures multiset(YearOrder(bs))[b] == multiset(bs)[b] * YearTags(b.name)
  {
    var f1, f2 := Filter(bs, NameHas("1")), Filter(bs, NameHas("2"));
    var f3, f4 := Filter(bs, NameHas("3")), Filter(bs, NameHas("4"));
    assert multiset(YearOrder(bs)) == multiset(f1) + multiset(f2) + multiset(f3) + multiset(f4);
    FilterMultiset(bs, NameHas("1"), b);
    FilterMultiset(bs, NameHas("2"), b);
    FilterMultiset(bs, NameHas("3"), b);
    FilterMultiset(bs, NameHas("4"), b);
    TagSum(multiset(bs)[b], Contains(b.name, "1"), Contains(b.name, "2"), Contains(b.name, "3"),
           Contains(b.name, "4"));
  }

  /** Counting a batch once per tag its name carries. */
  lemma TagSum(m: nat, c1: bool, c2: bool, c3: bool, c4: bool)
    ensures (if c1 then m else 0) + (if c2 then m else 0) + (if c3 then m else 0) + (if c4 then m else 0)
      == m * ((if c1 then 1 else 0) + (if c2 then 1 else 0) + (if c3 then 1 else 0) + (if c4 then 1 else 0))
  {
  }

  /** Every batch appears in variant 2 when each name holds exactly one year digit. */
  lemma YearOrderIsPermutation(bs: seq<Batch>)
    requires forall b :: b in bs ==> YearTags(b.name) == 1
    ensures multiset(SortBatchesForVariant(bs, 2)) == multiset(bs)
  {
    var r := SortBatchesForVariant(bs, 2);
    forall b ensures multiset(r)[b] == multiset(bs)[b] {
      if b !in bs {
        assert multiset(bs)[b] == 0;
      }
    }
    assert multiset(r) == multiset(bs);
  }

  /** The year a batch name announces: '1A', '1B' or '1C' is year 1, and so on; 0 for none. */
  function YearOf(name: string): nat {
    if Contains(name, "1A") || Contains(name, "1B") || Contains(name, "1C") then 1
    else if Contains(name, "2A") || Contains(name, "2B") || Contains(name, "2C") then 2
    else if Contains(name, "3A") || Contains(name, "3B") || Contains(name, "3C") then 3
    else if Contains(name, "4A") || Contains(name, "4B") || Contains(name, "4C") then 4
    else 0
  }

  /**
   * The subject-code prefixes for a department's year; [] where the source
   * falls through to the fallback (an unknown department, a year it has no
   * rule for, or no year at all).
   */
  function CodePrefixes(dept: string, year: nat): seq<string> {
    if year == 1 then
      if dept == "CSE" then ["CSE1", "MATH1", "PHY1"]
      else if dept == "ECE" then ["ECE1"]
      else if dept == "MECH" then ["MECH1"]
      else []
    else if year == 2 || year == 3 then
      var y := if year == 2 then "2" else "3";
      if dept == "CSE" then ["CSE" + y]
      else if dept == "ECE" then ["ECE" + y]
      else if dept == "MECH" then ["MECH" + y]
      else []
    else if year == 4 && dept == "CSE" then ["CSE4"]
    else []
  }

  predicate SubjectMatches(s: Subject, dept: string, prefixes: seq<string>) {
    s.department == dept && (prefixes == [] || exists p :: p in prefixes && p <= s.code)
  }

  function SubjectTest(dept: string, prefixes: seq<string>): Subject -> bool {
    s => SubjectMatches(s, dept, prefixes)
  }

  /**
   * `getSubjectsForBatch`: the department's subjects whose code starts with
   * one of the prefixes for the year in the batch name (all of the
   * department's subjects when there is no such rule), in input order.
   */
  function GetSubjectsForBatch(batch: Batch, subjects: seq<Subject>): (r: seq<Subject>)
    ensures forall s :: s in r ==> s.department == batch.department
    ensures forall s :: s in r <==>
      s in subjects && SubjectMatches(s, batch.department, CodePrefixes(batch.department, YearOf(batch.name)))
  {
    var test := SubjectTest(batch.department, CodePrefixes(batch.department, YearOf(batch.name)));
    var r := Filter(subjects, test);
    forall s | s in subjects && test(s) ensures s in r {
      FilterComplete(subjects, test, s);
    }
    r
  }

  /** A first-year CSE batch gets the CSE1, MATH1 and PHY1 subjects of CSE. */
  lemma FirstYearComputerScience(batch: Batch, subjects: seq<Subject>, s: Subject)
    requires batch.department == "CSE" && Contains(batch.name, "1A")
    requires s in subjects && s.department == "CSE"
    ensures s in GetSubjectsForBatch(batch, subjects) <==> ("CSE1" <= s.code || "MATH1" <= s.code || "PHY1" <= s.code)
  {
    var ps := CodePrefixes("CSE", 1);
    assert YearOf(batch.name) == 1;
    assert ps == ["CSE1", "MATH1", "PHY1"];
    assert ps[0] == "CSE1" && ps[1] == "MATH1" && ps[2] == "PHY1";
    if "CSE1" <= s.code {
      assert ps[0] in ps && ps[0] <= s.code;
    } else if "MATH1" <= s.code {
      assert ps[1] in ps && ps[1] <= s.code;
    } else if "PHY1" <= s.code {
      assert ps[2] in ps && ps[2] <= s.code;
    }
  }

  /** With no year tag in its name a batch gets every subject of its department. */
  lemma NoYearTagFallsBack(batch: Batch, subjects: seq<Subject>, s: Subject)
    requires YearOf(batch.name) == 0
    ensures s in GetSubjectsForBatch(batch, subjects) <==> s in subjects && s.department == batch.department
  {
  }

  function SubjectId(s: Subject): string {
    s.id
  }

  /** The keys of `subjectHours`: the distinct subject ids, in order of first occurrence. */
  function SubjectIds(ss: seq<Subject>): (r: seq<string>)
    ensures NoDup(r)
    ensures forall id :: id in r <==> exists s :: s in ss && s.id == id
  {
    DistinctKeys(ss, SubjectId)
  }

  /** `batchSubjects.find(s => s.id === subjectId)`: the first subject with that id. */
  function FirstWithId(ss: seq<Subject>, id: string): (r: Subject)
    requires exists s :: s in ss && s.id == id
    ensures r in ss && r.id == id
    ensures exists i :: 0 <= i < |ss| && ss[i] == r && forall j :: 0 <= j < i ==> ss[j].id != id
  {
    if ss[0].id == id then ss[0]
    else
      var r := FirstWithId(ss[1..], id);
      assert exists i :: 0 <= i < |ss| && ss[i] == r && forall j :: 0 <= j < i ==> ss[j].id != id by {
        var i :| 0 <= i < |ss[1..]| && ss[1..][i] == r && forall j :: 0 <= j < i ==> ss[1..][j].id != id;
        assert ss[i + 1] == r;
        forall j | 0 <= j < i + 1 ensures ss[j].id != id {
          if j > 0 { assert ss[j] == ss[1..][j - 1]; }
        }
      }
      r
  }

  /**
   * `subjectHours[subjectId]`: the table is filled in list order, so a later
   * subject with the same id overwrites an earlier one's weekly hours.
   */
  function Quota(ss: seq<Subject>, id: string): (r: nat)
    requires exists s :: s in ss && s.id == id
    ensures exists i :: (0 <= i < |ss| && ss[i].id == id && r == ss[i].weeklyHours
      && forall j :: i < j < |ss| ==> ss[j].id != id)
  {
    var n := |ss| - 1;
    if ss[n].id == id then ss[n].weeklyHours
    else
      assert exists s :: s in ss[..n] && s.id == id by {
        var s :| s in ss && s.id == id;
        var k :| 0 <= k < |ss| && ss[k] == s;
        assert k < n && ss[..n][k] == s;
      }
      var r := Quota(ss[..n], id);
      assert exists i :: (0 <= i < |ss| && ss[i].id == id && r == ss[i].weeklyHours
        && forall j :: i < j < |ss| ==> ss[j].id != id) by {
        var i :| 0 <= i < |ss[..n]| && ss[..n][i].id == id && r == ss[..n][i].weeklyHours
          && forall j :: i < j < |ss[..n]| ==> ss[..n][j].id != id;
        assert ss[i] == ss[..n][i];
        forall j | i < j < |ss| ensures ss[j].id != id {
          if j < n { assert ss[j] == ss[..n][j]; }
        }
      }
      r
  }
}
