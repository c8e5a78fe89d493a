/**
 * Sequence helpers standing for the JavaScript array built-ins the source uses:
 * `filter` (order-preserving selection) and `filter(...).length` (counting).
 * Filter is defined by peeling off the LAST element, so that a loop that walks
 * a list from left to right and appends keeps `Filter(s[..i], p)` as its invariant.
 */
module Seqs {

  function Filter<T>(s: seq<T>, p: T -> bool): (r: seq<T>)
    ensures |r| <= |s|
    ensures forall x :: x in r ==> x in s && p(x)
  {
    if s == [] then []
    else Filter(s[..|s| - 1], p) + (if p(s[|s| - 1]) then [s[|s| - 1]] else [])
  }

  /** Number of elements satisfying `p`: `s.filter(p).length`. */
  function Count<T>(s: seq<T>, p: T -> bool): nat {
    |Filter(s, p)|
  }

  /** No element occurs twice. */
  predicate NoDup<T(==)>(s: seq<T>) {
    forall i, j :: 0 <= i < j < |s| ==> s[i] != s[j]
  }

  /** Every element that satisfies `p` is kept. */
  lemma {:induction false} FilterComplete<T>(s: seq<T>, p: T -> bool, x: T)
    requires x in s && p(x)
    ensures x in Filter(s, p)
  {
    var n := |s| - 1;
    if s[n] != x {
      assert x in s[..n] by {
        var k :| 0 <= k < |s| && s[k] == x;
        assert k < n && s[..n][k] == x;
      }
      FilterComplete(s[..n], p, x);
    }
  }

  /** Appending to the empty list gives the list itself. */
  lemma EmptyAppend<T>(s: seq<T>)
    ensures [] + s == s
  {
  }

  /** A list is its prefix followed by the rest. */
  lemma SplitAt<T>(s: seq<T>, k: nat)
    requires k <= |s|
    ensures s == s[..k] + s[k..]
  {
  }

  /** A nonempty list is its front followed by its last element. */
  lemma SplitLast<T>(s: seq<T>)
    requires s != []
    ensures s == s[..|s| - 1] + [s[|s| - 1]]
  {
  }

  /** A list whose every element passes its own indexed test still does after one more passing element. */
  lemma IndexedSnoc<T>(s: seq<T>, x: T, p: (T, nat) -> bool)
    requires forall u :: 0 <= u < |s| ==> p(s[u], u)
    requires p(x, |s|)
    ensures forall u :: 0 <= u < |s| + 1 ==> p((s + [x])[u], u)
  {
    forall u | 0 <= u < |s| + 1 ensures p((s + [x])[u], u) {
      if u < |s| {
        assert (s + [x])[u] == s[u];
      } else {
        assert (s + [x])[u] == x;
      }
    }
  }

  /** The prefix step, spelled out for loops that extend a prefix by one element. */
  lemma FilterSnoc<T>(s: seq<T>, x: T, p: T -> bool)
    ensures Filter(s + [x], p) == Filter(s, p) + (if p(x) then [x] else [])
  {
    assert (s + [x])[..|s|] == s;
  }

  lemma {:induction false} FilterAppend<T>(a: seq<T>, b: seq<T>, p: T -> bool)
    ensures Filter(a + b, p) == Filter(a, p) + Filter(b, p)
  {
    if b == [] {
      assert a + b == a;
    } else {
      var n := |b| - 1;
      assert a + b == (a + b[..n]) + [b[n]];
      assert b == b[..n] + [b[n]];
      FilterSnoc(a + b[..n], b[n], p);
      FilterSnoc(b[..n], b[n], p);
      FilterAppend(a, b[..n], p);
    }
  }

  /** Filtering twice by the same test changes nothing. */
  lemma {:induction false} FilterIdempotent<T>(s: seq<T>, p: T -> bool)
    ensures Filter(Filter(s, p), p) == Filter(s, p)
  {
    if s != [] {
      var n := |s| - 1;
      FilterIdempotent(s[..n], p);
      if p(s[n]) {
        FilterSnoc(Filter(s[..n], p), s[n], p);
      } else {
        assert Filter(s, p) == Filter(s[..n], p);
      }
    }
  }

  /** A filter keeps everything when every element passes. */
  lemma {:induction false} FilterAll<T>(s: seq<T>, p: T -> bool)
    requires forall i :: 0 <= i < |s| ==> p(s[i])
    ensures Filter(s, p) == s
  {
    if s != [] {
      var n := |s| - 1;
      var front := s[..n];
      forall i | 0 <= i < |front| ensures p(front[i]) {
        assert front[i] == s[i];
      }
      FilterAll(front, p);
      SplitLast(s);
      FilterSnoc(front, s[n], p);
    }
  }

  /** A filter keeps nothing when no element passes. */
  lemma {:induction false} FilterNone<T>(s: seq<T>, p: T -> bool)
    requires forall x :: x in s ==> !p(x)
    ensures Filter(s, p) == []
  {
    if s != [] {
      var n := |s| - 1;
      assert forall x :: x in s[..n] ==> x in s;
      FilterNone(s[..n], p);
    }
  }

  /**
   * Where an element that passes lands: the element at index `i` of `s` is the
   * element at index |Filter(s[..i], p)| of the filtered list.
   */
  lemma {:induction false} FilterPosition<T>(s: seq<T>, p: T -> bool, i: nat)
    requires i < |s| && p(s[i])
    ensures |Filter(s[..i], p)| < |Filter(s, p)|
    ensures Filter(s, p)[|Filter(s[..i], p)|] == s[i]
  {
    var n := |s| - 1;
    if i == n {
      assert s[..n] + [s[n]] == s;
    } else {
      assert s[..n][..i] == s[..i];
      FilterPosition(s[..n], p, i);
    }
  }

  /** Filter positions grow with the index. */
  lemma {:induction false} FilterPositionMonotone<T>(s: seq<T>, p: T -> bool, i: nat, j: nat)
    requires i < j <= |s| && p(s[i])
    ensures |Filter(s[..i], p)| < |Filter(s[..j], p)|
  {
    if j == i + 1 {
      assert s[..j] == s[..i] + [s[i]];
      FilterSnoc(s[..i], s[i], p);
    } else {
      FilterPositionMonotone(s, p, i, j - 1);
      assert s[..j] == s[..j - 1] + [s[j - 1]];
      FilterSnoc(s[..j - 1], s[j - 1], p);
    }
  }

  /** Every element of the filtered list comes from some index of `s`, in order. */
  lemma {:induction false} FilterOrigin<T>(s: seq<T>, p: T -> bool, a: nat)
    requires a < |Filter(s, p)|
    ensures exists i :: 0 <= i < |s| && p(s[i]) && s[i] == Filter(s, p)[a] && |Filter(s[..i], p)| == a
  {
    var n := |s| - 1;
    var front := Filter(s[..n], p);
    SplitLast(s);
    FilterSnoc(s[..n], s[n], p);
    assert Filter(s, p) == front + (if p(s[n]) then [s[n]] else []);
    if a < |front| {
      FilterOrigin(s[..n], p, a);
      var i :| 0 <= i < n && p(s[..n][i]) && s[..n][i] == front[a] && |Filter(s[..n][..i], p)| == a;
      assert s[..n][..i] == s[..i] && s[..n][i] == s[i];
      assert Filter(s, p)[a] == front[a];
    } else {
      assert p(s[n]) && a == |front| && Filter(s, p)[a] == s[n];
    }
  }

  /** A relation that holds between every earlier and later element of `s` still holds after filtering. */
  lemma {:induction false} FilterKeepsOrderedPairs<T>(s: seq<T>, p: T -> bool, rel: (T, T) -> bool)
    requires forall i, j :: 0 <= i < j < |s| ==> rel(s[i], s[j])
    ensures forall a, b :: 0 <= a < b < |Filter(s, p)| ==> rel(Filter(s, p)[a], Filter(s, p)[b])
  {
    var r := Filter(s, p);
    forall a, b | 0 <= a < b < |r|
      ensures rel(r[a], r[b])
    {
      FilterOrigin(s, p, a);
      FilterOrigin(s, p, b);
      var i :| 0 <= i < |s| && p(s[i]) && s[i] == r[a] && |Filter(s[..i], p)| == a;
      var j :| 0 <= j < |s| && p(s[j]) && s[j] == r[b] && |Filter(s[..j], p)| == b;
      if j < i {
        FilterPositionMonotone(s, p, j, i);
        assert false;
      } else if j == i {
        assert false;
      }
    }
  }

  /**
   * The distinct keys of `s`, in order of first occurrence: the key order of a
   * JavaScript object filled by walking `s` (for keys that do not look like
   * array indices).
   */
  function DistinctKeys<T(!new), K(==,!new)>(s: seq<T>, key: T -> K): (r: seq<K>)
    ensures NoDup(r)
    ensures forall k :: k in r <==> exists x :: x in s && key(x) == k
  {
    if s == [] then []
    else
      var n := |s| - 1;
      var r := DistinctKeys(s[..n], key);
      assert forall x :: x in s <==> x in s[..n] || x == s[n];
      if key(s[n]) in r then r else r + [key(s[n])]
  }

  /** Multiplicities survive a filter for the elements it keeps, and drop to zero otherwise. */
  lemma {:induction false} FilterMultiset<T>(s: seq<T>, p: T -> bool, x: T)
    ensures multiset(Filter(s, p))[x] == if p(x) then multiset(s)[x] else 0
  {
    if s != [] {
      var n := |s| - 1;
      assert s == s[..n] + [s[n]];
      FilterMultiset(s[..n], p, x);
    }
  }
}
