/** Sorting by a strict total order: what Go's sort.Slice and sort.Strings leave behind, whatever
    algorithm they use.
 */
module Sorting {
  import opened Sequences

  ghost predicate StrictTotal<T(!new)>(less: (T, T) -> bool) {
    && (forall a :: !less(a, a))
    && (forall a, b, c | less(a, b) && less(b, c) :: less(a, c))
    && (forall a, b | a != b :: less(a, b) || less(b, a))
  }

  ghost predicate Sorted<T>(less: (T, T) -> bool, s: seq<T>) {
    forall i, j | 0 <= i < j < |s| :: !less(s[j], s[i])
  }

  function Insert<T>(less: (T, T) -> bool, s: seq<T>, x: T): seq<T> {
    if s == [] || !less(x, s[|s| - 1]) then s + [x] else Insert(less, s[..|s| - 1], x) + [s[|s| - 1]]
  }

  function Sort<T>(less: (T, T) -> bool, s: seq<T>): seq<T> {
    if s == [] then [] else Insert(less, Sort(less, s[..|s| - 1]), s[|s| - 1])
  }

  lemma {:induction false} InsertMembers<T>(less: (T, T) -> bool, s: seq<T>, x: T)
    ensures multiset(Insert(less, s, x)) == multiset(s) + multiset{x}
  {
    if s != [] && less(x, s[|s| - 1]) {
      InsertMembers(less, s[..|s| - 1], x);
      assert s == s[..|s| - 1] + [s[|s| - 1]];
    }
  }

  lemma {:induction false} SortMembers<T>(less: (T, T) -> bool, s: seq<T>)
    ensures multiset(Sort(less, s)) == multiset(s)
  {
    if s != [] {
      SortMembers(less, s[..|s| - 1]);
      InsertMembers(less, Sort(less, s[..|s| - 1]), s[|s| - 1]);
      assert s == s[..|s| - 1] + [s[|s| - 1]];
    }
  }

  lemma {:induction false} InsertSorted<T(!new)>(less: (T, T) -> bool, s: seq<T>, x: T)
    requires StrictTotal(less) && Sorted(less, s)
    ensures Sorted(less, Insert(less, s, x))
  {
    if s == [] || !less(x, s[|s| - 1]) {
    } else {
      var front, last := s[..|s| - 1], s[|s| - 1];
      InsertSorted(less, front, x);
      InsertMembers(less, front, x);
      var r := Insert(less, front, x);
      forall i | 0 <= i < |r| ensures !less(last, r[i]) {
        assert r[i] in multiset(r);
      }
    }
  }

  lemma {:induction false} SortSorted<T(!new)>(less: (T, T) -> bool, s: seq<T>)
    requires StrictTotal(less)
    ensures Sorted(less, Sort(less, s))
  {
    if s != [] {
      SortSorted(less, s[..|s| - 1]);
      InsertSorted(less, Sort(less, s[..|s| - 1]), s[|s| - 1]);
    }
  }

  lemma SortShort<T>(less: (T, T) -> bool, s: seq<T>)
    requires |s| <= 1
    ensures Sort(less, s) == s
  {
    if s != [] {
      assert Sort(less, s[..0]) == [];
      assert s == [] + [s[0]];
    }
  }

  /** A sorted sequence is determined by its elements. */
  lemma {:induction false} SortedUnique<T(!new)>(less: (T, T) -> bool, a: seq<T>, b: seq<T>)
    requires StrictTotal(less) && Sorted(less, a) && Sorted(less, b) && multiset(a) == multiset(b)
    ensures a == b
  {
    assert |multiset(a)| == |a| && |multiset(b)| == |b|;
    if a != [] {
      SameLargest(less, a, b);
      FrontsAgree(a, b);
      SortedUnique(less, a[..|a| - 1], b[..|b| - 1]);
      assert a == a[..|a| - 1] + [a[|a| - 1]] && b == b[..|b| - 1] + [b[|b| - 1]];
    }
  }

  lemma FrontsAgree<T>(a: seq<T>, b: seq<T>)
    requires multiset(a) == multiset(b) && a != [] && b != [] && a[|a| - 1] == b[|b| - 1]
    ensures multiset(a[..|a| - 1]) == multiset(b[..|b| - 1])
  {
    var front, front', x := a[..|a| - 1], b[..|b| - 1], a[|a| - 1];
    assert a == front + [x] && b == front' + [x] + [];
    SameRest(front, x, front', []);
    assert front' + [] == front';
  }

  lemma SameLargest<T(!new)>(less: (T, T) -> bool, a: seq<T>, b: seq<T>)
    requires StrictTotal(less) && Sorted(less, a) && Sorted(less, b) && multiset(a) == multiset(b) && a != [] && b != []
    ensures a[|a| - 1] == b[|b| - 1]
  {
    var x, y := a[|a| - 1], b[|b| - 1];
    assert x in multiset(b) && y in multiset(a);
    var i :| 0 <= i < |b| && b[i] == x;
    var j :| 0 <= j < |a| && a[j] == y;
  }

  /** Sorting forgets the order of its input. */
  lemma SortCanonical<T(!new)>(less: (T, T) -> bool, a: seq<T>, b: seq<T>)
    requires StrictTotal(less) && multiset(a) == multiset(b)
    ensures Sort(less, a) == Sort(less, b)
  {
    SortMembers(less, a);
    SortMembers(less, b);
    SortSorted(less, a);
    SortSorted(less, b);
    SortedUnique(less, Sort(less, a), Sort(less, b));
  }

  ghost predicate AllAbove<T>(less: (T, T) -> bool, x: T, s: seq<T>, j: nat) {
    j <= |s| && forall k | j <= k < |s| :: less(x, s[k])
  }

  lemma AboveStep<T>(less: (T, T) -> bool, x: T, s: seq<T>, j: nat)
    requires AllAbove(less, x, s, j) && 0 < j && less(x, s[j - 1])
    ensures AllAbove(less, x, s, j - 1)
  {
  }

  lemma {:induction false} InsertAt<T>(less: (T, T) -> bool, s: seq<T>, x: T, j: nat)
    requires AllAbove(less, x, s, j) && (j > 0 ==> !less(x, s[j - 1]))
    ensures Insert(less, s, x) == s[..j] + [x] + s[j..]
  {
    if j == |s| {
      assert s[..j] == s && s[j..] == [];
      assert s + [x] + [] == s + [x];
    } else {
      var front, last := s[..|s| - 1], s[|s| - 1];
      assert less(x, last);
      InsertAt(less, front, x, j);
      SliceLast(s, j);
      var a, b := s[..j] + [x], s[j..|s| - 1];
      assert a + b + [last] == a + (b + [last]);
    }
  }

  lemma SliceLast<T>(s: seq<T>, j: nat)
    requires j < |s|
    ensures s[..|s| - 1][..j] == s[..j] && s[..|s| - 1][j..] == s[j..|s| - 1] && s[j..|s| - 1] + [s[|s| - 1]] == s[j..]
  {
  }

  /** The same, read off the result. */
  lemma InsertMoved<T>(less: (T, T) -> bool, s: seq<T>, x: T, j: nat, r: seq<T>)
    requires AllAbove(less, x, s, j) && (j > 0 ==> !less(x, s[j - 1]))
    requires |r| == |s| + 1 && (forall k | 0 <= k < j :: r[k] == s[k]) && r[j] == x && (forall k | j <= k < |s| :: s[k] == r[k + 1])
    ensures r == Insert(less, s, x)
  {
    InsertAt(less, s, x, j);
    var whole := s[..j] + [x] + s[j..];
    forall k | 0 <= k < |r| ensures r[k] == whole[k] {
      if k > j {
        assert s[k - 1] == r[k];
      }
    }
  }

  /** In place, as sort.Slice works. */
  method SortInPlace<T>(less: (T, T) -> bool, a: array<T>)
    modifies a
    ensures a[..] == Sort(less, old(a[..]))
  {
    ghost var was := a[..];
    for i := 0 to a.Length
      invariant a[..i] == Sort(less, was[..i]) && a[i..] == was[i..]
    {
      assert a[i] == a[i..][0] && a[i + 1..] == a[i..][1..];
      InsertInPlace(less, a, i);
      assert was[..i + 1][..i] == was[..i] && was[i] == was[i..][0] && was[i + 1..] == was[i..][1..];
    }
    assert was[..a.Length] == was && a[..a.Length] == a[..];
  }

  /** Move a[i] down to its place among a[..i]. */
  method InsertInPlace<T>(less: (T, T) -> bool, a: array<T>, i: nat)
    requires i < a.Length
    modifies a
    ensures a[..i + 1] == Insert(less, old(a[..i]), old(a[i])) && a[i + 1..] == old(a[i + 1..])
  {
    ghost var front := a[..i];
    var x, j := a[i], i;
    while j > 0 && less(x, a[j - 1])
      invariant 0 <= j <= i
      invariant forall k | 0 <= k < j :: a[k] == front[k]
      invariant forall k | j <= k < i :: front[k] == a[k + 1]
      invariant forall k | i < k < a.Length :: a[k] == old(a[k])
      invariant AllAbove(less, x, front, j)
    {
      AboveStep(less, x, front, j);
      a[j] := a[j - 1];
      j := j - 1;
    }
    a[j] := x;
    InsertMoved(less, front, x, j, a[..i + 1]);
  }
}
