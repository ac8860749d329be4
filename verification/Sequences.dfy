/** Flattening, the loops that append what each element contributes, and sequences without repetition. */
module Sequences {

  /** The contributions of the elements of `s`, one after the other. */
  function Flatten<T, U>(f: T -> seq<U>, s: seq<T>): seq<U> {
    if s == [] then [] else Flatten(f, s[..|s| - 1]) + f(s[|s| - 1])
  }

  lemma FlattenLast<T, U>(f: T -> seq<U>, front: seq<T>, last: T)
    ensures Flatten(f, front + [last]) == Flatten(f, front) + f(last)
  {
    assert (front + [last])[..|front|] == front;
  }

  lemma {:induction false} FlattenConcat<T, U>(f: T -> seq<U>, a: seq<T>, b: seq<T>)
    ensures Flatten(f, a + b) == Flatten(f, a) + Flatten(f, b)
  {
    if b == [] {
      assert a + b == a;
    } else {
      var front, last := b[..|b| - 1], b[|b| - 1];
      FlattenConcat(f, a, front);
      assert a + b == (a + front) + [last];
      FlattenLast(f, a + front, last);
      var fa, fb, fx := Flatten(f, a), Flatten(f, front), f(last);
      assert fa + fb + fx == fa + (fb + fx);
    }
  }

  /** An element's contribution can be taken out. */
  lemma FlattenAround<T, U>(f: T -> seq<U>, a: seq<T>, x: T, b: seq<T>)
    ensures multiset(Flatten(f, a + [x] + b)) == multiset(Flatten(f, a + b)) + multiset(f(x))
  {
    FlattenConcat(f, a + [x], b);
    FlattenLast(f, a, x);
    FlattenConcat(f, a, b);
  }

  lemma SameRest<T>(a: seq<T>, x: T, b: seq<T>, c: seq<T>)
    requires multiset(a + [x]) == multiset(b + [x] + c)
    ensures multiset(a) == multiset(b + c)
  {
    assert multiset(a + [x]) == multiset(a) + multiset{x};
    assert multiset(b + [x] + c) == multiset(b + c) + multiset{x};
    assert multiset(a) == multiset(a + [x]) - multiset{x};
    assert multiset(b + c) == multiset(b + [x] + c) - multiset{x};
  }

  /** A permutation permutes the contributions. */
  lemma {:induction false} FlattenPermute<T, U>(f: T -> seq<U>, a: seq<T>, b: seq<T>)
    requires multiset(a) == multiset(b)
    ensures multiset(Flatten(f, a)) == multiset(Flatten(f, b))
  {
    if a == [] {
      assert |multiset(b)| == 0;
    } else {
      var front, x := a[..|a| - 1], a[|a| - 1];
      assert a == front + [x];
      assert x in multiset(b);
      var k :| 0 <= k < |b| && b[k] == x;
      var before, after := b[..k], b[k + 1..];
      assert b == before + [x] + after;
      SameRest(front, x, before, after);
      FlattenPermute(f, front, before + after);
      FlattenLast(f, front, x);
      FlattenAround(f, before, x, after);
    }
  }

  /** Elements that contribute nothing can be filtered away first. */
  lemma {:induction false} FlattenFiltered<T, U>(f: T -> seq<U>, keep: T -> seq<T>, s: seq<T>)
    requires forall x :: keep(x) == [x] || (keep(x) == [] && f(x) == [])
    ensures Flatten(f, s) == Flatten(f, Flatten(keep, s))
  {
    if s != [] {
      var front, last := s[..|s| - 1], s[|s| - 1];
      FlattenFiltered(f, keep, front);
      var kept := Flatten(keep, front);
      if keep(last) == [last] {
        FlattenLast(f, kept, last);
      } else {
        assert kept + [] == kept;
        assert Flatten(f, front) + [] == Flatten(f, front);
      }
    }
  }

  lemma FlattenOne<T, U>(f: T -> seq<U>, x: T)
    ensures Flatten(f, [x]) == f(x)
  {
    FlattenLast(f, [], x);
    assert [] + [x] == [x];
    assert [] + f(x) == f(x);
  }

  lemma {:induction false} FlattenContains<T, U>(f: T -> seq<U>, s: seq<T>, u: U)
    ensures u in Flatten(f, s) <==> exists x | x in s :: u in f(x)
  {
    if s != [] {
      var front, last := s[..|s| - 1], s[|s| - 1];
      FlattenContains(f, front, u);
      assert s == front + [last];
    }
  }

  lemma {:induction false} FlattenPointwise<T, U>(f: T -> seq<U>, a: seq<T>, b: seq<T>)
    requires |a| == |b| && forall i | 0 <= i < |a| :: multiset(f(a[i])) == multiset(f(b[i]))
    ensures multiset(Flatten(f, a)) == multiset(Flatten(f, b))
  {
    if a != [] {
      var n := |a| - 1;
      assert multiset(f(a[n])) == multiset(f(b[n]));
      FlattenPointwise(f, a[..n], b[..n]);
    }
  }

  // ---------------------------------------------------------------- sequences without repetition

  ghost predicate Distinct<T>(s: seq<T>) {
    forall i, j | 0 <= i < j < |s| :: s[i] != s[j]
  }

  lemma DistinctSnoc<T>(s: seq<T>, x: T)
    ensures Distinct(s + [x]) <==> Distinct(s) && x !in s
  {
    var longer := s + [x];
    if Distinct(longer) {
      assert forall i | 0 <= i < |s| :: s[i] == longer[i] != longer[|s|];
    }
  }

  lemma {:induction false} CountDistinct<T>(s: seq<T>, x: T)
    requires Distinct(s)
    ensures multiset(s)[x] == if x in s then 1 else 0
  {
    if s != [] {
      var front, last := s[..|s| - 1], s[|s| - 1];
      assert s == front + [last];
      DistinctSnoc(front, last);
      CountDistinct(front, x);
    }
  }

  lemma {:induction false} OnceIsDistinct<T>(s: seq<T>)
    requires forall x | x in s :: multiset(s)[x] == 1
    ensures Distinct(s)
  {
    if s != [] {
      var front, last := s[..|s| - 1], s[|s| - 1];
      assert s == front + [last];
      forall x | x in front ensures multiset(front)[x] == 1 && x != last {
        assert x in s && multiset(front)[x] >= 1;
        assert multiset(s) == multiset(front) + multiset{last};
      }
      OnceIsDistinct(front);
      DistinctSnoc(front, last);
    }
  }

  /** A permutation repeats nothing either. */
  lemma DistinctPermute<T>(a: seq<T>, b: seq<T>)
    requires Distinct(a) && multiset(a) == multiset(b)
    ensures Distinct(b)
  {
    forall x | x in b ensures multiset(b)[x] == 1 {
      assert x in multiset(b);
      CountDistinct(a, x);
    }
    OnceIsDistinct(b);
  }

  ghost function Positions<T>(s: seq<T>, x: T): set<int> {
    set k | 0 <= k < |s| && s[k] == x
  }

  /** An element occurs as often as it has positions. */
  lemma {:induction false} CountPositions<T>(s: seq<T>, x: T)
    ensures multiset(s)[x] == |Positions(s, x)|
  {
    if s == [] {
      assert Positions(s, x) == {};
    } else {
      var n := |s| - 1;
      var front := s[..n];
      CountPositions(front, x);
      assert s == front + [s[n]];
      if s[n] == x {
        assert Positions(s, x) == Positions(front, x) + {n};
      } else {
        assert Positions(s, x) == Positions(front, x);
      }
    }
  }

  /** The places inside the elements, each with the position of its element. */
  ghost function Places<T, P>(place: T -> set<P>, s: seq<T>): set<(int, P)> {
    set i, p | 0 <= i < |s| && p in place(s[i]) :: (i, p)
  }

  ghost function Tagged<P>(i: int, places: set<P>): set<(int, P)> {
    set p | p in places :: (i, p)
  }

  lemma {:induction false} TaggedCount<P>(i: int, places: set<P>)
    ensures |Tagged(i, places)| == |places|
  {
    if places == {} {
      assert Tagged(i, places) == {};
    } else {
      var p :| p in places;
      TaggedCount(i, places - {p});
      assert Tagged(i, places) == Tagged(i, places - {p}) + {(i, p)};
    }
  }

  /** If each element contributes `y` as often as it has places, so do all of them together. */
  lemma {:induction false} FlattenCount<T(!new), U, P>(f: T -> seq<U>, place: T -> set<P>, s: seq<T>, y: U)
    requires forall x :: multiset(f(x))[y] == |place(x)|
    ensures multiset(Flatten(f, s))[y] == |Places(place, s)|
  {
    if s == [] {
      assert Places(place, s) == {};
    } else {
      var n := |s| - 1;
      var front, last := s[..n], s[n];
      FlattenCount(f, place, front, y);
      TaggedCount(n, place(last));
      assert Places(place, s) == Places(place, front) + Tagged(n, place(last));
      assert Places(place, front) !! Tagged(n, place(last));
    }
  }
}
