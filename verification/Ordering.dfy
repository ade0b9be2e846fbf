/** ORDER BY: the sequence a finite set becomes under a strict total order. */
module Ordering {

  ghost predicate StrictTotalOn<T>(s: set<T>, lt: (T, T) -> bool) {
    && (forall x | x in s :: !lt(x, x))
    && (forall x, y | x in s && y in s :: x == y || lt(x, y) || lt(y, x))
    && (forall x, y, z | x in s && y in s && z in s && lt(x, y) && lt(y, z) :: lt(x, z))
  }

  predicate Sorted<T>(r: seq<T>, lt: (T, T) -> bool) {
    forall i, j | 0 <= i < j < |r| :: lt(r[i], r[j])
  }

  ghost predicate Least<T>(m: T, s: set<T>, lt: (T, T) -> bool) {
    m in s && forall x | x in s && x != m :: lt(m, x)
  }

  lemma LeastExists<T>(s: set<T>, lt: (T, T) -> bool) returns (m: T)
    requires s != {} && StrictTotalOn(s, lt)
    ensures Least(m, s, lt)
  {
    var x :| x in s;
    if s == {x} {
      m := x;
    } else {
      var rest := s - {x};
      assert s == rest + {x};
      var m' := LeastExists(rest, lt);
      m := if lt(x, m') then x else m';
    }
  }

  function LeastOf<T(==)>(s: set<T>, lt: (T, T) -> bool): (m: T)
    requires s != {} && StrictTotalOn(s, lt)
    ensures Least(m, s, lt)
  {
    assert exists m :: m in s && forall x | x in s && x != m :: lt(m, x) by {
      var m := LeastExists(s, lt);
      assert Least(m, s, lt);
    }
    var m :| m in s && forall x | x in s && x != m :: lt(m, x);
    m
  }

  function SortBy<T(==,!new)>(s: set<T>, lt: (T, T) -> bool): (r: seq<T>)
    requires StrictTotalOn(s, lt)
    ensures |r| == |s|
    ensures forall x :: x in r <==> x in s
    ensures Sorted(r, lt)
  {
    if s == {} then []
    else
      var m := LeastOf(s, lt);
      [m] + SortBy(s - {m}, lt)
  }

  lemma FirstIsLeast<T(!new)>(a: seq<T>, s: set<T>, lt: (T, T) -> bool)
    requires StrictTotalOn(s, lt) && Sorted(a, lt) && s != {}
    requires forall x :: x in a <==> x in s
    ensures a != [] && Least(a[0], s, lt)
  {
    var y :| y in s;
    assert y in a;
  }

  lemma TailElements<T(!new)>(a: seq<T>, s: set<T>, lt: (T, T) -> bool)
    requires StrictTotalOn(s, lt) && Sorted(a, lt) && a != []
    requires forall x :: x in a <==> x in s
    ensures forall x :: x in a[1..] <==> x in s - {a[0]}
  {
    assert a == [a[0]] + a[1..];
    assert forall i | 0 <= i < |a[1..]| :: a[1..][i] == a[i + 1];
  }

  /** The order leaves no choice: any sorted arrangement of the set is the one SortBy gives. */
  lemma {:induction false} SortedIsUnique<T(!new)>(a: seq<T>, b: seq<T>, s: set<T>, lt: (T, T) -> bool)
    requires StrictTotalOn(s, lt)
    requires Sorted(a, lt) && Sorted(b, lt)
    requires (forall x :: x in a <==> x in s) && (forall x :: x in b <==> x in s)
    ensures a == b
    decreases |a|
  {
    assert |a| > 0 ==> a[0] in s;
    assert |b| > 0 ==> b[0] in s;
    if s == {} {
    } else {
      FirstIsLeast(a, s, lt);
      FirstIsLeast(b, s, lt);
      assert a[0] == b[0];
      TailElements(a, s, lt);
      TailElements(b, s, lt);
      var rest := s - {a[0]};
      SortedIsUnique(a[1..], b[1..], rest, lt);
    }
  }
}
