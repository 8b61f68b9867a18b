/**
  The result order of an SQL `ORDER BY`: the rows of a finite set listed
  according to a strict total order on them.
 */
module Ordering {

  /** `before` is irreflexive, transitive and total on the elements of `s`. */
  ghost predicate StrictTotalOn<T>(s: set<T>, before: (T, T) -> bool) {
    && (forall a :: a in s ==> !before(a, a))
    && (forall a, b, c :: a in s && b in s && c in s && before(a, b) && before(b, c) ==> before(a, c))
    && (forall a, b :: a in s && b in s && a != b ==> before(a, b) || before(b, a))
  }

  /** `m` comes before every other element of `s`. */
  predicate IsFirst<T>(s: set<T>, before: (T, T) -> bool, m: T) {
    m in s && forall x :: x in s && x != m ==> before(m, x)
  }

  /** Every element of a sequence comes before all later ones. */
  ghost predicate SortedBy<T>(r: seq<T>, before: (T, T) -> bool) {
    forall i, j :: 0 <= i < j < |r| ==> before(r[i], r[j])
  }

  /** A non-empty finite set has a first element under a strict total order. */
  lemma {:induction false} FirstExists<T>(s: set<T>, before: (T, T) -> bool)
    requires s != {} && StrictTotalOn(s, before)
    ensures exists m :: IsFirst(s, before, m)
    decreases |s|
  {
    var x :| x in s;
    var rest := s - {x};
    if rest == {} {
      assert s == {x};
      assert IsFirst(s, before, x);
    } else {
      FirstExists(rest, before);
      var m :| IsFirst(rest, before, m);
      if before(m, x) {
        assert IsFirst(s, before, m);
      } else {
        assert IsFirst(s, before, x);
      }
    }
  }

  /** The first element is unique. */
  lemma FirstUnique<T>(s: set<T>, before: (T, T) -> bool, m: T, n: T)
    requires StrictTotalOn(s, before) && IsFirst(s, before, m) && IsFirst(s, before, n)
    ensures m == n
  {
  }

  /** The elements of `s`, each exactly once, in the order `before`. */
  ghost function SortBy<T(!new)>(s: set<T>, before: (T, T) -> bool): (r: seq<T>)
    requires StrictTotalOn(s, before)
    ensures |r| == |s| && SortedBy(r, before)
    ensures forall x :: x in r <==> x in s
    decreases |s|
  {
    if s == {} then []
    else
      FirstExists(s, before);
      var m :| IsFirst(s, before, m);
      var rest := SortBy(s - {m}, before);
      assert forall j :: 0 <= j < |rest| ==> rest[j] in s - {m};
      [m] + rest
  }

  /** A sorted listing has no repeated element. */
  lemma SortedDistinct<T>(r: seq<T>, before: (T, T) -> bool, s: set<T>)
    requires StrictTotalOn(s, before) && SortedBy(r, before) && forall x :: x in r ==> x in s
    ensures forall i, j :: 0 <= i < j < |r| ==> r[i] != r[j]
  {
    forall i, j | 0 <= i < j < |r| ensures r[i] != r[j] {
      assert r[i] in s && before(r[i], r[j]);
    }
  }
}
