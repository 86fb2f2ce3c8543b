/**
  Array.prototype.sort with a comparator, as the app uses it: a stable sort
  (ECMA-262, 10th edition, section 22.1.3.27 requires stability). The
  comparator `cmp` is modelled by the total preorder le(a, b) = cmp(a, b) <= 0.
 */
module Sorting {

  /** le is total and transitive: a comparator consistent in the ECMA-262 sense. */
  ghost predicate TotalPreorder<T(!new)>(le: (T, T) -> bool) {
    && (forall a, b :: le(a, b) || le(b, a))
    && (forall a, b, c :: le(a, b) && le(b, c) ==> le(a, c))
  }

  ghost predicate SortedBy<T>(s: seq<T>, le: (T, T) -> bool) {
    forall i, j :: 0 <= i < j < |s| ==> le(s[i], s[j])
  }

  /** The elements of s that tie with c under le, in their order in s. */
  function Equivalents<T>(s: seq<T>, le: (T, T) -> bool, c: T): seq<T> {
    if |s| == 0 then []
    else (if le(c, s[0]) && le(s[0], c) then [s[0]] else []) + Equivalents(s[1..], le, c)
  }

  lemma {:induction false} EquivalentsAppend<T>(a: seq<T>, b: seq<T>, le: (T, T) -> bool, c: T)
    ensures Equivalents(a + b, le, c) == Equivalents(a, le, c) + Equivalents(b, le, c)
  {
    if |a| > 0 {
      assert (a + b)[1..] == a[1..] + b;
      EquivalentsAppend(a[1..], b, le, c);
    } else {
      assert a + b == b;
    }
  }

  /** Stability: every class of tied elements keeps its relative order. */
  ghost predicate Stable<T(!new)>(r: seq<T>, s: seq<T>, le: (T, T) -> bool) {
    forall c :: Equivalents(r, le, c) == Equivalents(s, le, c)
  }

  /** Put x in front of the first element it is at most; everything before it is strictly smaller. */
  function Insert<T(!new)>(x: T, r: seq<T>, le: (T, T) -> bool): (q: seq<T>)
    requires TotalPreorder(le)
    requires SortedBy(r, le)
    ensures SortedBy(q, le)
    ensures multiset(q) == multiset(r) + multiset{x}
    ensures Stable(q, [x] + r, le)
  {
    if |r| == 0 || le(x, r[0]) then
      InsertInFront(x, r, le);
      [x] + r
    else
      var q' := Insert(x, r[1..], le);
      InsertSkipSorted(x, r, q', le);
      InsertSkipStable(x, r, q', le);
      [r[0]] + q'
  }

  lemma InsertInFront<T(!new)>(x: T, r: seq<T>, le: (T, T) -> bool)
    requires TotalPreorder(le)
    requires SortedBy(r, le)
    requires |r| == 0 || le(x, r[0])
    ensures SortedBy([x] + r, le)
  {
    var q := [x] + r;
    forall i, j | 0 <= i < j < |q| ensures le(q[i], q[j]) {
      if i == 0 && j > 1 {
        assert le(x, r[0]) && le(r[0], r[j - 1]);
      }
    }
  }

  lemma InsertSkipSorted<T(!new)>(x: T, r: seq<T>, q': seq<T>, le: (T, T) -> bool)
    requires TotalPreorder(le)
    requires SortedBy(r, le)
    requires |r| > 0 && !le(x, r[0])
    requires SortedBy(q', le)
    requires multiset(q') == multiset(r[1..]) + multiset{x}
    ensures SortedBy([r[0]] + q', le)
    ensures multiset([r[0]] + q') == multiset(r) + multiset{x}
  {
    assert r == [r[0]] + r[1..];
    var q := [r[0]] + q';
    forall i, j | 0 <= i < j < |q| ensures le(q[i], q[j]) {
      if i == 0 {
        var y := q'[j - 1];
        assert y in multiset(q');
        if y != x {
          assert y in multiset(r[1..]);
          var k :| 0 <= k < |r[1..]| && r[1..][k] == y;
          assert r[k + 1] == y;
        }
      }
    }
  }

  lemma InsertSkipStable<T(!new)>(x: T, r: seq<T>, q': seq<T>, le: (T, T) -> bool)
    requires TotalPreorder(le)
    requires |r| > 0 && !le(x, r[0])
    requires Stable(q', [x] + r[1..], le)
    ensures Stable([r[0]] + q', [x] + r, le)
  {
    assert r == [r[0]] + r[1..];
    forall c
      ensures Equivalents([r[0]] + q', le, c) == Equivalents([x] + r, le, c)
    {
      EquivalentsAppend([r[0]], q', le, c);
      EquivalentsAppend([x], r[1..], le, c);
      EquivalentsAppend([r[0]], r[1..], le, c);
      EquivalentsAppend([x], r, le, c);
      assert Equivalents(q', le, c) == Equivalents([x] + r[1..], le, c);
    }
  }

  /** Stable insertion sort of s under le: a sorted, stable permutation of s. */
  function SortBy<T(!new)>(s: seq<T>, le: (T, T) -> bool): (r: seq<T>)
    requires TotalPreorder(le)
    ensures SortedBy(r, le)
    ensures multiset(r) == multiset(s)
    ensures Stable(r, s, le)
    decreases |s|
  {
    if |s| == 0 then []
    else
      var rest := SortBy(s[1..], le);
      var r := Insert(s[0], rest, le);
      assert s == [s[0]] + s[1..];
      forall c
        ensures Equivalents(r, le, c) == Equivalents(s, le, c)
      {
        EquivalentsAppend([s[0]], rest, le, c);
        EquivalentsAppend([s[0]], s[1..], le, c);
      }
      r
  }
}
