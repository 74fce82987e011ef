/** Generic facts about sequences: duplicate-freedom, counting, first
    occurrences, and the first-seen de-duplication that
    `Array.from(new Set(xs))` performs. */
module Sequences {

  /** No element occurs twice. */
  predicate NoDup<T(==)>(s: seq<T>)
  {
    forall i, j :: 0 <= i < j < |s| ==> s[i] != s[j]
  }

  /** How many positions of `s` hold `x`. */
  function Occurrences<T(==)>(s: seq<T>, x: T): (n: nat)
    ensures n <= |s|
    ensures n == 0 <==> x !in s
    decreases |s|
  {
    if |s| == 0 then 0
    else (if s[0] == x then 1 else 0) + Occurrences(s[1..], x)
  }

  lemma {:induction false} OccurrencesAppend<T>(a: seq<T>, b: seq<T>, x: T)
    ensures Occurrences(a + b, x) == Occurrences(a, x) + Occurrences(b, x)
    decreases |a|
  {
    if |a| > 0 {
      assert (a + b)[1..] == a[1..] + b;
      OccurrencesAppend(a[1..], b, x);
    } else {
      assert a + b == b;
    }
  }

  /** Appending keeps the head and appends to the tail. */
  lemma SnocSplit<T>(s: seq<T>, x: T)
    requires |s| > 0
    ensures (s + [x])[0] == s[0] && (s + [x])[1..] == s[1..] + [x]
  {
  }

  /** An element of a duplicate-free sequence occurs exactly once. */
  lemma {:induction false} OccurrencesNoDup<T>(u: seq<T>, x: T)
    requires NoDup(u) && x in u
    ensures Occurrences(u, x) == 1
    decreases |u|
  {
    if u[0] != x {
      assert x in u[1..];
      OccurrencesNoDup(u[1..], x);
    } else {
      assert x !in u[1..];
    }
  }

  /** The position of the first `x` in `s`. */
  function FirstIndex<T(==)>(s: seq<T>, x: T): (i: nat)
    requires x in s
    ensures i < |s| && s[i] == x
    ensures forall k :: 0 <= k < i ==> s[k] != x
    decreases |s|
  {
    if s[0] == x then 0 else 1 + FirstIndex(s[1..], x)
  }

  lemma FirstIndexExtend<T>(s: seq<T>, y: T, x: T)
    requires x in s
    ensures x in s + [y] && FirstIndex(s + [y], x) == FirstIndex(s, x)
  {
    var i := FirstIndex(s, x);
    var j := FirstIndex(s + [y], x);
    assert (s + [y])[i] == x;
    assert j <= i;
    assert s[j] == (s + [y])[j];
  }

  /** The distinct elements of `s` in order of first appearance, as
      `Array.from(new Set(s))` lists them: each element of `s` is added to
      the set when it is first met. */
  function Distinct<T(==)>(s: seq<T>): (r: seq<T>)
    ensures NoDup(r)
    ensures forall i :: 0 <= i < |r| ==> r[i] in s
    ensures forall i :: 0 <= i < |s| ==> s[i] in r
    ensures |r| <= |s|
    decreases |s|
  {
    if |s| == 0 then []
    else
      var d := Distinct(s[..|s| - 1]);
      var x := s[|s| - 1];
      assert s == s[..|s| - 1] + [x];
      if x in d then d else d + [x]
  }

  /** The distinct elements are listed in the order in which each first
      appears in the input. */
  lemma {:induction false} DistinctFirstSeenOrder<T>(s: seq<T>)
    ensures forall i, j :: 0 <= i < j < |Distinct(s)| ==>
      FirstIndex(s, Distinct(s)[i]) < FirstIndex(s, Distinct(s)[j])
    decreases |s|
  {
    if |s| > 0 {
      var s' := s[..|s| - 1];
      var x := s[|s| - 1];
      assert s == s' + [x];
      var d := Distinct(s');
      DistinctFirstSeenOrder(s');
      if x in d {
        OrderSurvivesSnoc(s', x, d);
      } else {
        assert x !in s';
        OrderWithNewLast(s', x, d);
      }
    }
  }

  /** Appending to the input does not move any first occurrence, so an
      order by first occurrence is kept. */
  lemma OrderSurvivesSnoc<T>(s: seq<T>, x: T, d: seq<T>)
    requires forall i :: 0 <= i < |d| ==> d[i] in s
    requires forall i, j :: 0 <= i < j < |d| ==> FirstIndex(s, d[i]) < FirstIndex(s, d[j])
    ensures forall i, j :: 0 <= i < j < |d| ==> FirstIndex(s + [x], d[i]) < FirstIndex(s + [x], d[j])
  {
    forall i | 0 <= i < |d| ensures FirstIndex(s + [x], d[i]) == FirstIndex(s, d[i]) {
      FirstIndexExtend(s, x, d[i]);
    }
  }

  /** A new element appended to the input first occurs after every old one. */
  lemma OrderWithNewLast<T>(s: seq<T>, x: T, d: seq<T>)
    requires x !in s
    requires forall i :: 0 <= i < |d| ==> d[i] in s
    requires forall i, j :: 0 <= i < j < |d| ==> FirstIndex(s, d[i]) < FirstIndex(s, d[j])
    ensures forall i, j :: 0 <= i < j < |d + [x]| ==>
      FirstIndex(s + [x], (d + [x])[i]) < FirstIndex(s + [x], (d + [x])[j])
  {
    OrderSurvivesSnoc(s, x, d);
    var r := d + [x];
    assert FirstIndex(s + [x], x) == |s| by {
      assert (s + [x])[|s|] == x;
      forall k | 0 <= k < |s| ensures (s + [x])[k] != x { assert (s + [x])[k] == s[k]; }
    }
    forall i, j | 0 <= i < j < |r| ensures FirstIndex(s + [x], r[i]) < FirstIndex(s + [x], r[j]) {
      assert r[i] == d[i];
      if j < |d| {
        assert r[j] == d[j];
      } else {
        FirstIndexExtend(s, x, d[i]);
      }
    }
  }

  /** The first distinct element is the first element. */
  lemma {:induction false} DistinctHead<T>(s: seq<T>)
    requires |s| > 0
    ensures |Distinct(s)| > 0 && Distinct(s)[0] == s[0]
    decreases |s|
  {
    if |s| > 1 {
      var s' := s[..|s| - 1];
      DistinctHead(s');
    }
  }

  /** There are two distinct elements exactly when two entries differ. */
  lemma DistinctMoreThanOne<T>(s: seq<T>)
    ensures |Distinct(s)| > 1 <==> exists i, j :: 0 <= i < |s| && 0 <= j < |s| && s[i] != s[j]
  {
    var d := Distinct(s);
    if |d| > 1 {
      assert d[0] in s && d[1] in s;
      var i := FirstIndex(s, d[0]);
      var j := FirstIndex(s, d[1]);
      assert s[i] != s[j];
    }
    if exists i, j :: 0 <= i < |s| && 0 <= j < |s| && s[i] != s[j] {
      var i, j :| 0 <= i < |s| && 0 <= j < |s| && s[i] != s[j];
      assert s[i] in d && s[j] in d;
      var a := FirstIndex(d, s[i]);
      var b := FirstIndex(d, s[j]);
      assert a != b;
    }
  }

  /** Sum, over the entries of `u`, of how often each occurs in `s`. */
  function CountAll<T(==)>(u: seq<T>, s: seq<T>): nat
    decreases |u|
  {
    if |u| == 0 then 0 else Occurrences(s, u[0]) + CountAll(u[1..], s)
  }

  lemma {:induction false} CountAllEmpty<T>(u: seq<T>)
    ensures CountAll(u, []) == 0
    decreases |u|
  {
    if |u| > 0 { CountAllEmpty(u[1..]); }
  }

  lemma {:induction false} CountAllCons<T>(u: seq<T>, x: T, t: seq<T>)
    ensures CountAll(u, [x] + t) == Occurrences(u, x) + CountAll(u, t)
    decreases |u|
  {
    if |u| > 0 {
      assert ([x] + t)[1..] == t;
      CountAllCons(u[1..], x, t);
    }
  }

  /** Counting every entry of `s` against a duplicate-free `u` that contains
      them all counts each entry exactly once. */
  lemma {:induction false} CountAllCovers<T>(u: seq<T>, s: seq<T>)
    requires NoDup(u)
    requires forall x :: x in s ==> x in u
    ensures CountAll(u, s) == |s|
    decreases |s|
  {
    if |s| == 0 {
      CountAllEmpty(u);
    } else {
      assert s == [s[0]] + s[1..];
      CountAllCons(u, s[0], s[1..]);
      OccurrencesNoDup(u, s[0]);
      CountAllCovers(u, s[1..]);
    }
  }
}
