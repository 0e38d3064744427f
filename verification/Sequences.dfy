/** Facts about sequences that several components share. */
module Sequences {

  datatype Option<+T> = None | Some(value: T)

  predicate NoDup<T(==)>(s: seq<T>) {
    forall i, j :: 0 <= i < j < |s| ==> s[i] != s[j]
  }

  function Elems<T>(s: seq<T>): set<T> {
    set x | x in s
  }

  lemma NoDupSplit<T>(a: seq<T>, b: seq<T>, i: nat)
    requires NoDup(a + b) && i < |b|
    ensures b[i] !in a
  {
    assert (a + b)[|a| + i] == b[i];
    assert forall k :: 0 <= k < |a| ==> (a + b)[k] == a[k];
  }

  /** A duplicate-free sequence is no longer than any set that holds its elements. */
  lemma {:induction false} NoDupBound<T>(s: seq<T>, bound: set<T>)
    requires NoDup(s)
    requires forall x :: x in s ==> x in bound
    ensures |s| <= |bound|
  {
    if s != [] {
      var last := s[|s| - 1];
      NoDupBound(s[..|s| - 1], bound - {last});
    }
  }

  lemma {:induction false} NoDupCard<T>(s: seq<T>)
    requires NoDup(s)
    ensures |Elems(s)| == |s|
  {
    if s != [] {
      var last := s[|s| - 1];
      var init := s[..|s| - 1];
      NoDupCard(init);
      assert Elems(s) == Elems(init) + {last};
    }
  }

  /** Where `x` stands in `s`, at its first occurrence. */
  ghost function Place<T>(s: seq<T>, x: T): (i: nat)
    requires x in s
    ensures i < |s| && s[i] == x
  {
    if s[0] == x then 0 else 1 + Place(s[1..], x)
  }

  lemma NoDupPlace<T>(s: seq<T>, i: nat)
    requires NoDup(s) && i < |s|
    ensures Place(s, s[i]) == i
  {
  }

  /** `s` with `x` put in at place `i`. */
  function Insert<T>(s: seq<T>, i: nat, x: T): seq<T>
    requires i <= |s|
  {
    s[..i] + [x] + s[i..]
  }

  /** `s` without the entry at place `i`. */
  function Remove<T>(s: seq<T>, i: nat): seq<T>
    requires i < |s|
  {
    s[..i] + s[i + 1..]
  }

  /** The numbers from `lo` up to but not including `hi`. */
  ghost function Range(lo: nat, hi: nat): (r: set<nat>)
    ensures forall v: nat :: v in r <==> lo <= v < hi
    decreases hi - lo
  {
    if lo >= hi then {} else {lo} + Range(lo + 1, hi)
  }

  lemma {:induction false} RangeSize(lo: nat, hi: nat)
    requires lo <= hi
    ensures |Range(lo, hi)| == hi - lo
    decreases hi - lo
  {
    if lo < hi {
      RangeSize(lo + 1, hi);
      assert Range(lo, hi) == {lo} + Range(lo + 1, hi);
    }
  }

  lemma {:induction false} SubsetBound<T>(a: set<T>, b: set<T>)
    requires a <= b
    ensures |a| <= |b|
  {
    if a != {} {
      var x :| x in a;
      SubsetBound(a - {x}, b - {x});
    }
  }
}
