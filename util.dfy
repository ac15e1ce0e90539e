/** Sequence and set helpers used by clique enumeration (util.go).
    Each Go helper walks its slice once and builds a fresh value; here each is
    a function that recurses over the same slice, and its contract states
    what the walk computes. */
module Util {

  /** True when no element of `s` occurs twice. */
  ghost predicate Distinct<T>(s: seq<T>) {
    forall i, j :: 0 <= i < j < |s| ==> s[i] != s[j]
  }

  /** indiciesToElements: the elements of `of` picked by the indices `ins`, in the order of `ins`. */
  function IndicesToElements<T>(of: seq<T>, ins: seq<nat>): (out: seq<T>)
    requires forall k :: 0 <= k < |ins| ==> ins[k] < |of|
    ensures |out| == |ins|
    ensures forall k :: 0 <= k < |ins| ==> out[k] == of[ins[k]]
  {
    if ins == [] then []
    else IndicesToElements(of, ins[..|ins| - 1]) + [of[ins[|ins| - 1]]]
  }

  /** toMap: the set of elements of `s` (Go's map[T]struct{} is a set). */
  function ToMap<T>(s: seq<T>): (m: set<T>)
    ensures forall x :: x in m ==> x in s
    ensures forall i :: 0 <= i < |s| ==> s[i] in m
  {
    if s == [] then {}
    else ToMap(s[..|s| - 1]) + {s[|s| - 1]}
  }

  /** subset(a, b): every element of `b` occurs in `a`, i.e. b is a subset of a
      (the argument order is the reverse of the usual reading). */
  function Subset<T(==)>(a: seq<T>, b: seq<T>): (r: bool)
    ensures r <==> forall i :: 0 <= i < |b| ==> b[i] in a
  {
    if b == [] then true
    else Subset(a, b[..|b| - 1]) && b[|b| - 1] in ToMap(a)
  }

  /** subsetOfAny(a, b): some group of `a`, scanned front to back, contains every element of `b`. */
  function SubsetOfAny<T(==)>(a: seq<seq<T>>, b: seq<T>): (r: bool)
    ensures r <==> exists i :: 0 <= i < |a| && Subset(a[i], b)
    ensures a == [] ==> !r
  {
    if a == [] then false
    else Subset(a[0], b) || SubsetOfAny(a[1..], b)
  }

  /** min(a, b). */
  function Min(a: int, b: int): (r: int)
    ensures r <= a && r <= b
    ensures r == a || r == b
  {
    if a < b then a else b
  }

  /** A group is always a subset of itself, so a group equal to an accepted one is never appended again. */
  lemma SubsetReflexive<T>(x: seq<T>)
    ensures Subset(x, x)
  {
  }

  /** Appending a group keeps every group that was already covered covered. */
  lemma {:induction false} SubsetOfAnyAppend<T>(a: seq<seq<T>>, g: seq<T>, b: seq<T>)
    requires SubsetOfAny(a, b)
    ensures SubsetOfAny(a + [g], b)
  {
    var i :| 0 <= i < |a| && Subset(a[i], b);
    assert (a + [g])[i] == a[i];
  }

  /** A sequence without repetitions has as many distinct elements as it has positions. */
  lemma {:induction false} DistinctCard<T>(s: seq<T>)
    requires Distinct(s)
    ensures |ToMap(s)| == |s|
  {
    if s != [] {
      var init := s[..|s| - 1];
      assert Distinct(init);
      DistinctCard(init);
      assert s[|s| - 1] !in ToMap(init);
    }
  }
}
