/** What Families returns is fixed by the graph.

    When Families is given the whole arena in order, the groups it may keep
    are the candidate combinations themselves. If the maximal candidates form
    a list Ms in the walk's order, no one of them inside another and every
    candidate inside one of them, then Families' promises leave exactly one
    possible result: Ms. */
module Maximal {
  import opened Util
  import opened Graphs
  import opened Combinations
  import opened Cliques

  /** `nodes` lists the whole arena in order: 0, 1, ..., |nodes| - 1. */
  ghost predicate Whole(nodes: seq<nat>) {
    forall k :: 0 <= k < |nodes| ==> nodes[k] == k
  }

  /** Over the whole arena, a combination picks its own indices. */
  lemma WholePick(nodes: seq<nat>, c: seq<nat>)
    requires Whole(nodes) && forall k :: 0 <= k < |c| ==> c[k] < |nodes|
    ensures IndicesToElements(nodes, c) == c
  {
  }

  /** What Families(g, nodes) promises of a result v kept as the combinations cs. */
  ghost predicate Promised<V>(s: seq<map<nat, V>>, nodes: seq<nat>, v: seq<seq<nat>>, cs: seq<seq<nat>>) {
    |cs| == |v| &&
    (forall k :: 0 <= k < |v| ==> Candidate(s, nodes, cs[k], true) && v[k] == IndicesToElements(nodes, cs[k])) &&
    (forall k, l :: 0 <= k < l < |v| ==> Precedes(cs[k], cs[l]) && !Subset(v[k], v[l])) &&
    (forall c {:trigger SubsetOfAny(v, IndicesToElements(nodes, c))} ::
       Candidate(s, nodes, c, true) ==> SubsetOfAny(v, IndicesToElements(nodes, c)))
  }

  /** Ms lists the maximal candidates in walk order: each is a candidate, every
      candidate lies in one of them, and none lies in another. */
  ghost predicate Answer<V>(s: seq<map<nat, V>>, nodes: seq<nat>, ms: seq<seq<nat>>) {
    (forall j :: 0 <= j < |ms| ==> Candidate(s, nodes, ms[j], true)) &&
    (forall c {:trigger SubsetOfAny(ms, c)} :: Candidate(s, nodes, c, true) ==> SubsetOfAny(ms, c)) &&
    (forall i, j :: 0 <= i < |ms| && 0 <= j < |ms| && i != j ==> !Subset(ms[i], ms[j])) &&
    (forall i, j :: 0 <= i < j < |ms| ==> Precedes(ms[i], ms[j]))
  }

  /** The walk order is a strict order. */
  lemma PrecedesStrict(a: seq<nat>, b: seq<nat>)
    requires Precedes(a, b)
    ensures a != b && !Precedes(b, a)
  {
    if |a| == |b| {
      LexAsymmetric(a, b);
    }
  }

  /** Two sequences never precede each other. */
  lemma NotBoth(a: seq<nat>, b: seq<nat>)
    ensures !(Precedes(a, b) && Precedes(b, a))
  {
    if Precedes(a, b) {
      PrecedesStrict(a, b);
    }
  }

  lemma PrecedesTransitive(a: seq<nat>, b: seq<nat>, c: seq<nat>)
    requires Precedes(a, b) && Precedes(b, c)
    ensures Precedes(a, c)
  {
    if |a| == |b| == |c| {
      LexTransitive(a, b, c);
    }
  }

  /** Every element of `a` occurs in `b`. */
  ghost predicate Within(a: seq<nat>, b: seq<nat>) {
    forall k :: 0 <= k < |a| ==> a[k] in b
  }

  /** The last element of an increasing sequence is its largest. */
  lemma LastLargest(a: seq<nat>, x: nat)
    requires Increasing(a) && x in a
    ensures x <= a[|a| - 1]
  {
    var i :| 0 <= i < |a| && a[i] == x;
    if i < |a| - 1 {
      assert a[i] < a[|a| - 1];
    }
  }

  /** Dropping the common largest element keeps the rest of `a` within the rest of `b`. */
  lemma DropLast(a: seq<nat>, b: seq<nat>)
    requires Increasing(a) && Within(a, b) && a != [] && b != [] && a[|a| - 1] == b[|b| - 1]
    ensures Within(a[..|a| - 1], b[..|b| - 1])
  {
    var a', b' := a[..|a| - 1], b[..|b| - 1];
    forall k | 0 <= k < |a'| ensures a'[k] in b' {
      assert a'[k] == a[k] && a[k] < a[|a| - 1];
      var l :| 0 <= l < |b| && b[l] == a[k];
      assert b'[l] == b[l];
    }
  }

  /** A non-empty sequence is its front followed by its last element. */
  lemma Snoc(a: seq<nat>)
    requires a != []
    ensures a == a[..|a| - 1] + [a[|a| - 1]]
  {
  }

  /** Two increasing sequences with the same elements are equal. */
  lemma {:induction false} SameElements(a: seq<nat>, b: seq<nat>)
    requires Increasing(a) && Increasing(b) && Within(a, b) && Within(b, a)
    ensures a == b
    decreases |a|
  {
    assert (a != [] ==> a[0] in b) && (b != [] ==> b[0] in a);
    if a != [] {
      var x, y := a[|a| - 1], b[|b| - 1];
      LastLargest(b, x);
      LastLargest(a, y);
      DropLast(a, b);
      DropLast(b, a);
      var a', b' := a[..|a| - 1], b[..|b| - 1];
      assert Increasing(a') && Increasing(b');
      SameElements(a', b');
      Snoc(a);
      Snoc(b);
    }
  }

  /** Every later element follows every earlier one in walk order. */
  ghost predicate InOrder(a: seq<seq<nat>>) {
    forall i, j :: 0 <= i < j < |a| ==> Precedes(a[i], a[j])
  }

  /** Two lists in walk order, each holding the other's first element, start alike. */
  lemma SameHead(a: seq<seq<nat>>, b: seq<seq<nat>>)
    requires InOrder(a) && InOrder(b) && a != [] && b != []
    requires a[0] in b && b[0] in a
    ensures a[0] == b[0]
  {
    var x, y := a[0], b[0];
    var l :| 0 <= l < |b| && b[l] == x;
    var k :| 0 <= k < |a| && a[k] == y;
    NotBoth(x, y);
    assert l != 0 ==> Precedes(y, x);
    assert k != 0 ==> Precedes(x, y);
  }

  /** The tail of a list in walk order is in walk order. */
  lemma InOrderTail(a: seq<seq<nat>>)
    requires InOrder(a) && a != []
    ensures InOrder(a[1..])
  {
    var t := a[1..];
    forall i, j | 0 <= i < j < |t| ensures Precedes(t[i], t[j]) {
      assert t[i] == a[i + 1] && t[j] == a[j + 1];
    }
  }

  /** A later element of a list in walk order is not its first, so it lies
      in the tail of any list with the same first element that holds it. */
  lemma TailIn(a: seq<seq<nat>>, b: seq<seq<nat>>, i: nat)
    requires InOrder(a) && 0 < i < |a| && b != [] && a[0] == b[0] && a[i] in b
    ensures a[i] in b[1..]
  {
    var x := a[i];
    PrecedesStrict(a[0], x);
    var l :| 0 <= l < |b| && b[l] == x;
    assert b[1..][l - 1] == x;
  }

  /** Two lists in walk order with the same elements are equal. */
  lemma {:induction false} SameOrdered(a: seq<seq<nat>>, b: seq<seq<nat>>)
    requires InOrder(a) && InOrder(b)
    requires forall i :: 0 <= i < |a| ==> a[i] in b
    requires forall j :: 0 <= j < |b| ==> b[j] in a
    ensures a == b
    decreases |a|
  {
    assert (a != [] ==> a[0] in b) && (b != [] ==> b[0] in a);
    if a != [] {
      SameHead(a, b);
      var a', b' := a[1..], b[1..];
      forall i | 0 <= i < |a'| ensures a'[i] in b' {
        TailIn(a, b, i + 1);
      }
      forall j | 0 <= j < |b'| ensures b'[j] in a' {
        TailIn(b, a, j + 1);
      }
      InOrderTail(a);
      InOrderTail(b);
      SameOrdered(a', b');
      assert a == [a[0]] + a' && b == [b[0]] + b';
    }
  }

  /** Every group of `v` is an increasing sequence of indices. */
  ghost predicate AllIncreasing(v: seq<seq<nat>>) {
    forall k :: 0 <= k < |v| ==> Increasing(v[k])
  }

  /** Every group of `small` lies inside some group of `big`. */
  ghost predicate CoveredBy(small: seq<seq<nat>>, big: seq<seq<nat>>) {
    forall k {:trigger SubsetOfAny(big, small[k])} :: 0 <= k < |small| ==> SubsetOfAny(big, small[k])
  }

  /** The groups never grow along the list, and no group lies in an earlier one:
      the shape Families' walk order and subset test give its result. */
  ghost predicate Shrinking(v: seq<seq<nat>>) {
    forall k, l :: 0 <= k < l < |v| ==> |v[k]| >= |v[l]| && !Subset(v[k], v[l])
  }

  /** No group lies inside another. */
  ghost predicate Antichain(ms: seq<seq<nat>>) {
    forall i, j :: 0 <= i < |ms| && 0 <= j < |ms| && i != j ==> !Subset(ms[i], ms[j])
  }

  /** An increasing sequence has no repeated element. */
  lemma IncreasingDistinct(a: seq<nat>)
    requires Increasing(a)
    ensures Distinct(a)
  {
  }

  /** subset is transitive: c within b within a. */
  lemma SubsetTransitive(a: seq<nat>, b: seq<nat>, c: seq<nat>)
    requires Subset(a, b) && Subset(b, c)
    ensures Subset(a, c)
  {
  }

  /** A group that covers, and is covered by, the groups of a shrinking list
      lies inside no other group of that list but itself. */
  lemma OnlyItself(v: seq<seq<nat>>, k: nat, k': nat)
    requires AllIncreasing(v) && Shrinking(v) && k < |v| && k' < |v|
    requires Subset(v[k'], v[k])
    ensures k' == k
  {
    if k < k' {
      IncreasingDistinct(v[k]);
      IncreasingDistinct(v[k']);
      SameSizeSubset(v[k], v[k']);
    }
  }

  /** A group of a shrinking list that covers, and is covered by, the list ms
      is one of the groups of ms. */
  lemma KeptIn(v: seq<seq<nat>>, ms: seq<seq<nat>>, k: nat)
    requires AllIncreasing(v) && AllIncreasing(ms) && Shrinking(v)
    requires CoveredBy(v, ms) && CoveredBy(ms, v) && k < |v|
    ensures v[k] in ms
  {
    assert SubsetOfAny(ms, v[k]);
    var j :| 0 <= j < |ms| && Subset(ms[j], v[k]);
    assert SubsetOfAny(v, ms[j]);
    var k' :| 0 <= k' < |v| && Subset(v[k'], ms[j]);
    SubsetTransitive(v[k'], ms[j], v[k]);
    OnlyItself(v, k, k');
    assert Increasing(v[k]) && Increasing(ms[j]);
    SameElements(v[k], ms[j]);
  }

  /** Every group of an antichain ms that covers, and is covered by, a
      shrinking list v is a group of v. */
  lemma AnswerIn(v: seq<seq<nat>>, ms: seq<seq<nat>>, j: nat)
    requires AllIncreasing(v) && AllIncreasing(ms) && Shrinking(v) && Antichain(ms)
    requires CoveredBy(v, ms) && CoveredBy(ms, v) && j < |ms|
    ensures ms[j] in v
  {
    assert SubsetOfAny(v, ms[j]);
    var k :| 0 <= k < |v| && Subset(v[k], ms[j]);
    KeptIn(v, ms, k);
    var j' :| 0 <= j' < |ms| && ms[j'] == v[k];
  }

  /** Over the whole arena, what Families promises of its result v is the
      shape KeptIn and AnswerIn need. */
  lemma PromisedShape<V>(s: seq<map<nat, V>>, nodes: seq<nat>, v: seq<seq<nat>>, cs: seq<seq<nat>>)
    requires Whole(nodes) && Promised(s, nodes, v, cs)
    ensures v == cs && AllIncreasing(v) && Shrinking(v) && InOrder(v)
    ensures forall c {:trigger SubsetOfAny(v, c)} :: Candidate(s, nodes, c, true) ==> SubsetOfAny(v, c)
  {
    forall k | 0 <= k < |v| ensures v[k] == cs[k] && Increasing(v[k]) {
      assert Candidate(s, nodes, cs[k], true);
      WholePick(nodes, cs[k]);
    }
    forall c | Candidate(s, nodes, c, true) ensures SubsetOfAny(v, c) {
      WholePick(nodes, c);
    }
    OrderShape(v);
  }

  /** Groups in walk order, none inside an earlier one, never grow along the list. */
  lemma OrderShape(v: seq<seq<nat>>)
    requires forall k, l :: 0 <= k < l < |v| ==> Precedes(v[k], v[l]) && !Subset(v[k], v[l])
    ensures Shrinking(v) && InOrder(v)
  {
  }

  /** The maximal candidates are increasing and covered by Families' result. */
  lemma AnswerShape<V>(s: seq<map<nat, V>>, nodes: seq<nat>, v: seq<seq<nat>>, ms: seq<seq<nat>>)
    requires Answer(s, nodes, ms)
    requires forall c {:trigger SubsetOfAny(v, c)} :: Candidate(s, nodes, c, true) ==> SubsetOfAny(v, c)
    requires forall k :: 0 <= k < |v| ==> Candidate(s, nodes, v[k], true)
    ensures AllIncreasing(ms) && Antichain(ms) && InOrder(ms)
    ensures CoveredBy(ms, v) && CoveredBy(v, ms)
  {
  }

  /** Families' promises determine its result: over the whole arena, it returns
      exactly the maximal candidates, in walk order. */
  lemma Determined<V>(s: seq<map<nat, V>>, nodes: seq<nat>, v: seq<seq<nat>>, cs: seq<seq<nat>>, ms: seq<seq<nat>>)
    requires Whole(nodes) && Promised(s, nodes, v, cs) && Answer(s, nodes, ms)
    ensures v == ms
  {
    PromisedShape(s, nodes, v, cs);
    AnswerShape(s, nodes, v, ms);
    forall k | 0 <= k < |v| ensures v[k] in ms {
      KeptIn(v, ms, k);
    }
    forall j | 0 <= j < |ms| ensures ms[j] in v {
      AnswerIn(v, ms, j);
    }
    SameOrdered(v, ms);
  }

  /** Families over the whole arena, on a graph with no one-way edge, returns
      exactly the maximal candidates ms (the cliques other than a start
      combination), in the order the walk tests them. */
  method FamiliesExactly<K, V>(g: Graph<K, V>, nodes: seq<nat>, ghost ms: seq<seq<nat>>) returns (families: seq<seq<nat>>)
    requires g.Valid() && InRange(g.peers, nodes) && Whole(nodes)
    requires Consistent(g.peers, nodes) && Answer(g.peers, nodes, ms)
    ensures families == ms
  {
    var r;
    ghost var combos;
    r, combos := Families(g, nodes);
    assert Promised(g.peers, nodes, r.value, combos);
    Determined(g.peers, nodes, r.value, combos, ms);
    families := r.value;
  }
}
