/** Pruning of peers.go: Prune, PruneByWeight and PruneByKey.

    Prune walks the positions i < j of `nodes` in the same nested order as
    Connect and, for the pair (nodes[i], nodes[j]), deletes each of the two
    directed edges that exists and that `belongs` rejects. Pruning only
    deletes, so the weight of an edge that is still present when it is judged
    is its weight when Prune was called; a predicate on weights is therefore
    modelled as a predicate on the arena as it was at the call. */
module Pruning {
  import opened Graphs

  /** The edge a -> b has been judged once the walk reaches (i, j): the walk
      has passed a pair of positions that holds a and b, in either order. */
  ghost predicate JudgedBefore(nodes: seq<nat>, a: nat, b: nat, i: nat, j: nat)
    requires i < j && i <= |nodes| && (j <= |nodes| || j == i + 1)
    decreases i, j
  {
    if j > i + 1 then
      JudgedBefore(nodes, a, b, i, j - 1) || (a == nodes[i] && b == nodes[j - 1]) || (a == nodes[j - 1] && b == nodes[i])
    else if i == 0 then false
    else JudgedBefore(nodes, a, b, i - 1, |nodes|)
  }

  /** Some pair of positions p < q before (i, j) holds a and b, in either order. */
  ghost predicate PairBefore(nodes: seq<nat>, a: nat, b: nat, i: nat, j: nat) {
    (exists p, q :: 0 <= p < q < |nodes| && Before(p, q, i, j) && nodes[p] == a && nodes[q] == b) ||
    (exists p, q :: 0 <= p < q < |nodes| && Before(p, q, i, j) && nodes[p] == b && nodes[q] == a)
  }

  /** The edge a -> b is judged by a whole Prune walk. */
  ghost predicate Judged(nodes: seq<nat>, a: nat, b: nat) {
    (exists p, q :: 0 <= p < q < |nodes| && nodes[p] == a && nodes[q] == b) ||
    (exists p, q :: 0 <= p < q < |nodes| && nodes[p] == b && nodes[q] == a)
  }

  /** The arena after Prune(nodes, belongs): an edge a -> b is deleted exactly
      when the walk judges it and `belongs` rejects it. */
  ghost function Pruned<V>(s: seq<map<nat, V>>, nodes: seq<nat>, belongs: (nat, nat) -> bool): (t: seq<map<nat, V>>)
    ensures |t| == |s|
    ensures forall a, b :: 0 <= a < |s| ==>
      (b in t[a] <==> b in s[a] && (!Judged(nodes, a, b) || belongs(a, b)))
    ensures forall a, b :: 0 <= a < |s| && b in t[a] ==> t[a][b] == s[a][b]
  {
    seq(|s|, a requires 0 <= a < |s| =>
      map b | b in s[a] && (!Judged(nodes, a, b) || belongs(a, b)) :: s[a][b])
  }

  /** Judging the pair (i, j) adds exactly the two edges between nodes[i] and nodes[j]. */
  lemma JudgedStep(nodes: seq<nat>, a: nat, b: nat, i: nat, j: nat)
    requires i < j < |nodes|
    ensures PairBefore(nodes, a, b, i, j + 1) <==>
      PairBefore(nodes, a, b, i, j) || (a == nodes[i] && b == nodes[j]) || (a == nodes[j] && b == nodes[i])
  {
    if a == nodes[i] && b == nodes[j] {
      assert Before(i, j, i, j + 1);
    } else if a == nodes[j] && b == nodes[i] {
      assert Before(i, j, i, j + 1);
    }
  }

  /** The end of row i and the start of row i + 1 have judged the same pairs. */
  lemma JudgedRow(nodes: seq<nat>, a: nat, b: nat, i: nat)
    requires i < |nodes|
    ensures PairBefore(nodes, a, b, i, |nodes|) <==> PairBefore(nodes, a, b, i + 1, i + 2)
  {
  }

  /** The pairs the walk has passed are exactly the pairs of positions before (i, j). */
  lemma {:induction false} JudgedPairs(nodes: seq<nat>, a: nat, b: nat, i: nat, j: nat)
    requires i < j && i <= |nodes| && (j <= |nodes| || j == i + 1)
    ensures JudgedBefore(nodes, a, b, i, j) <==> PairBefore(nodes, a, b, i, j)
    decreases i, j
  {
    if j > i + 1 {
      JudgedPairs(nodes, a, b, i, j - 1);
      JudgedStep(nodes, a, b, i, j - 1);
    } else if i > 0 {
      JudgedPairs(nodes, a, b, i - 1, |nodes|);
      JudgedRow(nodes, a, b, i - 1);
    }
  }

  /** After the last row every pair has been judged. */
  lemma JudgedAll(nodes: seq<nat>, a: nat, b: nat)
    ensures JudgedBefore(nodes, a, b, |nodes|, |nodes| + 1) <==> Judged(nodes, a, b)
  {
    JudgedPairs(nodes, a, b, |nodes|, |nodes| + 1);
  }

  /** Deleting the edge a -> b when it exists and `belongs` rejects it. */
  function Judge<V>(t: seq<map<nat, V>>, belongs: (nat, nat) -> bool, a: nat, b: nat): (u: seq<map<nat, V>>)
    requires a < |t|
    ensures |u| == |t|
    ensures forall x :: 0 <= x < |t| && x != a ==> u[x] == t[x]
    ensures forall y :: y in u[a] <==> y in t[a] && (y != b || belongs(a, b))
    ensures forall y :: y in u[a] ==> u[a][y] == t[a][y]
  {
    if b in t[a] && !belongs(a, b) then t[a := t[a] - {b}] else t
  }

  /** Judge, seen from one edge a -> b: only the edge x -> y can go, and only
      when `belongs` rejects it; a kept edge keeps its weight. */
  lemma JudgeEdge<V>(t: seq<map<nat, V>>, belongs: (nat, nat) -> bool, x: nat, y: nat, a: nat, b: nat)
    requires x < |t| && a < |t|
    ensures var u := Judge(t, belongs, x, y);
      (b in u[a] <==> b in t[a] && (a != x || b != y || belongs(a, b))) &&
      (b in u[a] ==> u[a][b] == t[a][b])
  {
  }

  /** The arena as Prune's walk leaves it when it reaches the pair (i, j): the
      start arena judged pair by pair, in the walk's order. */
  ghost function Walk<V>(s: seq<map<nat, V>>, nodes: seq<nat>, belongs: (nat, nat) -> bool, i: nat, j: nat)
    : (t: seq<map<nat, V>>)
    requires InRange(s, nodes)
    requires i < j && i <= |nodes| && (j <= |nodes| || j == i + 1)
    ensures |t| == |s|
    decreases i, j
  {
    if j > i + 1 then
      Judge(Judge(Walk(s, nodes, belongs, i, j - 1), belongs, nodes[i], nodes[j - 1]), belongs, nodes[j - 1], nodes[i])
    else if i == 0 then s
    else Walk(s, nodes, belongs, i - 1, |nodes|)
  }

  /** Walking the pairs one by one gives the declarative description, edge by
      edge: a -> b survives when it was not judged yet or `belongs` accepts it,
      and it keeps its weight. */
  lemma {:induction false} WalkEdge<V>(s: seq<map<nat, V>>, nodes: seq<nat>, belongs: (nat, nat) -> bool,
                                       i: nat, j: nat, a: nat, b: nat)
    requires InRange(s, nodes)
    requires i < j && i <= |nodes| && (j <= |nodes| || j == i + 1)
    requires a < |s|
    ensures var t := Walk(s, nodes, belongs, i, j);
      (b in t[a] <==> b in s[a] && (!JudgedBefore(nodes, a, b, i, j) || belongs(a, b))) &&
      (b in t[a] ==> t[a][b] == s[a][b])
    decreases i, j
  {
    if j > i + 1 {
      var t := Walk(s, nodes, belongs, i, j - 1);
      var v := Judge(t, belongs, nodes[i], nodes[j - 1]);
      assert Walk(s, nodes, belongs, i, j) == Judge(v, belongs, nodes[j - 1], nodes[i]);
      WalkEdge(s, nodes, belongs, i, j - 1, a, b);
      JudgeEdge(t, belongs, nodes[i], nodes[j - 1], a, b);
      JudgeEdge(v, belongs, nodes[j - 1], nodes[i], a, b);
    } else if i > 0 {
      WalkEdge(s, nodes, belongs, i - 1, |nodes|, a, b);
    }
  }

  /** A whole walk prunes exactly the judged and rejected edges. */
  lemma {:induction false} WalkIsPruned<V>(s: seq<map<nat, V>>, nodes: seq<nat>, belongs: (nat, nat) -> bool)
    requires InRange(s, nodes)
    ensures Walk(s, nodes, belongs, |nodes|, |nodes| + 1) == Pruned(s, nodes, belongs)
  {
    var t := Walk(s, nodes, belongs, |nodes|, |nodes| + 1);
    var v := Pruned(s, nodes, belongs);
    forall a | 0 <= a < |s| ensures t[a] == v[a] {
      forall b ensures (b in t[a] <==> b in v[a]) && (b in t[a] ==> t[a][b] == v[a][b]) {
        WalkEdge(s, nodes, belongs, |nodes|, |nodes| + 1, a, b);
        JudgedAll(nodes, a, b);
      }
    }
  }

  /** The body of Prune's inner loop for the nodes a and b: each of the edges
      a -> b and b -> a is deleted when it exists and `belongs` rejects it. */
  method JudgePair<K, V>(g: Graph<K, V>, a: nat, b: nat, belongs: (nat, nat) -> bool)
    requires a < |g.peers| && b < |g.peers|
    modifies g
    ensures g.keys == old(g.keys)
    ensures g.peers == Judge(Judge(old(g.peers), belongs, a, b), belongs, b, a)
  {
    if b in g.peers[a] && !belongs(a, b) {
      g.DeleteEdge(a, b);
    }
    if a in g.peers[b] && !belongs(b, a) {
      g.DeleteEdge(b, a);
    }
  }

  /** Judging the pair (i, j) takes the walk from (i, j) to (i, j + 1). */
  lemma WalkStep<V>(s: seq<map<nat, V>>, nodes: seq<nat>, belongs: (nat, nat) -> bool, i: nat, j: nat,
                    before: seq<map<nat, V>>, after: seq<map<nat, V>>)
    requires InRange(s, nodes) && i < j < |nodes|
    requires before == Walk(s, nodes, belongs, i, j)
    requires after == Judge(Judge(before, belongs, nodes[i], nodes[j]), belongs, nodes[j], nodes[i])
    ensures after == Walk(s, nodes, belongs, i, j + 1)
  {
  }

  /** The inner loop of Prune: judge node i against every later node. */
  method PruneRow<K, V>(g: Graph<K, V>, nodes: seq<nat>, belongs: (nat, nat) -> bool, i: nat, ghost s: seq<map<nat, V>>)
    requires InRange(s, nodes) && i < |nodes|
    requires g.peers == Walk(s, nodes, belongs, i, i + 1)
    modifies g
    ensures g.keys == old(g.keys)
    ensures g.peers == Walk(s, nodes, belongs, i, |nodes|)
  {
    var j: nat := i + 1;
    while j < |nodes|
      invariant i < j <= |nodes|
      invariant g.keys == old(g.keys) && |g.peers| == |s|
      invariant g.peers == Walk(s, nodes, belongs, i, j)
    {
      JudgeNext(g, nodes, belongs, i, j, s);
      j := j + 1;
    }
  }

  /** One pass of Prune's inner loop body: judging the pair (i, j) takes the
      walk from (i, j) to (i, j + 1). */
  method JudgeNext<K, V>(g: Graph<K, V>, nodes: seq<nat>, belongs: (nat, nat) -> bool, i: nat, j: nat,
                         ghost s: seq<map<nat, V>>)
    requires InRange(s, nodes) && i < j < |nodes|
    requires g.peers == Walk(s, nodes, belongs, i, j)
    modifies g
    ensures g.keys == old(g.keys)
    ensures g.peers == Walk(s, nodes, belongs, i, j + 1)
  {
    ghost var before := g.peers;
    JudgePair(g, nodes[i], nodes[j], belongs);
    WalkStep(s, nodes, belongs, i, j, before, g.peers);
  }

  /** Prune(nodes, belongs): the arena becomes Pruned of what it was; keys do not change. */
  method Prune<K, V>(g: Graph<K, V>, nodes: seq<nat>, belongs: (nat, nat) -> bool)
    requires g.Valid() && InRange(g.peers, nodes)
    modifies g
    ensures g.Valid()
    ensures g.keys == old(g.keys)
    ensures g.peers == Pruned(old(g.peers), nodes, belongs)
  {
    ghost var s := g.peers;
    var i: nat := 0;
    while i < |nodes|
      invariant i <= |nodes|
      invariant g.keys == old(g.keys) && |g.peers| == |s|
      invariant g.peers == Walk(s, nodes, belongs, i, i + 1)
    {
      PruneRow(g, nodes, belongs, i, s);
      i := i + 1;
    }
    WalkIsPruned(s, nodes, belongs);
    PrunedDeletes(s, nodes, belongs);
  }

  /** The predicate PruneByWeight hands to Prune: the weight of a -> b, as it
      was when pruning started, is accepted by `belongs`. */
  function ByWeight<V>(s: seq<map<nat, V>>, belongs: V -> bool): (f: (nat, nat) -> bool)
    ensures forall a: nat, b: nat :: a < |s| && b in s[a] ==> (f(a, b) <==> belongs(s[a][b]))
  {
    (a: nat, b: nat) => a < |s| && b in s[a] && belongs(s[a][b])
  }

  /** The predicate PruneByKey hands to Prune: `belongs` accepts the two keys. */
  function ByKey<K>(keys: seq<K>, belongs: (K, K) -> bool): (f: (nat, nat) -> bool)
    ensures forall a: nat, b: nat :: a < |keys| && b < |keys| ==> (f(a, b) <==> belongs(keys[a], keys[b]))
  {
    (a: nat, b: nat) => a < |keys| && b < |keys| && belongs(keys[a], keys[b])
  }

  /** PruneByWeight(nodes, belongs): an edge judged by the walk survives exactly
      when `belongs` accepts its weight. */
  method PruneByWeight<K, V>(g: Graph<K, V>, nodes: seq<nat>, belongs: V -> bool)
    requires g.Valid() && InRange(g.peers, nodes)
    modifies g
    ensures g.Valid()
    ensures g.keys == old(g.keys)
    ensures g.peers == Pruned(old(g.peers), nodes, ByWeight(old(g.peers), belongs))
  {
    var s := g.peers;
    Prune(g, nodes, ByWeight(s, belongs));
  }

  /** PruneByKey(nodes, belongs): an edge judged by the walk survives exactly
      when `belongs` accepts the keys of its two ends. */
  method PruneByKey<K, V>(g: Graph<K, V>, nodes: seq<nat>, belongs: (K, K) -> bool)
    requires g.Valid() && InRange(g.peers, nodes)
    modifies g
    ensures g.Valid()
    ensures g.keys == old(g.keys)
    ensures g.peers == Pruned(old(g.peers), nodes, ByKey(old(g.keys), belongs))
  {
    Prune(g, nodes, ByKey(g.keys, belongs));
  }

  /** Pruning only deletes edges and never changes a weight; a closed arena stays closed. */
  lemma PrunedDeletes<V>(s: seq<map<nat, V>>, nodes: seq<nat>, belongs: (nat, nat) -> bool)
    ensures DeletionOnly(s, Pruned(s, nodes, belongs))
    ensures Closed(s) ==> Closed(Pruned(s, nodes, belongs))
  {
  }

  /** Edges between two nodes of which one is not in `nodes` are left alone. */
  lemma PrunedOutside<V>(s: seq<map<nat, V>>, nodes: seq<nat>, belongs: (nat, nat) -> bool, a: nat, b: nat)
    requires a < |s| && (a !in nodes || b !in nodes)
    ensures b in Pruned(s, nodes, belongs)[a] <==> b in s[a]
  {
  }

  /** An edge between two listed nodes at different positions survives exactly
      when `belongs` accepts it. */
  lemma PrunedInside<V>(s: seq<map<nat, V>>, nodes: seq<nat>, belongs: (nat, nat) -> bool, p: nat, q: nat)
    requires p < |nodes| && q < |nodes| && p != q && nodes[p] < |s|
    ensures nodes[q] in Pruned(s, nodes, belongs)[nodes[p]] <==> nodes[q] in s[nodes[p]] && belongs(nodes[p], nodes[q])
  {
    if p < q {
      assert Judged(nodes, nodes[p], nodes[q]);
    } else {
      assert Judged(nodes, nodes[p], nodes[q]) by {
        assert 0 <= q < p < |nodes| && nodes[q] == nodes[q] && nodes[p] == nodes[p];
      }
    }
  }

  /** Pruning twice with the same predicate is pruning once. */
  lemma {:induction false} PruneIdempotent<V>(s: seq<map<nat, V>>, nodes: seq<nat>, belongs: (nat, nat) -> bool)
    ensures Pruned(Pruned(s, nodes, belongs), nodes, belongs) == Pruned(s, nodes, belongs)
  {
    var t := Pruned(s, nodes, belongs);
    var u := Pruned(t, nodes, belongs);
    forall a | 0 <= a < |s| ensures u[a] == t[a] {
      assert forall b :: b in u[a] <==> b in t[a];
    }
  }

  /** PruneByWeight twice is PruneByWeight once: the surviving edges keep their
      weights, so the second pass accepts every one of them again. */
  lemma {:induction false} PruneByWeightIdempotent<V>(s: seq<map<nat, V>>, nodes: seq<nat>, belongs: V -> bool)
    ensures var t := Pruned(s, nodes, ByWeight(s, belongs));
      Pruned(t, nodes, ByWeight(t, belongs)) == t
  {
    var t := Pruned(s, nodes, ByWeight(s, belongs));
    var u := Pruned(t, nodes, ByWeight(t, belongs));
    forall a | 0 <= a < |s| ensures u[a] == t[a] {
      forall b ensures b in u[a] <==> b in t[a] {
        if b in t[a] {
          assert b in s[a] && t[a][b] == s[a][b];
        }
      }
    }
  }

  /** With a predicate that gives the same answer in both directions, pruning
      keeps every edge mutual. */
  lemma {:induction false} PruneKeepsMutual<V>(s: seq<map<nat, V>>, nodes: seq<nat>, belongs: (nat, nat) -> bool)
    requires Mutual(s)
    requires forall a: nat, b: nat :: belongs(a, b) == belongs(b, a)
    ensures Mutual(Pruned(s, nodes, belongs))
  {
    var t := Pruned(s, nodes, belongs);
    forall a, b | 0 <= a < |t| && 0 <= b < |t| ensures b in t[a] <==> a in t[b] {
      assert Judged(nodes, a, b) <==> Judged(nodes, b, a);
    }
  }

  /** PruneByKey with a symmetric key predicate keeps every edge mutual. */
  lemma {:induction false} PruneByKeyKeepsMutual<K, V>(s: seq<map<nat, V>>, keys: seq<K>, nodes: seq<nat>, belongs: (K, K) -> bool)
    requires Mutual(s)
    requires forall x, y :: belongs(x, y) == belongs(y, x)
    ensures Mutual(Pruned(s, nodes, ByKey(keys, belongs)))
  {
    var f := ByKey(keys, belongs);
    forall a: nat, b: nat ensures f(a, b) == f(b, a) {
      if a < |keys| && b < |keys| {
        assert belongs(keys[a], keys[b]) == belongs(keys[b], keys[a]);
      }
    }
    PruneKeepsMutual(s, nodes, f);
  }

  /** PruneByWeight can leave an edge in one direction only: when the two
      directions carry different weights and `belongs` accepts only one of
      them, the pair ends up one-way, and IsRelated on it would panic. */
  lemma PruneByWeightOneWay<V>(s: seq<map<nat, V>>, belongs: V -> bool, forth: V, back: V)
    requires s == [map[1 := forth], map[0 := back]]
    requires belongs(forth) && !belongs(back)
    ensures var t := Pruned(s, [0, 1], ByWeight(s, belongs));
      Mutual(s) && !Mutual(t) && IsRelated(t, 0, 1) == OneWay(0, 1)
  {
    var nodes: seq<nat> := [0, 1];
    var f := ByWeight(s, belongs);
    assert f(0, 1) && !f(1, 0);
    PrunedInside(s, nodes, f, 0, 1);
    PrunedInside(s, nodes, f, 1, 0);
    OneWayPair(Pruned(s, nodes, f));
    MutualPair(s, forth, back);
  }

  /** Two nodes joined in both directions are mutual. */
  lemma MutualPair<V>(s: seq<map<nat, V>>, forth: V, back: V)
    requires s == [map[1 := forth], map[0 := back]]
    ensures Mutual(s)
  {
    forall a, b | 0 <= a < |s| && 0 <= b < |s| ensures b in s[a] <==> a in s[b] {
      assert s[0].Keys == {1} && s[1].Keys == {0};
    }
  }

  /** An arena of two nodes where 0 -> 1 exists and 1 -> 0 does not is one-way. */
  lemma OneWayPair<V>(t: seq<map<nat, V>>)
    requires |t| == 2 && 1 in t[0] && 0 !in t[1]
    ensures !Mutual(t) && IsRelated(t, 0, 1) == OneWay(0, 1)
  {
  }
}
