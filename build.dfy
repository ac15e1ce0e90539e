/** Graph construction: Connect and Map of peers.go.

    Both walk the pairs (0,1), (0,2), ..., (0,n-1), (1,2), ..., (n-2,n-1) with
    two counters i and j, allocate node j (and node 0 first) while i is 0, and
    store the two directed weights `derive` returns for the pair. Nodes are
    allocated into a fresh arena in the order 0, 1, 2, ..., so the node that
    Go stores in dst[k] is arena index k. With a single key the loop body never
    runs: no node is allocated and dst[0] stays nil (None). */
module Build {
  import opened Graphs
  import Util

  /** The edge a -> b has been written once every pair before (i, j) is done. */
  ghost predicate Written(a: nat, b: nat, i: nat, j: nat) {
    (a < b && Before(a, b, i, j)) || (b < a && Before(b, a, i, j))
  }

  /** The slice dst once `count` nodes exist: dst[k] is node k or nil. */
  function Slots(count: nat, n: nat): (d: seq<Option<nat>>)
    ensures |d| == n
    ensures forall k :: 0 <= k < n ==> d[k] == if k < count then Some(k) else None
  {
    seq(n, k => if k < count then Some(k) else None)
  }

  /** Storing the next node in dst. */
  lemma SlotsStep(count: nat, n: nat)
    requires count < n
    ensures Slots(count, n)[count := Some(count)] == Slots(count + 1, n)
  {
  }

  /** How many nodes the loop has allocated when it reaches the pair (i, j). */
  function Allocated(i: nat, j: nat, n: nat): nat {
    if i == 0 then (if j == 1 then 0 else j) else n
  }

  /** Once the pairs before (i, j) are done, the edges of `s` are exactly the
      written ones between nodes that `linked` lets through. */
  ghost predicate EdgesUpTo<V>(s: seq<map<nat, V>>, i: nat, j: nat, linked: (nat, nat) -> bool) {
    forall a: nat, b: nat :: a < |s| ==> (b in s[a] <==> b < |s| && Written(a, b, i, j) && linked(a, b))
  }

  /** Every edge pair a < b of `s` carries the two weights derive gives for the keys of a and b. */
  ghost predicate WeightsFrom<K, V>(s: seq<map<nat, V>>, keys: seq<K>, derive: (K, K) -> (V, V))
    requires |s| <= |keys|
  {
    forall a, b :: 0 <= a < b < |s| && b in s[a] ==>
      a in s[b] && s[a][b] == derive(keys[a], keys[b]).0 && s[b][a] == derive(keys[a], keys[b]).1
  }

  /** Allocating a node with no peers in the first row keeps the edge invariants. */
  lemma AppendNode<K, V>(s: seq<map<nat, V>>, j: nat, linked: (nat, nat) -> bool, keys: seq<K>, derive: (K, K) -> (V, V))
    requires 1 <= j && (|s| == 0 || |s| == j) && |s| < |keys|
    requires EdgesUpTo(s, 0, j, linked) && WeightsFrom(s, keys, derive)
    ensures EdgesUpTo(s + [map[]], 0, j, linked) && WeightsFrom(s + [map[]], keys, derive)
  {
    var t := s + [map[]];
    forall a: nat, b: nat | a < |t| ensures b in t[a] <==> b < |t| && Written(a, b, 0, j) && linked(a, b) {
      if a < |s| {
        assert t[a] == s[a];
      }
    }
  }

  /** Writing both directed weights of the pair (i, j) moves the invariants to (i, j + 1). */
  lemma WritePair<K, V>(s: seq<map<nat, V>>, t: seq<map<nat, V>>, i: nat, j: nat,
                        linked: (nat, nat) -> bool, keys: seq<K>, derive: (K, K) -> (V, V))
    requires i < j < |s| <= |keys|
    requires EdgesUpTo(s, i, j, linked) && WeightsFrom(s, keys, derive)
    requires linked(i, j) && linked(j, i)
    requires |t| == |s| && forall a :: 0 <= a < |s| && a != i && a != j ==> t[a] == s[a]
    requires t[i] == s[i][j := derive(keys[i], keys[j]).0]
    requires t[j] == s[j][i := derive(keys[i], keys[j]).1]
    ensures EdgesUpTo(t, i, j + 1, linked) && WeightsFrom(t, keys, derive)
  {
    forall a: nat, b: nat | a < |t| ensures b in t[a] <==> b < |t| && Written(a, b, i, j + 1) && linked(a, b) {
      assert Written(a, b, i, j + 1) <==> Written(a, b, i, j) || (a == i && b == j) || (a == j && b == i);
      if a != i && a != j {
        assert t[a] == s[a];
      }
    }
    forall a, b | 0 <= a < b < |t| && b in t[a]
      ensures a in t[b] && t[a][b] == derive(keys[a], keys[b]).0 && t[b][a] == derive(keys[a], keys[b]).1
    {
      if a == i && b == j {
      } else {
        assert b in s[a];
      }
    }
  }

  /** Skipping the pair (i, j) moves the invariants to (i, j + 1) when `linked` rejects it. */
  lemma SkipPair<V>(s: seq<map<nat, V>>, i: nat, j: nat, linked: (nat, nat) -> bool)
    requires i < j < |s|
    requires EdgesUpTo(s, i, j, linked)
    requires !linked(i, j) && !linked(j, i)
    ensures EdgesUpTo(s, i, j + 1, linked)
  {
    forall a: nat, b: nat | a < |s| ensures b in s[a] <==> b < |s| && Written(a, b, i, j + 1) && linked(a, b) {
      assert Written(a, b, i, j + 1) <==> Written(a, b, i, j) || (a == i && b == j) || (a == j && b == i);
    }
  }

  /** The end of row i is the start of row i + 1. */
  lemma NextRow<V>(s: seq<map<nat, V>>, i: nat, linked: (nat, nat) -> bool)
    requires i < |s|
    requires EdgesUpTo(s, i, |s|, linked)
    ensures EdgesUpTo(s, i + 1, i + 2, linked)
  {
  }

  /** When the loop leaves, every pair has been visited: the edges are exactly
      the linked pairs of distinct nodes. */
  lemma Complete<V>(s: seq<map<nat, V>>, i: nat, j: nat, linked: (nat, nat) -> bool)
    requires |s| == 0 || (i + 1 == |s| && j == |s|)
    requires EdgesUpTo(s, i, j, linked)
    ensures Closed(s)
    ensures forall a, b :: 0 <= a < |s| && 0 <= b < |s| ==> (b in s[a] <==> a != b && linked(a, b))
  {
    forall a: nat, b: nat | a < |s| && b < |s| ensures b in s[a] <==> a != b && linked(a, b) {
      assert Written(a, b, i, j) <==> a != b;
    }
  }

  /** The allocation done while i is 0: on the first pair node 0, and on every
      pair node j, gets a new Node with the next key and no peers, and dst
      records it. */
  method Allocate<K, V>(g: Graph<K, V>, dst: seq<Option<nat>>, first: K, next: K, j: nat,
                        ghost keys: seq<K>, ghost linked: (nat, nat) -> bool, ghost derive: (K, K) -> (V, V))
    returns (d: seq<Option<nat>>)
    requires 1 <= j < |keys| && first == keys[0] && next == keys[j]
    requires |g.keys| == |g.peers| == Allocated(0, j, |keys|)
    requires g.keys == keys[..|g.keys|]
    requires dst == Slots(|g.keys|, |keys|)
    requires EdgesUpTo(g.peers, 0, j, linked) && WeightsFrom(g.peers, keys, derive)
    modifies g
    ensures |g.keys| == |g.peers| == j + 1
    ensures g.keys == keys[..j + 1]
    ensures d == Slots(j + 1, |keys|)
    ensures EdgesUpTo(g.peers, 0, j, linked) && WeightsFrom(g.peers, keys, derive)
  {
    d := dst;
    if j == 1 {
      AppendNode(g.peers, j, linked, keys, derive);
      SlotsStep(|g.keys|, |keys|);
      g.AddNode(first);
      d := d[0 := Some(0)];
    }
    AppendNode(g.peers, j, linked, keys, derive);
    SlotsStep(|g.keys|, |keys|);
    g.AddNode(next);
    d := d[j := Some(j)];
  }

  /** dst[i].Peers[dst[j]], dst[j].Peers[dst[i]] = derive(...): storing both
      directed weights of a linked pair moves the edge invariants to (i, j + 1). */
  method Link<K, V>(g: Graph<K, V>, i: nat, j: nat, w: (V, V),
                    ghost keys: seq<K>, ghost linked: (nat, nat) -> bool, ghost derive: (K, K) -> (V, V))
    requires i < j < |g.peers| <= |keys|
    requires linked(i, j) && linked(j, i) && w == derive(keys[i], keys[j])
    requires EdgesUpTo(g.peers, i, j, linked) && WeightsFrom(g.peers, keys, derive)
    modifies g
    ensures g.keys == old(g.keys) && |g.peers| == |old(g.peers)|
    ensures EdgesUpTo(g.peers, i, j + 1, linked) && WeightsFrom(g.peers, keys, derive)
  {
    ghost var s := g.peers;
    g.SetPair(i, j, w.0, w.1);
    WritePair(s, g.peers, i, j, linked, keys, derive);
  }

  /** Connect(src, derive): a fully connected graph over the keys, in key order;
      for every i < j the edge i -> j carries derive(src[i], src[j]).0 and the
      edge j -> i carries derive(src[i], src[j]).1; there are no self-edges. */
  method Connect<K, V>(src: seq<K>, derive: (K, K) -> (V, V)) returns (g: Graph<K, V>, dst: seq<Option<nat>>)
    ensures fresh(g) && g.Valid()
    ensures |dst| == |src|
    ensures |src| >= 2 ==> g.keys == src && forall k :: 0 <= k < |src| ==> dst[k] == Some(k)
    ensures |src| < 2 ==> g.keys == [] && forall k :: 0 <= k < |src| ==> dst[k] == None
    ensures forall a, b :: 0 <= a < |g.peers| && 0 <= b < |g.peers| ==> (b in g.peers[a] <==> a != b)
    ensures forall a, b :: 0 <= a < b < |g.peers| ==>
      g.peers[a][b] == derive(src[a], src[b]).0 && g.peers[b][a] == derive(src[a], src[b]).1
  {
    var n := |src|;
    ghost var linked := (a: nat, b: nat) => true;
    g := new Graph();
    dst := Slots(0, n);
    var i: nat, j: nat := 0, 1;
    while i < n - 1
      invariant n >= 2 ==> i <= n - 1 && i < j <= n && (i < n - 1 ==> j < n)
      invariant n < 2 ==> i == 0 && j == 1
      invariant |g.keys| == |g.peers| == Allocated(i, j, n) <= n
      invariant g.keys == src[..|g.keys|]
      invariant dst == Slots(|g.keys|, n)
      invariant EdgesUpTo(g.peers, i, j, linked) && WeightsFrom(g.peers, src, derive)
      decreases n - i, n - j
    {
      if i == 0 {
        dst := Allocate(g, dst, src[0], src[j], j, src, linked, derive);
      }
      var w := derive(src[i], src[j]);
      Link(g, i, j, w, src, linked, derive);
      if j + 1 == n {
        NextRow(g.peers, i, linked);
        i, j := i + 1, i + 2;
      } else {
        j := j + 1;
      }
    }
    Complete(g.peers, i, j, linked);
  }

  /** Map links positions a and b exactly when their source nodes point at each other. */
  ghost function Joins<V>(sp: seq<map<nat, V>>, nodes: seq<nat>): (nat, nat) -> bool {
    (a: nat, b: nat) => a < |nodes| && b < |nodes| && Related(sp, nodes[a], nodes[b])
  }

  /** One pass of Map's loop body over the source's keys sk and peers sp:
      allocation while i is 0, then the pair (i, j) is copied when the source
      nodes point at each other both ways. */
  method MapPair<K, V1, V2>(sk: seq<K>, sp: seq<map<nat, V1>>, nodes: seq<nat>, derive: (K, K) -> (V2, V2),
                            h: Graph<K, V2>, dst: seq<Option<nat>>, i: nat, j: nat,
                            ghost keys: seq<K>, ghost linked: (nat, nat) -> bool)
    returns (d: seq<Option<nat>>)
    requires |sk| == |sp| && InRange(sp, nodes)
    requires keys == Util.IndicesToElements(sk, nodes)
    requires linked == Joins(sp, nodes)
    requires i < j < |nodes|
    requires |h.keys| == |h.peers| == Allocated(i, j, |nodes|)
    requires h.keys == keys[..|h.keys|]
    requires dst == Slots(|h.keys|, |nodes|)
    requires EdgesUpTo(h.peers, i, j, linked) && WeightsFrom(h.peers, keys, derive)
    modifies h
    ensures |h.keys| == |h.peers| == Allocated(i, j + 1, |nodes|)
    ensures h.keys == keys[..|h.keys|]
    ensures d == Slots(|h.keys|, |nodes|)
    ensures EdgesUpTo(h.peers, i, j + 1, linked) && WeightsFrom(h.peers, keys, derive)
  {
    d := dst;
    if i == 0 {
      d := Allocate(h, d, sk[nodes[0]], sk[nodes[j]], j, keys, linked, derive);
    }
    var ok1 := nodes[j] in sp[nodes[i]];
    var ok2 := nodes[i] in sp[nodes[j]];
    if ok1 && ok2 {
      var w := derive(sk[nodes[i]], sk[nodes[j]]);
      Link(h, i, j, w, keys, linked, derive);
    } else {
      SkipPair(h.peers, i, j, linked);
    }
  }

  /** Map(src, derive): a fresh graph over the same keys, in the same order, with an
      edge pair between positions a and b exactly when the source nodes were joined
      in both directions, carrying derive's weights for the keys; the source is not
      changed. */
  method Map<K, V1, V2>(src: Graph<K, V1>, nodes: seq<nat>, derive: (K, K) -> (V2, V2))
    returns (h: Graph<K, V2>, dst: seq<Option<nat>>)
    requires src.Valid() && InRange(src.peers, nodes)
    ensures fresh(h) && h.Valid()
    ensures src.keys == old(src.keys) && src.peers == old(src.peers)
    ensures |dst| == |nodes|
    ensures |nodes| >= 2 ==> |h.keys| == |nodes| && forall k :: 0 <= k < |nodes| ==> h.keys[k] == src.keys[nodes[k]]
    ensures |nodes| >= 2 ==> forall k :: 0 <= k < |nodes| ==> dst[k] == Some(k)
    ensures |nodes| < 2 ==> h.keys == [] && forall k :: 0 <= k < |nodes| ==> dst[k] == None
    ensures forall a, b :: 0 <= a < |h.peers| && 0 <= b < |h.peers| ==>
      (b in h.peers[a] <==> a != b && Related(src.peers, nodes[a], nodes[b]))
    ensures forall a, b :: 0 <= a < b < |h.peers| && Related(src.peers, nodes[a], nodes[b]) ==>
      var w := derive(src.keys[nodes[a]], src.keys[nodes[b]]);
      b in h.peers[a] && a in h.peers[b] && h.peers[a][b] == w.0 && h.peers[b][a] == w.1
  {
    var n := |nodes|;
    var sk, sp := src.keys, src.peers;
    ghost var linked := Joins(sp, nodes);
    ghost var keys := Util.IndicesToElements(sk, nodes);
    h := new Graph();
    dst := Slots(0, n);
    var i: nat, j: nat := 0, 1;
    while i < n - 1
      invariant n >= 2 ==> i <= n - 1 && i < j <= n && (i < n - 1 ==> j < n)
      invariant n < 2 ==> i == 0 && j == 1
      invariant |h.keys| == |h.peers| == Allocated(i, j, n) <= n
      invariant h.keys == keys[..|h.keys|]
      invariant dst == Slots(|h.keys|, n)
      invariant EdgesUpTo(h.peers, i, j, linked) && WeightsFrom(h.peers, keys, derive)
      decreases n - i, n - j
    {
      dst := MapPair(sk, sp, nodes, derive, h, dst, i, j, keys, linked);
      if j + 1 == n {
        NextRow(h.peers, i, linked);
        i, j := i + 1, i + 2;
      } else {
        j := j + 1;
      }
    }
    Complete(h.peers, i, j, linked);
  }
}
