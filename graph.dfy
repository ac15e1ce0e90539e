/** Nodes, peer maps and the read-only queries of peers.go.

    A Go `*Node[K, V]` is an index into one arena: node `a` has the key
    `keys[a]` and the outgoing edges `peers[a]`, a map from peer index to
    the weight of the edge a -> peer. Pointer identity becomes index
    equality; a slice of nodes becomes a `seq<nat>` of indices. */
module Graphs {

  datatype Option<T> = None | Some(value: T)

  /** The outcome of a relatedness check. `OneWay(from, to)` stands for the Go
      panic "nodes must have either a mutual relationship or no relationship":
      the edge from -> to exists and the edge to -> from does not. */
  datatype Checked<T> = Ok(value: T) | OneWay(from: nat, to: nat)

  /** The arena of nodes produced together by one Connect or Map call. */
  class Graph<K, V> {
    var keys: seq<K>
    var peers: seq<map<nat, V>>

    /** Every node has a key, and every edge points at a node of this arena. */
    ghost predicate Valid()
      reads this
    {
      |keys| == |peers| && Closed(peers)
    }

    constructor ()
      ensures keys == [] && peers == []
      ensures Valid()
    {
      keys := [];
      peers := [];
    }

    /** &Node{Key: key, Peers: make(PeerMap)}: a new node with no peers, at index |peers|. */
    method AddNode(key: K)
      modifies this
      ensures keys == old(keys) + [key]
      ensures peers == old(peers) + [map[]]
      ensures old(Valid()) ==> Valid()
    {
      keys := keys + [key];
      peers := peers + [map[]];
    }

    /** a.Peers[b], b.Peers[a] = w1, w2: the pair of edges between a and b now
        carries w1 (a -> b) and w2 (b -> a); nothing else changes. */
    method SetPair(a: nat, b: nat, w1: V, w2: V)
      requires a < |peers| && b < |peers| && a != b
      modifies this
      ensures keys == old(keys) && |peers| == |old(peers)|
      ensures peers[a] == old(peers)[a][b := w1]
      ensures peers[b] == old(peers)[b][a := w2]
      ensures forall x :: 0 <= x < |peers| && x != a && x != b ==> peers[x] == old(peers)[x]
      ensures old(Valid()) ==> Valid()
    {
      var ma: map<nat, V> := peers[a][b := w1];
      var mb: map<nat, V> := peers[b][a := w2];
      peers := peers[a := ma][b := mb];
    }

    /** delete(a.Peers, b): the edge a -> b is gone; nothing else changes. */
    method DeleteEdge(a: nat, b: nat)
      requires a < |peers|
      modifies this
      ensures keys == old(keys) && |peers| == |old(peers)|
      ensures peers == old(peers)[a := old(peers)[a] - {b}]
      ensures old(Valid()) ==> Valid()
    {
      var m: map<nat, V> := peers[a] - {b};
      peers := peers[a := m];
    }
  }

  /** The nested walk over positions i < j used by Connect, Map and Prune:
      the pair (p, q), p < q, comes before the pair (i, j). */
  ghost predicate Before(p: nat, q: nat, i: nat, j: nat) {
    p < i || (p == i && q < j)
  }

  /** Every edge of `s` ends at a node of `s`. */
  ghost predicate Closed<V>(s: seq<map<nat, V>>) {
    forall a, b :: 0 <= a < |s| && b in s[a] ==> b < |s|
  }

  /** Every index of `nodes` names a node of `s`. */
  ghost predicate InRange<V>(s: seq<map<nat, V>>, nodes: seq<nat>) {
    forall k :: 0 <= k < |nodes| ==> nodes[k] < |s|
  }

  /** The mutuality invariant: a -> b exists exactly when b -> a exists. */
  ghost predicate Mutual<V>(s: seq<map<nat, V>>) {
    forall a, b :: 0 <= a < |s| && 0 <= b < |s| ==> (b in s[a] <==> a in s[b])
  }

  /** `t` is `s` with some edges deleted and no weight changed. */
  ghost predicate DeletionOnly<V>(s: seq<map<nat, V>>, t: seq<map<nat, V>>) {
    |t| == |s| &&
    forall a, b :: 0 <= a < |t| && b in t[a] ==> b in s[a] && t[a][b] == s[a][b]
  }

  /** Both directions of the edge between a and b exist. */
  ghost predicate Related<V>(s: seq<map<nat, V>>, a: nat, b: nat) {
    a < |s| && b < |s| && b in s[a] && a in s[b]
  }

  /** Every two members of `group` (at positions p < q) are related. */
  ghost predicate Clique<V>(s: seq<map<nat, V>>, group: seq<nat>) {
    forall p, q :: 0 <= p < q < |group| ==> Related(s, group[p], group[q])
  }

  /** No two members of `group` are joined by an edge in one direction only. */
  ghost predicate Consistent<V>(s: seq<map<nat, V>>, group: seq<nat>)
    requires InRange(s, group)
  {
    forall p, q :: 0 <= p < q < |group| ==> (group[q] in s[group[p]] <==> group[p] in s[group[q]])
  }

  /** IsRelated(n1, n2): true when both directions exist, false when neither does,
      and the panic (OneWay) when exactly one does. */
  function IsRelated<V>(s: seq<map<nat, V>>, a: nat, b: nat): (r: Checked<bool>)
    requires a < |s| && b < |s|
    ensures r == Ok(true) <==> b in s[a] && a in s[b]
    ensures r == Ok(false) <==> b !in s[a] && a !in s[b]
    ensures r.OneWay? <==> (b in s[a]) != (a in s[b])
    ensures r.OneWay? ==> (r.from, r.to) in {(a, b), (b, a)} && r.to in s[r.from] && r.from !in s[r.to]
  {
    var ok1 := b in s[a];
    var ok2 := a in s[b];
    if !ok1 && ok2 then OneWay(b, a)
    else if ok1 && !ok2 then OneWay(a, b)
    else Ok(ok1 && ok2)
  }

  /** The pair of positions (p, q) comes at or after (i, j) in the order
      (0,1), (0,2), ..., (1,2), ... in which IsFamily visits pairs. */
  ghost predicate AtOrAfter(p: nat, q: nat, i: nat, j: nat) {
    p > i || (p == i && q >= j)
  }

  /** Every pair of positions at or after (i, j) is related. */
  ghost predicate RelatedFrom<V>(s: seq<map<nat, V>>, group: seq<nat>, i: nat, j: nat) {
    forall p, q :: 0 <= p < q < |group| && AtOrAfter(p, q, i, j) ==> Related(s, group[p], group[q])
  }

  /** No pair of positions at or after (i, j) is joined one way only. */
  ghost predicate ConsistentFrom<V>(s: seq<map<nat, V>>, group: seq<nat>, i: nat, j: nat)
    requires InRange(s, group)
  {
    forall p, q :: 0 <= p < q < |group| && AtOrAfter(p, q, i, j) ==>
      (group[q] in s[group[p]] <==> group[p] in s[group[q]])
  }

  /** The pair (i, j) is the first of the pairs at or after (i, j). */
  lemma PairStep<V>(s: seq<map<nat, V>>, group: seq<nat>, i: nat, j: nat)
    requires InRange(s, group)
    requires i < j < |group|
    ensures RelatedFrom(s, group, i, j) <==> Related(s, group[i], group[j]) && RelatedFrom(s, group, i, j + 1)
    ensures ConsistentFrom(s, group, i, j) <==>
      (group[j] in s[group[i]] <==> group[i] in s[group[j]]) && ConsistentFrom(s, group, i, j + 1)
  {
  }

  /** Past the last pair of row i, the pairs left are those from (i + 1, i + 2) on. */
  lemma RowStep<V>(s: seq<map<nat, V>>, group: seq<nat>, i: nat, j: nat)
    requires InRange(s, group)
    requires i < j && |group| <= j
    ensures RelatedFrom(s, group, i, j) <==> RelatedFrom(s, group, i + 1, i + 2)
    ensures ConsistentFrom(s, group, i, j) <==> ConsistentFrom(s, group, i + 1, i + 2)
  {
  }

  /** The loop of IsFamily from the pair (i, j) on: it stops at the first pair
      that is not related, panicking if that pair is related one way only. */
  function FamilyFrom<V>(s: seq<map<nat, V>>, group: seq<nat>, i: nat, j: nat): (r: Checked<bool>)
    requires InRange(s, group)
    requires i < j
    ensures r == Ok(true) <==> RelatedFrom(s, group, i, j)
    ensures r.OneWay? ==> !ConsistentFrom(s, group, i, j)
    ensures r.OneWay? ==> r.from < |s| && r.to < |s| && r.to in s[r.from] && r.from !in s[r.to]
    ensures r.OneWay? ==> r.from in group && r.to in group
    ensures ConsistentFrom(s, group, i, j) ==> r.Ok?
    decreases |group| - i, |group| - j
  {
    if j >= |group| then
      RowStep(s, group, i, j);
      if i + 1 >= |group| then Ok(true) else FamilyFrom(s, group, i + 1, i + 2)
    else
      PairStep(s, group, i, j);
      match IsRelated(s, group[i], group[j])
      case OneWay(x, y) => OneWay(x, y)
      case Ok(related) => if !related then Ok(false) else FamilyFrom(s, group, i, j + 1)
  }

  /** IsFamily(nodes): every pair is related. Vacuously true for fewer than two nodes;
      it panics (OneWay) only on a one-way edge inside the group. */
  function IsFamily<V>(s: seq<map<nat, V>>, group: seq<nat>): (r: Checked<bool>)
    requires InRange(s, group)
    ensures r == Ok(true) <==> Clique(s, group)
    ensures r.OneWay? ==> !Consistent(s, group)
    ensures r.OneWay? ==> r.from < |s| && r.to < |s| && r.to in s[r.from] && r.from !in s[r.to]
    ensures r.OneWay? ==> r.from in group && r.to in group
    ensures Consistent(s, group) ==> r.Ok?
    ensures |group| < 2 ==> r == Ok(true)
  {
    FamilyFrom(s, group, 0, 1)
  }

  /** Position k holds the last node of `nodes` with its key. */
  ghost predicate LastWithKey<K>(keys: seq<K>, nodes: seq<nat>, k: nat)
    requires forall k :: 0 <= k < |nodes| ==> nodes[k] < |keys|
    requires k < |nodes|
  {
    forall l :: k < l < |nodes| ==> keys[nodes[l]] != keys[nodes[k]]
  }

  /** AsMap(nodes): maps each key to the node carrying it; a later node wins over an
      earlier one with the same key, as the Go loop overwrites. */
  function AsMap<K>(keys: seq<K>, nodes: seq<nat>): (m: map<K, nat>)
    requires forall k :: 0 <= k < |nodes| ==> nodes[k] < |keys|
    ensures forall k :: 0 <= k < |nodes| ==> keys[nodes[k]] in m
    ensures forall x :: x in m ==> exists k :: 0 <= k < |nodes| && keys[nodes[k]] == x
    ensures forall k :: 0 <= k < |nodes| && LastWithKey(keys, nodes, k) ==> m[keys[nodes[k]]] == nodes[k]
  {
    if nodes == [] then map[]
    else
      var init := nodes[..|nodes| - 1];
      var last := nodes[|nodes| - 1];
      var m := AsMap(keys, init);
      assert init + [last] == nodes;
      AsMapStep(keys, init, last, m, nodes, m[keys[last] := last]);
      m[keys[last] := last]
  }

  /** One iteration of the AsMap loop keeps its three properties: m is the map
      built from the nodes init, and m' stores the node last after them. */
  lemma AsMapStep<K>(keys: seq<K>, init: seq<nat>, last: nat, m: map<K, nat>, nodes: seq<nat>, m': map<K, nat>)
    requires forall k :: 0 <= k < |init| ==> init[k] < |keys|
    requires last < |keys| && nodes == init + [last]
    requires m' == m[keys[last] := last]
    requires forall k :: 0 <= k < |init| ==> keys[init[k]] in m
    requires forall x :: x in m ==> exists k :: 0 <= k < |init| && keys[init[k]] == x
    requires forall k :: 0 <= k < |init| && LastWithKey(keys, init, k) ==> m[keys[init[k]]] == init[k]
    ensures forall k :: 0 <= k < |nodes| ==> keys[nodes[k]] in m'
    ensures forall x :: x in m' ==> exists k :: 0 <= k < |nodes| && keys[nodes[k]] == x
    ensures forall k :: 0 <= k < |nodes| && LastWithKey(keys, nodes, k) ==> m'[keys[nodes[k]]] == nodes[k]
  {
    forall k | 0 <= k < |nodes| ensures keys[nodes[k]] in m' {
      if k < |init| {
        assert nodes[k] == init[k];
      }
    }
    forall x | x in m' ensures exists k :: 0 <= k < |nodes| && keys[nodes[k]] == x {
      if x == keys[last] {
        assert keys[nodes[|init|]] == x;
      } else {
        var k :| 0 <= k < |init| && keys[init[k]] == x;
        assert nodes[k] == init[k];
      }
    }
    forall k | 0 <= k < |nodes| && LastWithKey(keys, nodes, k) ensures m'[keys[nodes[k]]] == nodes[k] {
      if k < |init| {
        assert nodes[k] == init[k];
        assert keys[nodes[|init|]] != keys[nodes[k]];
        forall l | k < l < |init| ensures keys[init[l]] != keys[init[k]] {
          assert nodes[l] == init[l];
        }
        assert LastWithKey(keys, init, k);
      }
    }
  }

  /** PeerWeights(node): the weight of each outgoing edge, keyed by the peer's key.
      Go visits the peer map in an unspecified order, so when two peers share a key
      either weight may survive; the loop picks peers in an arbitrary order too. */
  method PeerWeights<K, V>(g: Graph<K, V>, a: nat) returns (m: map<K, V>)
    requires g.Valid() && a < |g.peers|
    ensures forall p :: p in g.peers[a] ==> g.keys[p] in m
    ensures forall x :: x in m ==>
      exists p :: p in g.peers[a] && g.keys[p] == x && m[x] == g.peers[a][p]
    ensures (forall p, q :: p in g.peers[a] && q in g.peers[a] && p != q ==> g.keys[p] != g.keys[q]) ==>
      forall p :: p in g.peers[a] ==> m[g.keys[p]] == g.peers[a][p]
  {
    var todo := g.peers[a].Keys;
    m := map[];
    while todo != {}
      invariant todo <= g.peers[a].Keys
      invariant forall p :: p in g.peers[a] && p !in todo ==> g.keys[p] in m
      invariant forall x :: x in m ==>
        exists p :: p in g.peers[a] && p !in todo && g.keys[p] == x && m[x] == g.peers[a][p]
      decreases |todo|
    {
      var p :| p in todo;
      m := m[g.keys[p] := g.peers[a][p]];
      todo := todo - {p};
    }
  }
}
