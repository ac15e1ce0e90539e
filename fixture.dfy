/** The fixture of peers_test.go, carried through the model.

    Seven string keys are connected with the tests' derive, which weighs an
    edge by a character the two keys share and by 0 when they share none.
    Pruning by weight keeps exactly the pairs that share a character. From
    there Families finds three families. Coagulate accepts the first family
    and the last one, and skips the middle one because it shares members
    with the first. Afterwards Families finds only the two accepted families. */
module Fixture {
  import opened Util
  import opened Graphs
  import opened Combinations
  import opened Build
  import opened Pruning
  import opened Cliques
  import opened Coagulation
  import opened Maximal

  /** The inner loops of the tests' derive: scanning s front to back, acc
      becomes s[i] whenever s[i] occurs in t. */
  function Scan(s: string, t: string, acc: char): char {
    if s == [] then acc
    else Scan(s[1..], t, if s[0] in t then s[0] else acc)
  }

  /** The scan keeps acc when no character of s occurs in t, and otherwise
      ends on a character that s and t share. */
  lemma {:induction false} ScanFinds(s: string, t: string, acc: char)
    ensures (forall i :: 0 <= i < |s| ==> s[i] !in t) ==> Scan(s, t, acc) == acc
    ensures (exists i :: 0 <= i < |s| && s[i] in t) ==> Scan(s, t, acc) in s && Scan(s, t, acc) in t
  {
    if s != [] {
      var acc' := if s[0] in t then s[0] else acc;
      ScanFinds(s[1..], t, acc');
      assert forall i :: 0 <= i < |s| - 1 ==> s[1..][i] == s[i + 1];
      if s[0] !in t {
        assert (exists i :: 0 <= i < |s| && s[i] in t) ==> exists i :: 0 <= i < |s| - 1 && s[1..][i] in t;
      } else if !exists i :: 0 <= i < |s| - 1 && s[1..][i] in t {
        assert Scan(s, t, acc) == s[0];
      }
    }
  }

  /** The last character of s that occurs in t decides the scan. */
  lemma {:induction false} ScanLast(s: string, t: string, acc: char)
    requires s != []
    ensures Scan(s, t, acc) == if s[|s| - 1] in t then s[|s| - 1] else Scan(s[..|s| - 1], t, acc)
    decreases |s|
  {
    var acc' := if s[0] in t then s[0] else acc;
    if |s| == 1 {
      assert s[1..] == [] && s[..0] == [];
    } else {
      ScanLast(s[1..], t, acc');
      assert s[1..][|s| - 2] == s[|s| - 1];
      assert s[1..][..|s| - 2] == s[..|s| - 1][1..];
    }
  }

  /** The weight that stands for "no shared character": byte(0). */
  const Zero: char := '\0'

  /** derive(s1, s2): the last character of s1 found in s2, and the last
      character of s2 found in s1. */
  function Derive(s1: string, s2: string): (char, char) {
    (Scan(s1, s2, Zero), Scan(s2, s1, Zero))
  }

  /** derive weighs a pair by (Zero, Zero) when the keys share no character,
      and otherwise by two characters both keys hold. */
  lemma DeriveShares(s1: string, s2: string)
    ensures (forall i :: 0 <= i < |s1| ==> s1[i] !in s2) ==> Derive(s1, s2) == (Zero, Zero)
    ensures (exists i :: 0 <= i < |s1| && s1[i] in s2) ==>
      var w := Derive(s1, s2);
      w.0 in s1 && w.0 in s2 && w.1 in s1 && w.1 in s2
  {
    ScanFinds(s1, s2, Zero);
    ScanFinds(s2, s1, Zero);
    if exists i :: 0 <= i < |s1| && s1[i] in s2 {
      var j :| 0 <= j < |s1| && s1[j] in s2;
      var i :| 0 <= i < |s2| && s2[i] == s1[j];
    }
  }

  /** prune: an edge belongs when its weight is not zero. */
  function NonZero(w: char): (r: bool)
    ensures r <==> w != Zero
  {
    w != Zero
  }

  /** The keys of the fixture. */
  const Keys: seq<string> := ["a", "ab", "abc", "bce", "ca", "d", "e"]

  /** The nodes Connect returns for Keys, as arena indices. */
  const Nodes: seq<nat> := seq(7, k => k)

  /** The pairs of keys that share a character, node by node. */
  const Joined: seq<set<nat>> := [{1, 2, 4}, {0, 2, 3, 4}, {0, 1, 3, 4}, {1, 2, 4, 6}, {0, 1, 2, 3}, {}, {3}]

  /** The edges left once the families {a, ab, abc, ca} and {bce, e} are cut off. */
  const Coagulated: seq<set<nat>> := [{1, 2, 4}, {0, 2, 4}, {0, 1, 4}, {6}, {0, 1, 2}, {}, {3}]

  /** The families found after pruning: {a, ab, abc, ca}, {ab, abc, bce, ca} and {bce, e}. */
  const First: seq<seq<nat>> := [[0, 1, 2, 4], [1, 2, 3, 4], [3, 6]]

  /** The families found after Coagulate: {a, ab, abc, ca} and {bce, e}. */
  const Second: seq<seq<nat>> := [[0, 1, 2, 4], [3, 6]]

  /** Every node's peers are the given set. */
  ghost predicate Edges<V>(s: seq<map<nat, V>>, adj: seq<set<nat>>) {
    |s| == |adj| && forall a :: 0 <= a < |s| ==> s[a].Keys == adj[a]
  }

  /** For a key of at most three characters, the scan ends on the last of
      them found in t, or keeps acc when none is. */
  lemma ScanShort(s: string, t: string, acc: char)
    requires 0 < |s| <= 3
    ensures Scan(s, t, acc) ==
      if s[|s| - 1] in t then s[|s| - 1]
      else if |s| >= 2 && s[|s| - 2] in t then s[|s| - 2]
      else if |s| == 3 && s[0] in t then s[0]
      else acc
  {
    ScanLast(s, t, acc);
    if |s| >= 2 {
      ScanLast(s[..|s| - 1], t, acc);
      if |s| == 3 {
        ScanLast(s[..1], t, acc);
        assert s[..2][..1] == s[..1];
      }
      assert s[..|s| - 1][..|s| - 2] == s[..|s| - 2];
    }
    var p := s[..|s| - 1];
    assert |s| == 1 ==> p == [];
  }

  /** derive on two short keys, by ScanShort in both directions. */
  lemma WeighShort(s1: string, s2: string)
    requires 0 < |s1| <= 3 && 0 < |s2| <= 3
    ensures Derive(s1, s2).0 == if s1[|s1| - 1] in s2 then s1[|s1| - 1]
      else if |s1| >= 2 && s1[|s1| - 2] in s2 then s1[|s1| - 2]
      else if |s1| == 3 && s1[0] in s2 then s1[0] else Zero
    ensures Derive(s1, s2).1 == if s2[|s2| - 1] in s1 then s2[|s2| - 1]
      else if |s2| >= 2 && s2[|s2| - 2] in s1 then s2[|s2| - 2]
      else if |s2| == 3 && s2[0] in s1 then s2[0] else Zero
  {
    ScanShort(s1, s2, Zero);
    ScanShort(s2, s1, Zero);
  }

  /** The weights derive gives the pairs of "a" with the later keys. */
  lemma DeriveFromA()
    ensures Derive(Keys[0], Keys[1]) == ('a', 'a') && Derive(Keys[0], Keys[2]) == ('a', 'a')
    ensures Derive(Keys[0], Keys[3]) == (Zero, Zero) && Derive(Keys[0], Keys[4]) == ('a', 'a')
    ensures Derive(Keys[0], Keys[5]) == (Zero, Zero) && Derive(Keys[0], Keys[6]) == (Zero, Zero)
  {
    WeighShort(Keys[0], Keys[1]);
    WeighShort(Keys[0], Keys[2]);
    WeighShort(Keys[0], Keys[4]);
    DeriveShares(Keys[0], Keys[3]);
    DeriveShares(Keys[0], Keys[5]);
    DeriveShares(Keys[0], Keys[6]);
  }

  /** The weights derive gives the pairs of "ab" with the later keys. */
  lemma DeriveFromAB()
    ensures Derive(Keys[1], Keys[2]) == ('b', 'b') && Derive(Keys[1], Keys[3]) == ('b', 'b')
    ensures Derive(Keys[1], Keys[4]) == ('a', 'a') && Derive(Keys[1], Keys[5]) == (Zero, Zero)
    ensures Derive(Keys[1], Keys[6]) == (Zero, Zero)
  {
    WeighShort(Keys[1], Keys[2]);
    WeighShort(Keys[1], Keys[3]);
    WeighShort(Keys[1], Keys[4]);
    DeriveShares(Keys[1], Keys[5]);
    DeriveShares(Keys[1], Keys[6]);
  }

  /** The weights derive gives the pairs of "abc" with the later keys. */
  lemma DeriveFromABC()
    ensures Derive(Keys[2], Keys[3]) == ('c', 'c') && Derive(Keys[2], Keys[4]) == ('c', 'a')
    ensures Derive(Keys[2], Keys[5]) == (Zero, Zero) && Derive(Keys[2], Keys[6]) == (Zero, Zero)
  {
    WeighShort(Keys[2], Keys[3]);
    WeighShort(Keys[2], Keys[4]);
    DeriveShares(Keys[2], Keys[5]);
    DeriveShares(Keys[2], Keys[6]);
  }

  /** The weights derive gives the pairs of "bce", "ca" and "d" with the later keys. */
  lemma DeriveFromBCE()
    ensures Derive(Keys[3], Keys[4]) == ('c', 'c') && Derive(Keys[3], Keys[5]) == (Zero, Zero)
    ensures Derive(Keys[3], Keys[6]) == ('e', 'e')
    ensures Derive(Keys[4], Keys[5]) == (Zero, Zero) && Derive(Keys[4], Keys[6]) == (Zero, Zero)
    ensures Derive(Keys[5], Keys[6]) == (Zero, Zero)
  {
    WeighShort(Keys[3], Keys[4]);
    WeighShort(Keys[3], Keys[6]);
    DeriveShares(Keys[3], Keys[5]);
    DeriveShares(Keys[4], Keys[5]);
    DeriveShares(Keys[4], Keys[6]);
    DeriveShares(Keys[5], Keys[6]);
  }

  /** Zero weights mark exactly the keys "a" shares no character with. */
  lemma WeighedA(b: nat)
    requires 0 < b < 7
    ensures Derive(Keys[0], Keys[b]).0 != Zero <==> b in Joined[0]
    ensures Derive(Keys[0], Keys[b]).1 != Zero <==> 0 in Joined[b]
  {
    DeriveFromA();
    assert b == 1 || b == 2 || b == 3 || b == 4 || b == 5 || b == 6;
  }

  /** Zero weights mark exactly the later keys "ab" shares no character with. */
  lemma WeighedAB(b: nat)
    requires 1 < b < 7
    ensures Derive(Keys[1], Keys[b]).0 != Zero <==> b in Joined[1]
    ensures Derive(Keys[1], Keys[b]).1 != Zero <==> 1 in Joined[b]
  {
    DeriveFromAB();
    assert b == 2 || b == 3 || b == 4 || b == 5 || b == 6;
  }

  /** Zero weights mark exactly the later keys "abc" shares no character with. */
  lemma WeighedABC(b: nat)
    requires 2 < b < 7
    ensures Derive(Keys[2], Keys[b]).0 != Zero <==> b in Joined[2]
    ensures Derive(Keys[2], Keys[b]).1 != Zero <==> 2 in Joined[b]
  {
    DeriveFromABC();
    assert b == 3 || b == 4 || b == 5 || b == 6;
  }

  /** Zero weights mark exactly the later pairs of "bce", "ca", "d" and "e" that share no character. */
  lemma WeighedBCE(a: nat, b: nat)
    requires 3 <= a < b < 7
    ensures Derive(Keys[a], Keys[b]).0 != Zero <==> b in Joined[a]
    ensures Derive(Keys[a], Keys[b]).1 != Zero <==> a in Joined[b]
  {
    DeriveFromBCE();
    assert (a == 3 && (b == 4 || b == 5 || b == 6)) || (a == 4 && (b == 5 || b == 6)) || (a == 5 && b == 6);
  }

  /** Two keys of the fixture share a character exactly when Joined pairs them,
      and derive weighs the pair by Zero exactly when they share none. */
  lemma Weighed(a: nat, b: nat)
    requires a < b < 7
    ensures Derive(Keys[a], Keys[b]).0 != Zero <==> b in Joined[a]
    ensures Derive(Keys[a], Keys[b]).1 != Zero <==> a in Joined[b]
  {
    if a == 0 {
      WeighedA(b);
    } else if a == 1 {
      WeighedAB(b);
    } else if a == 2 {
      WeighedABC(b);
    } else {
      WeighedBCE(a, b);
    }
  }

  /** Joined is symmetric, has no self-loops and no node beyond the seventh. */
  lemma JoinedNodes(a: nat, b: nat)
    requires a < 7 && b in Joined[a]
    ensures b < 7 && b != a && a in Joined[b]
  {
    assert a == 0 || a == 1 || a == 2 || a == 3 || a == 4 || a == 5 || a == 6;
  }

  /** Over the whole arena, every pair of distinct nodes is judged by Prune. */
  lemma JudgedAllPairs(a: nat, b: nat)
    requires a < 7 && b < 7 && a != b
    ensures Judged(Nodes, a, b)
  {
    assert Nodes[a] == a && Nodes[b] == b;
    if a < b {
      assert 0 <= a < b < |Nodes| && Nodes[a] == a && Nodes[b] == b;
    } else {
      assert 0 <= b < a < |Nodes| && Nodes[b] == b && Nodes[a] == a;
    }
  }

  /** The weight Connect gives the edge a -> b: derive's first result for a
      before b, its second for a after b. */
  function Weight(a: nat, b: nat): char
    requires a < 7 && b < 7
  {
    if a < b then Derive(Keys[a], Keys[b]).0 else Derive(Keys[b], Keys[a]).1
  }

  /** What Connect builds for the fixture: every two distinct nodes are joined,
      the edge a -> b weighed by Weight(a, b). */
  ghost predicate Connected(s: seq<map<nat, char>>) {
    |s| == 7 && Closed(s) &&
    forall a, b :: 0 <= a < |s| && 0 <= b < |s| ==>
      (b in s[a] <==> a != b) && (a != b ==> s[a][b] == Weight(a, b))
  }

  /** The edges of the connected fixture carry Weight. */
  lemma Weighs(s: seq<map<nat, char>>, a: nat, b: nat)
    requires Connected(s) && a < 7 && b < 7 && a != b
    ensures b in s[a] && s[a][b] == Weight(a, b)
  {
  }

  /** Weight is not zero exactly when Joined pairs the two nodes. */
  lemma Survives(a: nat, b: nat)
    requires a < 7 && b < 7 && a != b
    ensures Weight(a, b) != Zero <==> b in Joined[a]
  {
    if a < b {
      Weighed(a, b);
    } else {
      Weighed(b, a);
    }
  }

  /** An edge of the connected fixture survives pruning exactly when its keys share a character. */
  lemma PrunedPair(s: seq<map<nat, char>>, a: nat, b: nat)
    requires Connected(s) && a < 7
    ensures b in Pruned(s, Nodes, ByWeight(s, NonZero))[a] <==> b in Joined[a]
  {
    if b in Joined[a] {
      JoinedNodes(a, b);
    }
    if b < 7 && b != a {
      JudgedAllPairs(a, b);
      Weighs(s, a, b);
      assert ByWeight(s, NonZero)(a, b) <==> s[a][b] != Zero;
      Survives(a, b);
    } else {
      assert b !in s[a];
    }
  }

  /** Pruning the connected fixture by non-zero weight keeps exactly the pairs
      of keys that share a character. */
  lemma PrunedEdges(s: seq<map<nat, char>>)
    requires Connected(s)
    ensures Edges(Pruned(s, Nodes, ByWeight(s, NonZero)), Joined)
  {
    var t := Pruned(s, Nodes, ByWeight(s, NonZero));
    forall a | 0 <= a < 7 ensures t[a].Keys == Joined[a] {
      forall b: nat ensures b in t[a] <==> b in Joined[a] {
        PrunedPair(s, a, b);
      }
    }
  }

  /** Two members of a clique are each other's peers. */
  lemma Neighbour<V>(s: seq<map<nat, V>>, adj: seq<set<nat>>, c: seq<nat>, p: nat, q: nat)
    requires Edges(s, adj) && Clique(s, c) && p < |c| && q < |c| && p != q
    ensures c[p] < |s| && c[q] in adj[c[p]]
  {
    if p < q {
      assert Related(s, c[p], c[q]);
    } else {
      assert Related(s, c[q], c[p]);
    }
  }

  /** Nodes that are pairwise peers form a clique. */
  lemma CliqueFrom<V>(s: seq<map<nat, V>>, adj: seq<set<nat>>, c: seq<nat>)
    requires Edges(s, adj) && forall k :: 0 <= k < |c| ==> c[k] < |s|
    requires forall p, q :: 0 <= p < q < |c| ==> c[q] in adj[c[p]] && c[p] in adj[c[q]]
    ensures Clique(s, c)
  {
  }

  /** A graph whose edges follow a symmetric adjacency is mutual, so no group
      of it has a one-way edge. */
  lemma EdgesConsistent<V>(s: seq<map<nat, V>>, adj: seq<set<nat>>, nodes: seq<nat>)
    requires Edges(s, adj) && InRange(s, nodes)
    requires forall a, b :: 0 <= a < |adj| && 0 <= b < |adj| && b in adj[a] ==> a in adj[b]
    ensures Mutual(s) && Consistent(s, nodes)
  {
  }

  lemma JoinedSymmetric()
    ensures forall a, b :: 0 <= a < |Joined| && 0 <= b < |Joined| && b in Joined[a] ==> a in Joined[b]
  {
    forall a, b | 0 <= a < |Joined| && 0 <= b < |Joined| && b in Joined[a] ensures a in Joined[b] {
      JoinedNodes(a, b);
    }
  }

  /** The group a, ab, abc, ca is a candidate of the pruned fixture. */
  lemma FirstCandidate0<V>(s: seq<map<nat, V>>)
    requires Edges(s, Joined)
    ensures Candidate(s, Nodes, First[0], true)
  {
    var c := First[0];
    assert c == [0, 1, 2, 4];
    assert c != Start(4) by { assert c[3] != Start(4)[3]; }
    WholePick(Nodes, c);
    forall p, q | 0 <= p < q < |c| ensures Related(s, c[p], c[q]) {
      assert p == 0 || p == 1 || p == 2;
    }
  }

  /** The group ab, abc, bce, ca is a candidate of the pruned fixture. */
  lemma FirstCandidate1<V>(s: seq<map<nat, V>>)
    requires Edges(s, Joined)
    ensures Candidate(s, Nodes, First[1], true)
  {
    var c := First[1];
    assert c == [1, 2, 3, 4];
    assert c != Start(4) by { assert c[0] != Start(4)[0]; }
    WholePick(Nodes, c);
    forall p, q | 0 <= p < q < |c| ensures Related(s, c[p], c[q]) {
      assert p == 0 || p == 1 || p == 2;
    }
  }

  /** The group bce, e is a candidate of the pruned fixture. */
  lemma FirstCandidate2<V>(s: seq<map<nat, V>>)
    requires Edges(s, Joined)
    ensures Candidate(s, Nodes, First[2], true)
  {
    var c := First[2];
    assert c == [3, 6];
    assert c != Start(2) by { assert c[0] != Start(2)[0]; }
    WholePick(Nodes, c);
    assert Related(s, c[0], c[1]);
  }

  /** No group of First lies inside another, and they are in walk order. */
  lemma FirstApart()
    ensures forall i, j :: 0 <= i < |First| && 0 <= j < |First| && i != j ==> !Subset(First[i], First[j])
    ensures forall i, j :: 0 <= i < j < |First| ==> Precedes(First[i], First[j])
  {
    assert First[1][2] !in First[0] && First[2][1] !in First[0];
    assert First[0][0] !in First[1] && First[2][1] !in First[1];
    assert First[0][0] !in First[2] && First[1][0] !in First[2];
    assert LexLessAt(First[0], First[1], 0);
  }

  /** A candidate over the whole arena is a clique of at least two of its nodes. */
  lemma CandidateClique<V>(s: seq<map<nat, V>>, c: seq<nat>)
    requires Candidate(s, Nodes, c, true)
    ensures 2 <= |c| && Clique(s, c) && forall k :: 0 <= k < |c| ==> c[k] < 7
  {
    WholePick(Nodes, c);
  }

  /** A member of a clique of two or more nodes has a peer. */
  lemma Lonely<V>(s: seq<map<nat, V>>, adj: seq<set<nat>>, c: seq<nat>, p: nat)
    requires Edges(s, adj) && Clique(s, c) && 2 <= |c| && p < |c|
    ensures c[p] < |adj| && adj[c[p]] != {}
  {
    Neighbour(s, adj, c, p, if p == 0 then 1 else 0);
  }

  /** Every clique of two or more nodes of the pruned fixture lies in a group
      of First: the only peer of node 6 is node 3, the peers of node 0 are
      First[0], and without 0, 5 and 6 what is left is First[1]. */
  lemma JoinedCover<V>(s: seq<map<nat, V>>, c: seq<nat>)
    requires Edges(s, Joined) && Clique(s, c) && 2 <= |c| && forall k :: 0 <= k < |c| ==> c[k] < 7
    ensures SubsetOfAny(First, c)
  {
    forall q | 0 <= q < |c| ensures c[q] != 5 {
      Lonely(s, Joined, c, q);
    }
    if p :| 0 <= p < |c| && c[p] == 6 {
      forall q | 0 <= q < |c| ensures c[q] in First[2] {
        if q != p {
          Neighbour(s, Joined, c, p, q);
        }
      }
      assert Subset(First[2], c);
    } else if p :| 0 <= p < |c| && c[p] == 0 {
      forall q | 0 <= q < |c| ensures c[q] in First[0] {
        if q != p {
          Neighbour(s, Joined, c, p, q);
        }
      }
      assert Subset(First[0], c);
    } else {
      forall q | 0 <= q < |c| ensures c[q] in First[1] {
        assert c[q] == 1 || c[q] == 2 || c[q] == 3 || c[q] == 4;
      }
      assert Subset(First[1], c);
    }
  }

  /** First is the answer for the pruned fixture: its groups are the maximal
      candidates, none inside another, in walk order. */
  lemma FirstAnswer<V>(s: seq<map<nat, V>>)
    requires Edges(s, Joined)
    ensures Answer(s, Nodes, First)
  {
    FirstCandidate0(s);
    FirstCandidate1(s);
    FirstCandidate2(s);
    assert |First| == 3;
    forall j | 0 <= j < |First| ensures Candidate(s, Nodes, First[j], true) {
      assert j == 0 || j == 1 || j == 2;
    }
    forall c | Candidate(s, Nodes, c, true) ensures SubsetOfAny(First, c) {
      CandidateClique(s, c);
      JoinedCover(s, c);
    }
    FirstApart();
  }

  // ---------------------------------------------------------------------------
  // Coagulating the fixture by First

  /** Coagulate with First accepts a, ab, abc, ca; skips ab, abc, bce, ca,
      whose member ab is already claimed; and accepts bce, e. */
  lemma FirstClaims()
    ensures ToMap(First[0]) == {0, 1, 2, 4} && ToMap(First[2]) == {3, 6}
    ensures Accepted(First, 0) && !Accepted(First, 1) && Accepted(First, 2)
  {
    var f0 := ToMap(First[0]);
    assert f0 == {0, 1, 2, 4} by {
      forall x | x in f0 ensures x in {0, 1, 2, 4} {
        assert x in First[0];
      }
      assert First[0][0] in f0 && First[0][1] in f0 && First[0][2] in f0 && First[0][3] in f0;
    }
    var f2 := ToMap(First[2]);
    assert f2 == {3, 6} by {
      forall x | x in f2 ensures x in {3, 6} {
        assert x in First[2];
      }
      assert First[2][0] in f2 && First[2][1] in f2;
    }
    assert First[..0] == [];
    assert First[..1][..0] == [];
    assert Claimed(First[..1]) == f0;
    assert First[..2][..1] == First[..1];
    assert Claimed(First[..2]) == f0;
  }

  /** Coagulated is symmetric, has no self-loops and no node beyond the seventh. */
  lemma CoagulatedNodes(a: nat, b: nat)
    requires a < 7 && b in Coagulated[a]
    ensures b < 7 && b != a && a in Coagulated[b]
  {
    assert a == 0 || a == 1 || a == 2 || a == 3 || a == 4 || a == 5 || a == 6;
  }

  lemma CoagulatedSymmetric()
    ensures forall a, b :: 0 <= a < |Coagulated| && 0 <= b < |Coagulated| && b in Coagulated[a] ==> a in Coagulated[b]
  {
    forall a, b | 0 <= a < |Coagulated| && 0 <= b < |Coagulated| && b in Coagulated[a] ensures a in Coagulated[b] {
      CoagulatedNodes(a, b);
    }
  }

  /** Node a keeps, after coagulating the pruned fixture by First, exactly its
      peers in Coagulated. */
  lemma CoagulatedRow<V>(t: seq<map<nat, V>>, a: nat)
    requires Edges(t, Joined) && AllInRange(t, First) && a < 7
    ensures After(t, First)[a].Keys == Coagulated[a]
  {
    FirstClaims();
    if a == 0 || a == 1 || a == 2 {
      AfterFamily(t, First, 0, a);
    } else if a == 4 {
      AfterFamily(t, First, 0, 3);
    } else if a == 3 {
      AfterFamily(t, First, 2, 0);
    } else if a == 6 {
      AfterFamily(t, First, 2, 1);
    } else {
      AfterDeletes(t, First);
      assert After(t, First)[a].Keys <= t[a].Keys;
    }
  }

  /** Coagulating the pruned fixture by First leaves a, ab, abc, ca joined
      among themselves, bce and e joined to each other, and nothing else. */
  lemma CoagulatedEdges<V>(t: seq<map<nat, V>>)
    requires Edges(t, Joined)
    ensures AllInRange(t, First)
    ensures Edges(After(t, First), Coagulated)
  {
    assert AllInRange(t, First) by {
      forall i | 0 <= i < |First| ensures InRange(t, First[i]) {
        assert i == 0 || i == 1 || i == 2;
      }
    }
    forall a | 0 <= a < 7 ensures After(t, First)[a].Keys == Coagulated[a] {
      CoagulatedRow(t, a);
    }
  }

  /** The group a, ab, abc, ca is still a candidate after coagulation. */
  lemma SecondCandidate0<V>(s: seq<map<nat, V>>)
    requires Edges(s, Coagulated)
    ensures Candidate(s, Nodes, Second[0], true)
  {
    var c := Second[0];
    assert c == [0, 1, 2, 4];
    assert c != Start(4) by { assert c[3] != Start(4)[3]; }
    WholePick(Nodes, c);
    forall p, q | 0 <= p < q < |c| ensures Related(s, c[p], c[q]) {
      assert p == 0 || p == 1 || p == 2;
    }
  }

  /** The group bce, e is still a candidate after coagulation. */
  lemma SecondCandidate1<V>(s: seq<map<nat, V>>)
    requires Edges(s, Coagulated)
    ensures Candidate(s, Nodes, Second[1], true)
  {
    var c := Second[1];
    assert c == [3, 6];
    assert c != Start(2) by { assert c[0] != Start(2)[0]; }
    WholePick(Nodes, c);
    assert Related(s, c[0], c[1]);
  }

  /** Every clique of two or more nodes of the coagulated fixture lies in a
      group of Second: node 5 has no peer, nodes 3 and 6 only each other, and
      the rest are a, ab, abc, ca. */
  lemma CoagulatedCover<V>(s: seq<map<nat, V>>, c: seq<nat>)
    requires Edges(s, Coagulated) && Clique(s, c) && 2 <= |c| && forall k :: 0 <= k < |c| ==> c[k] < 7
    ensures SubsetOfAny(Second, c)
  {
    forall q | 0 <= q < |c| ensures c[q] != 5 {
      Lonely(s, Coagulated, c, q);
    }
    if p :| 0 <= p < |c| && (c[p] == 3 || c[p] == 6) {
      forall q | 0 <= q < |c| ensures c[q] in Second[1] {
        if q != p {
          Neighbour(s, Coagulated, c, p, q);
        }
      }
      assert Subset(Second[1], c);
    } else {
      forall q | 0 <= q < |c| ensures c[q] in Second[0] {
        assert c[q] == 0 || c[q] == 1 || c[q] == 2 || c[q] == 4;
      }
      assert Subset(Second[0], c);
    }
  }

  /** Neither group of Second lies inside the other, and they are in walk order. */
  lemma SecondApart()
    ensures forall i, j :: 0 <= i < |Second| && 0 <= j < |Second| && i != j ==> !Subset(Second[i], Second[j])
    ensures forall i, j :: 0 <= i < j < |Second| ==> Precedes(Second[i], Second[j])
  {
    assert Second[1][0] !in Second[0] && Second[0][0] !in Second[1];
  }

  /** Second is the answer for the coagulated fixture. */
  lemma SecondAnswer<V>(s: seq<map<nat, V>>)
    requires Edges(s, Coagulated)
    ensures Answer(s, Nodes, Second)
  {
    SecondCandidate0(s);
    SecondCandidate1(s);
    forall j | 0 <= j < |Second| ensures Candidate(s, Nodes, Second[j], true) {
      assert j == 0 || j == 1;
    }
    forall c | Candidate(s, Nodes, c, true) ensures SubsetOfAny(Second, c) {
      CandidateClique(s, c);
      CoagulatedCover(s, c);
    }
    SecondApart();
  }

  // ---------------------------------------------------------------------------
  // The two tests

  /** The keys of the nodes of each group. */
  function KeysOf(keys: seq<string>, groups: seq<seq<nat>>): seq<seq<string>>
    requires forall i, k :: 0 <= i < |groups| && 0 <= k < |groups[i]| ==> groups[i][k] < |keys|
  {
    seq(|groups|, i requires 0 <= i < |groups| => IndicesToElements(keys, groups[i]))
  }

  /** The keys of First's groups, as the test lists its families. */
  lemma FirstKeys()
    ensures KeysOf(Keys, First) == [["a", "ab", "abc", "ca"], ["ab", "abc", "bce", "ca"], ["bce", "e"]]
  {
    assert IndicesToElements(Keys, First[0]) == ["a", "ab", "abc", "ca"];
    assert IndicesToElements(Keys, First[1]) == ["ab", "abc", "bce", "ca"];
    assert IndicesToElements(Keys, First[2]) == ["bce", "e"];
  }

  /** The keys of Second's groups, as the test lists the coagulated families. */
  lemma SecondKeys()
    ensures KeysOf(Keys, Second) == [["a", "ab", "abc", "ca"], ["bce", "e"]]
  {
    assert IndicesToElements(Keys, Second[0]) == ["a", "ab", "abc", "ca"];
    assert IndicesToElements(Keys, Second[1]) == ["bce", "e"];
  }

  /** The arena Connect(keys, derive) promises is the connected fixture. */
  lemma ConnectBuilds(s: seq<map<nat, char>>)
    requires |s| == 7 && Closed(s)
    requires forall a, b :: 0 <= a < |s| && 0 <= b < |s| ==> (b in s[a] <==> a != b)
    requires forall a, b :: 0 <= a < b < |s| ==>
      s[a][b] == Derive(Keys[a], Keys[b]).0 && s[b][a] == Derive(Keys[a], Keys[b]).1
    ensures Connected(s)
  {
    forall a, b | 0 <= a < |s| && 0 <= b < |s| && a != b ensures s[a][b] == Weight(a, b) {
      if a < b {
        WeightPair(s[a][b], s[b][a], a, b);
      } else {
        WeightPair(s[b][a], s[a][b], b, a);
      }
    }
  }

  /** The two weights derive gives a pair a < b are Weight(a, b) and Weight(b, a). */
  lemma WeightPair(ab: char, ba: char, a: nat, b: nat)
    requires a < b < 7 && (ab, ba) == Derive(Keys[a], Keys[b])
    ensures ab == Weight(a, b) && ba == Weight(b, a)
  {
  }

  /** Both tests start with Connect(keys, derive) and then prune every edge
      whose weight is zero. */
  method Setup() returns (g: Graph<string, char>)
    ensures fresh(g) && g.Valid() && g.keys == Keys
    ensures Edges(g.peers, Joined)
  {
    var dst;
    g, dst := Connect(Keys, Derive);
    ConnectBuilds(g.peers);
    ghost var s := g.peers;
    PrunedEdges(s);
    PruneByWeight(g, Nodes, NonZero);
    assert g.peers == Pruned(s, Nodes, ByWeight(s, NonZero));
  }

  /** TestFamilies: the families of the pruned fixture are a, ab, abc, ca;
      ab, abc, bce, ca; and bce, e. */
  method FamiliesScenario() returns (got: seq<seq<string>>)
    ensures got == [["a", "ab", "abc", "ca"], ["ab", "abc", "bce", "ca"], ["bce", "e"]]
  {
    var g := Setup();
    JoinedSymmetric();
    EdgesConsistent(g.peers, Joined, Nodes);
    FirstAnswer(g.peers);
    var families := FamiliesExactly(g, Nodes, First);
    got := KeysOf(g.keys, families);
    FirstKeys();
  }

  /** Coagulate(Families(nodes)) on the pruned fixture, whose families are First. */
  method CoagulateFirst(g: Graph<string, char>, families: seq<seq<nat>>)
    requires g.Valid() && Edges(g.peers, Joined) && families == First
    modifies g
    ensures g.Valid() && g.keys == old(g.keys)
    ensures Edges(g.peers, Coagulated)
  {
    CoagulatedEdges(g.peers);
    Coagulate(g, families);
  }

  /** TestCoagulate: once the pruned fixture is coagulated by its families,
      the families are a, ab, abc, ca and bce, e. */
  method CoagulateScenario() returns (got: seq<seq<string>>)
    ensures got == [["a", "ab", "abc", "ca"], ["bce", "e"]]
  {
    var g := Setup();
    JoinedSymmetric();
    EdgesConsistent(g.peers, Joined, Nodes);
    FirstAnswer(g.peers);
    var families := FamiliesExactly(g, Nodes, First);
    CoagulateFirst(g, families);
    CoagulatedSymmetric();
    EdgesConsistent(g.peers, Coagulated, Nodes);
    SecondAnswer(g.peers);
    var second := FamiliesExactly(g, Nodes, Second);
    got := KeysOf(g.keys, second);
    SecondKeys();
  }
}
