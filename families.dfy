/** Clique enumeration: Families of peers.go.

    For every size n from len(nodes) down to 2, Families walks the
    combinations of n positions of `nodes` in lexicographic order and keeps
    each group of nodes that forms a clique, unless it is a subset of a group
    kept earlier. The walk steps the array d before it tests it, so the first
    combination 0, 1, ..., n - 1 of every size is never tested. */
module Cliques {
  import opened Util
  import opened Graphs
  import opened Combinations

  /** The walk tests a before b: larger sizes first, then lexicographic order. */
  ghost predicate Precedes(a: seq<nat>, b: seq<nat>) {
    |a| > |b| || (|a| == |b| && LexLess(a, b))
  }

  /** The combinations of size larger than n: those tested before size n starts. */
  ghost function Larger(n: nat): seq<nat> -> bool {
    c => |c| > n
  }

  /** The combinations tested up to and including d. */
  ghost function UpTo(d: seq<nat>): seq<nat> -> bool {
    c => Precedes(c, d) || c == d
  }

  /** A combination the walk may keep: of size at least 2, not a start combination
      when the walk skips those, and selecting a clique of `nodes`. */
  ghost predicate Candidate<V>(s: seq<map<nat, V>>, nodes: seq<nat>, c: seq<nat>, skipStart: bool) {
    IsCombo(c, |nodes|) && 2 <= |c| && (skipStart ==> c != Start(|c|)) &&
    Clique(s, IndicesToElements(nodes, c))
  }

  /** Each kept group is the clique its tested candidate combination selects. */
  ghost predicate Kept<V>(s: seq<map<nat, V>>, nodes: seq<nat>, groups: seq<seq<nat>>, combos: seq<seq<nat>>,
                          done: seq<nat> -> bool, skipStart: bool) {
    |groups| == |combos| &&
    forall k :: 0 <= k < |combos| ==>
      Candidate(s, nodes, combos[k], skipStart) && done(combos[k]) &&
      groups[k] == IndicesToElements(nodes, combos[k])
  }

  /** The combinations are kept in the order the walk tests them. */
  ghost predicate InWalkOrder(combos: seq<seq<nat>>) {
    forall k, l :: 0 <= k < l < |combos| ==> Precedes(combos[k], combos[l])
  }

  /** No kept group is a subset of a group kept before it. */
  ghost predicate NoLaterSubset(groups: seq<seq<nat>>) {
    forall k, l :: 0 <= k < l < |groups| ==> !Subset(groups[k], groups[l])
  }

  /** Every tested candidate is covered by a kept group. */
  ghost predicate Covers<V>(s: seq<map<nat, V>>, nodes: seq<nat>, groups: seq<seq<nat>>,
                            done: seq<nat> -> bool, skipStart: bool) {
    forall c :: Candidate(s, nodes, c, skipStart) && done(c) ==> SubsetOfAny(groups, IndicesToElements(nodes, c))
  }

  /** What the walk has built once it has tested the combinations `done` lets through. */
  ghost predicate Found<V>(s: seq<map<nat, V>>, nodes: seq<nat>, groups: seq<seq<nat>>, combos: seq<seq<nat>>,
                           done: seq<nat> -> bool, skipStart: bool) {
    Kept(s, nodes, groups, combos, done, skipStart) && InWalkOrder(combos) && NoLaterSubset(groups) &&
    Covers(s, nodes, groups, done, skipStart)
  }

  /** The test of Families' loop body: IsFamily(group) and, when it holds and
      the group is not a subset of a kept one, append it. */
  function Admit<V>(s: seq<map<nat, V>>, families: seq<seq<nat>>, group: seq<nat>): (r: Checked<seq<seq<nat>>>)
    requires InRange(s, group)
    ensures r.Ok? ==> r.value == if Clique(s, group) && !SubsetOfAny(families, group) then families + [group] else families
    ensures r.OneWay? ==> r.from in group && r.to in group && r.to in s[r.from] && r.from !in s[r.to]
    ensures r.OneWay? <==> IsFamily(s, group).OneWay?
  {
    match IsFamily(s, group)
    case OneWay(x, y) => OneWay(x, y)
    case Ok(family) => Ok(if family && !SubsetOfAny(families, group) then families + [group] else families)
  }

  /** Nothing is found before the walk starts. */
  lemma FoundNothing<V>(s: seq<map<nat, V>>, nodes: seq<nat>, skipStart: bool)
    ensures Found(s, nodes, [], [], Larger(|nodes|), skipStart)
  {
    forall c | Candidate(s, nodes, c, skipStart) ensures |c| <= |nodes| {
      assert c[0] <= |nodes| - |c|;
    }
  }

  /** Found depends on `done` only through the candidates and kept combinations. */
  lemma {:induction false} FoundReframe<V>(s: seq<map<nat, V>>, nodes: seq<nat>, groups: seq<seq<nat>>, combos: seq<seq<nat>>,
                                           done: seq<nat> -> bool, done': seq<nat> -> bool, skipStart: bool)
    requires Found(s, nodes, groups, combos, done, skipStart)
    requires forall c :: Candidate(s, nodes, c, skipStart) ==> (done(c) <==> done'(c))
    ensures Found(s, nodes, groups, combos, done', skipStart)
  {
  }

  /** Testing the combination d that directly follows the tested ones keeps Found. */
  lemma {:induction false} FoundStep<V>(s: seq<map<nat, V>>, nodes: seq<nat>, groups: seq<seq<nat>>, combos: seq<seq<nat>>,
                                        done: seq<nat> -> bool, d: seq<nat>, done': seq<nat> -> bool, skipStart: bool)
    requires Found(s, nodes, groups, combos, done, skipStart)
    requires IsCombo(d, |nodes|) && 2 <= |d| && (skipStart ==> d != Start(|d|))
    requires forall c :: IsCombo(c, |nodes|) ==> (done'(c) <==> done(c) || c == d)
    requires forall c :: IsCombo(c, |nodes|) && done(c) ==> Precedes(c, d)
    ensures var group := IndicesToElements(nodes, d);
      var keep := Clique(s, group) && !SubsetOfAny(groups, group);
      Found(s, nodes, if keep then groups + [group] else groups, if keep then combos + [d] else combos, done', skipStart)
  {
    var group := IndicesToElements(nodes, d);
    if Clique(s, group) && !SubsetOfAny(groups, group) {
      FoundKeep(s, nodes, groups, combos, done, d, done', skipStart);
    } else {
      FoundPass(s, nodes, groups, combos, done, d, done', skipStart);
    }
  }

  /** A tested combination that is not kept is covered already, or not a candidate. */
  lemma {:induction false} FoundPass<V>(s: seq<map<nat, V>>, nodes: seq<nat>, groups: seq<seq<nat>>, combos: seq<seq<nat>>,
                                        done: seq<nat> -> bool, d: seq<nat>, done': seq<nat> -> bool, skipStart: bool)
    requires Found(s, nodes, groups, combos, done, skipStart)
    requires IsCombo(d, |nodes|)
    requires !Clique(s, IndicesToElements(nodes, d)) || SubsetOfAny(groups, IndicesToElements(nodes, d))
    requires forall c :: IsCombo(c, |nodes|) ==> (done'(c) <==> done(c) || c == d)
    ensures Found(s, nodes, groups, combos, done', skipStart)
  {
  }

  /** A kept combination covers itself and comes after every kept one. */
  lemma {:induction false} FoundKeep<V>(s: seq<map<nat, V>>, nodes: seq<nat>, groups: seq<seq<nat>>, combos: seq<seq<nat>>,
                                        done: seq<nat> -> bool, d: seq<nat>, done': seq<nat> -> bool, skipStart: bool)
    requires Found(s, nodes, groups, combos, done, skipStart)
    requires IsCombo(d, |nodes|) && 2 <= |d| && (skipStart ==> d != Start(|d|))
    requires Clique(s, IndicesToElements(nodes, d)) && !SubsetOfAny(groups, IndicesToElements(nodes, d))
    requires forall c :: IsCombo(c, |nodes|) ==> (done'(c) <==> done(c) || c == d)
    requires forall c :: IsCombo(c, |nodes|) && done(c) ==> Precedes(c, d)
    ensures Found(s, nodes, groups + [IndicesToElements(nodes, d)], combos + [d], done', skipStart)
  {
    var group := IndicesToElements(nodes, d);
    KeepKept(s, nodes, groups, combos, done, d, done', skipStart);
    KeepOrder(combos, d, done, |nodes|);
    KeepNoLaterSubset(groups, group);
    KeepCovers(s, nodes, groups, done, d, done', skipStart);
  }

  lemma {:induction false} KeepKept<V>(s: seq<map<nat, V>>, nodes: seq<nat>, groups: seq<seq<nat>>, combos: seq<seq<nat>>,
                                       done: seq<nat> -> bool, d: seq<nat>, done': seq<nat> -> bool, skipStart: bool)
    requires Kept(s, nodes, groups, combos, done, skipStart)
    requires Candidate(s, nodes, d, skipStart)
    requires forall c :: IsCombo(c, |nodes|) ==> (done'(c) <==> done(c) || c == d)
    ensures Kept(s, nodes, groups + [IndicesToElements(nodes, d)], combos + [d], done', skipStart)
  {
    var groups', combos' := groups + [IndicesToElements(nodes, d)], combos + [d];
    forall k | 0 <= k < |combos'|
      ensures Candidate(s, nodes, combos'[k], skipStart) && done'(combos'[k])
      ensures groups'[k] == IndicesToElements(nodes, combos'[k])
    {
      if k < |combos| {
        assert combos'[k] == combos[k] && groups'[k] == groups[k];
      }
    }
  }

  lemma {:induction false} KeepOrder(combos: seq<seq<nat>>, d: seq<nat>, done: seq<nat> -> bool, N: nat)
    requires InWalkOrder(combos)
    requires forall k :: 0 <= k < |combos| ==> IsCombo(combos[k], N) && done(combos[k])
    requires forall c :: IsCombo(c, N) && done(c) ==> Precedes(c, d)
    ensures InWalkOrder(combos + [d])
  {
    var combos' := combos + [d];
    forall k, l | 0 <= k < l < |combos'| ensures Precedes(combos'[k], combos'[l]) {
      if l == |combos| {
        assert combos'[k] == combos[k];
      } else {
        assert combos'[k] == combos[k] && combos'[l] == combos[l];
      }
    }
  }

  lemma {:induction false} KeepNoLaterSubset(groups: seq<seq<nat>>, group: seq<nat>)
    requires NoLaterSubset(groups)
    requires !SubsetOfAny(groups, group)
    ensures NoLaterSubset(groups + [group])
  {
    var groups' := groups + [group];
    forall k, l | 0 <= k < l < |groups'| ensures !Subset(groups'[k], groups'[l]) {
      if l == |groups| {
        assert groups'[k] == groups[k];
      } else {
        assert groups'[k] == groups[k] && groups'[l] == groups[l];
      }
    }
  }

  lemma {:induction false} KeepCovers<V>(s: seq<map<nat, V>>, nodes: seq<nat>, groups: seq<seq<nat>>,
                                         done: seq<nat> -> bool, d: seq<nat>, done': seq<nat> -> bool, skipStart: bool)
    requires Covers(s, nodes, groups, done, skipStart)
    requires IsCombo(d, |nodes|)
    requires forall c :: IsCombo(c, |nodes|) ==> (done'(c) <==> done(c) || c == d)
    ensures Covers(s, nodes, groups + [IndicesToElements(nodes, d)], done', skipStart)
  {
    var group := IndicesToElements(nodes, d);
    var groups' := groups + [group];
    forall c | Candidate(s, nodes, c, skipStart) && done'(c)
      ensures SubsetOfAny(groups', IndicesToElements(nodes, c))
    {
      if c == d {
        SubsetReflexive(group);
        assert groups'[|groups|] == group;
      } else {
        SubsetOfAnyAppend(groups, group, IndicesToElements(nodes, c));
      }
    }
  }

  /** Entering size n of the walk that skips the start combination: the tested
      combinations are the larger ones plus Start(n), which is not a candidate. */
  lemma FoundEnterSkipping<V>(s: seq<map<nat, V>>, nodes: seq<nat>, groups: seq<seq<nat>>, combos: seq<seq<nat>>, n: nat)
    requires Found(s, nodes, groups, combos, Larger(n), true)
    ensures Found(s, nodes, groups, combos, UpTo(Start(n)), true)
  {
    forall c | Candidate(s, nodes, c, true) ensures Larger(n)(c) <==> UpTo(Start(n))(c) {
      StartLeast(c, |nodes|);
      if |c| == n && LexLess(c, Start(n)) {
        LexAsymmetric(c, Start(n));
      }
    }
    FoundReframe(s, nodes, groups, combos, Larger(n), UpTo(Start(n)), true);
  }

  /** Leaving size n: once the last combination of size n is tested, the tested
      combinations are exactly those of size at least n. */
  lemma FoundLeave<V>(s: seq<map<nat, V>>, nodes: seq<nat>, groups: seq<seq<nat>>, combos: seq<seq<nat>>,
                      d: seq<nat>, skipStart: bool)
    requires IsCombo(d, |nodes|) && |d| > 0 && d[0] == |nodes| - |d|
    requires Found(s, nodes, groups, combos, UpTo(d), skipStart)
    ensures Found(s, nodes, groups, combos, Larger(|d| - 1), skipStart)
  {
    forall c | Candidate(s, nodes, c, skipStart) ensures UpTo(d)(c) <==> Larger(|d| - 1)(c) {
      if |c| == |d| {
        LastGreatest(d, c, |nodes|);
      }
    }
    FoundReframe(s, nodes, groups, combos, UpTo(d), Larger(|d| - 1), skipStart);
  }

  /** One step of the walk inside size |d|: the tested set grows by exactly Next(d). */
  lemma StepDone(d: seq<nat>, N: nat)
    requires IsCombo(d, N) && |d| > 0 && d[0] != N - |d|
    ensures forall c :: IsCombo(c, N) ==> (UpTo(Next(d, N))(c) <==> UpTo(d)(c) || c == Next(d, N))
    ensures forall c :: IsCombo(c, N) && UpTo(d)(c) ==> Precedes(c, Next(d, N))
  {
    var e := Next(d, N);
    NextAfter(d, N);
    forall c | IsCombo(c, N) ensures UpTo(e)(c) <==> UpTo(d)(c) || c == e {
      if |c| == |d| && c != d && c != e {
        if LexLess(c, d) {
          LexTransitive(c, d, e);
        } else {
          LexTotalWitness(c, d);
          LexTotal(c, d, 0);
          NextIsSuccessor(d, c, N);
          LexAsymmetric(e, c);
        }
      }
    }
    forall c | IsCombo(c, N) && UpTo(d)(c) ensures Precedes(c, e) {
      if |c| == |d| && c != d {
        LexTransitive(c, d, e);
      }
    }
  }

  /** Two different sequences of the same length differ at some position. */
  lemma LexTotalWitness(a: seq<nat>, b: seq<nat>)
    requires |a| == |b| && a != b
    ensures exists t :: 0 <= t < |a| && a[t] != b[t]
  {
  }

  /** The start combination directly follows the larger sizes. */
  lemma StartDone(n: nat, N: nat)
    ensures forall c :: IsCombo(c, N) ==> (UpTo(Start(n))(c) <==> Larger(n)(c) || c == Start(n))
    ensures forall c :: IsCombo(c, N) && Larger(n)(c) ==> Precedes(c, Start(n))
  {
    forall c | IsCombo(c, N) && |c| == n && LexLess(c, Start(n)) ensures false {
      StartLeast(c, N);
      LexAsymmetric(c, Start(n));
    }
  }

  /** A group picked from consistent nodes by increasing positions is consistent. */
  lemma ConsistentPick<V>(s: seq<map<nat, V>>, nodes: seq<nat>, c: seq<nat>)
    requires InRange(s, nodes) && IsCombo(c, |nodes|)
    requires Consistent(s, nodes)
    ensures InRange(s, IndicesToElements(nodes, c))
    ensures Consistent(s, IndicesToElements(nodes, c))
  {
  }

  /** Increasing positions of distinct nodes pick distinct nodes. */
  lemma DistinctPick(nodes: seq<nat>, c: seq<nat>)
    requires IsCombo(c, |nodes|) && Distinct(nodes)
    ensures Distinct(IndicesToElements(nodes, c))
  {
  }

  /** A set inside a set no smaller than it is all of it. */
  lemma SubsetCard(A: set<nat>, B: set<nat>)
    requires A <= B && |A| >= |B|
    ensures B <= A
  {
    var D := B - A;
    assert B == A + D && A !! D;
    assert |D| == 0;
  }

  /** A group of distinct nodes that is a subset of a no larger group of distinct
      nodes has the same members. */
  lemma SameSizeSubset(a: seq<nat>, b: seq<nat>)
    requires Distinct(a) && Distinct(b) && |a| >= |b|
    ensures Subset(b, a) ==> Subset(a, b)
  {
    if Subset(b, a) {
      DistinctCard(a);
      DistinctCard(b);
      var A, B := ToMap(a), ToMap(b);
      forall x | x in A ensures x in B {
        assert x in a;
      }
      SubsetCard(A, B);
      forall i | 0 <= i < |b| ensures b[i] in a {
        assert b[i] in A;
      }
    }
  }

  /** With distinct nodes, no kept group is a subset of a later one either. */
  lemma {:induction false} NoSubsumption<V>(s: seq<map<nat, V>>, nodes: seq<nat>, groups: seq<seq<nat>>, combos: seq<seq<nat>>,
                                            done: seq<nat> -> bool, skipStart: bool)
    requires Distinct(nodes)
    requires Found(s, nodes, groups, combos, done, skipStart)
    ensures forall k, l :: 0 <= k < l < |groups| ==> !Subset(groups[l], groups[k])
  {
    forall k, l | 0 <= k < l < |groups| ensures !Subset(groups[l], groups[k]) {
      DistinctPick(nodes, combos[k]);
      DistinctPick(nodes, combos[l]);
      SameSizeSubset(groups[k], groups[l]);
    }
  }

  /** Testing the next combination after prev keeps Found, whatever Admit decides. */
  lemma FoundAdmit<V>(s: seq<map<nat, V>>, nodes: seq<nat>, families: seq<seq<nat>>, combos: seq<seq<nat>>, prev: seq<nat>,
                      skipStart: bool)
    requires InRange(s, nodes)
    requires 2 <= |prev| && IsCombo(prev, |nodes|) && prev[0] != |nodes| - |prev|
    requires Found(s, nodes, families, combos, UpTo(prev), skipStart)
    ensures var cur := Next(prev, |nodes|);
      var r := Admit(s, families, IndicesToElements(nodes, cur));
      r.Ok? ==> Found(s, nodes, r.value, if r.value != families then combos + [cur] else combos, UpTo(cur), skipStart)
  {
    var cur := Next(prev, |nodes|);
    NextAfter(prev, |nodes|);
    NextNotStart(prev, |nodes|);
    StepDone(prev, |nodes|);
    FoundStep(s, nodes, families, combos, UpTo(prev), cur, UpTo(cur), skipStart);
  }

  /** Testing the start combination of size n first, as the corrected walk does,
      keeps Found for the walk that tests every combination. */
  lemma FoundAdmitStart<V>(s: seq<map<nat, V>>, nodes: seq<nat>, families: seq<seq<nat>>, combos: seq<seq<nat>>, n: nat)
    requires InRange(s, nodes) && 2 <= n <= |nodes|
    requires Found(s, nodes, families, combos, Larger(n), false)
    ensures var r := Admit(s, families, IndicesToElements(nodes, Start(n)));
      r.Ok? ==> Found(s, nodes, r.value, if r.value != families then combos + [Start(n)] else combos, UpTo(Start(n)), false)
  {
    StartIsCombo(n, |nodes|);
    StartDone(n, |nodes|);
    FoundStep(s, nodes, families, combos, Larger(n), Start(n), UpTo(Start(n)), false);
  }

  /** One pass of Families' inner loop: step d to the next combination, then
      test the group it picks with IsFamily and keep it unless a kept group
      already covers it. */
  method Visit<K, V>(g: Graph<K, V>, nodes: seq<nat>, d: array<nat>, families: seq<seq<nat>>)
    returns (r: Checked<seq<seq<nat>>>)
    requires g.Valid() && InRange(g.peers, nodes)
    requires 2 <= d.Length && IsCombo(d[..], |nodes|) && d[0] != |nodes| - d.Length
    modifies d
    ensures d[..] == Next(old(d[..]), |nodes|)
    ensures r == Admit(g.peers, families, IndicesToElements(nodes, d[..]))
    ensures r.OneWay? ==> r.from in nodes && r.to in nodes && r.to in g.peers[r.from] && r.from !in g.peers[r.to]
    ensures Consistent(g.peers, nodes) ==> r.Ok?
  {
    NextAfter(d[..], |nodes|);
    Advance(d, |nodes|);
    r := Consider(g, nodes, d, families);
  }

  /** The test of the loop body on the current d: IsFamily(group) and, when it
      holds and no kept group covers it, append it. */
  method Consider<K, V>(g: Graph<K, V>, nodes: seq<nat>, d: array<nat>, families: seq<seq<nat>>)
    returns (r: Checked<seq<seq<nat>>>)
    requires g.Valid() && InRange(g.peers, nodes) && IsCombo(d[..], |nodes|)
    ensures r == Admit(g.peers, families, IndicesToElements(nodes, d[..]))
    ensures r.OneWay? ==> r.from in nodes && r.to in nodes && r.to in g.peers[r.from] && r.from !in g.peers[r.to]
    ensures Consistent(g.peers, nodes) ==> r.Ok?
  {
    var group := IndicesToElements(nodes, d[..]);
    if Consistent(g.peers, nodes) {
      ConsistentPick(g.peers, nodes, d[..]);
    }
    r := Admit(g.peers, families, group);
  }

  /** The families of what the whole walk found, as Families promises them. */
  lemma {:induction false} FoundResult<V>(s: seq<map<nat, V>>, nodes: seq<nat>, groups: seq<seq<nat>>, combos: seq<seq<nat>>, n: nat,
                                          skipStart: bool)
    requires n < 2 && Found(s, nodes, groups, combos, Larger(n), skipStart)
    ensures |combos| == |groups|
    ensures forall k :: 0 <= k < |groups| ==>
      IsCombo(combos[k], |nodes|) && 2 <= |combos[k]| && (skipStart ==> combos[k] != Start(|combos[k]|)) &&
      groups[k] == IndicesToElements(nodes, combos[k]) && Clique(s, groups[k])
    ensures forall k, l :: 0 <= k < l < |groups| ==> Precedes(combos[k], combos[l]) && !Subset(groups[k], groups[l])
    ensures Distinct(nodes) ==> forall k, l :: 0 <= k < l < |groups| ==> !Subset(groups[l], groups[k])
    ensures forall c :: Candidate(s, nodes, c, skipStart) ==> SubsetOfAny(groups, IndicesToElements(nodes, c))
  {
    if Distinct(nodes) {
      NoSubsumption(s, nodes, groups, combos, Larger(n), skipStart);
    }
  }

  /** d := make([]int, n) with d[i] = i: a new array holding the start combination. */
  method StartArray(n: nat) returns (d: array<nat>)
    ensures fresh(d) && d[..] == Start(n)
  {
    d := new nat[n];
    var i := 0;
    while i < n
      invariant i <= n
      invariant forall t :: 0 <= t < i ==> d[t] == t
    {
      d[i] := i;
      i := i + 1;
    }
  }

  /** for d[0] != max(0) { step d; test it }: the rest of one size of the walk,
      from the combination d already tested. */
  method WalkSize<K, V>(g: Graph<K, V>, nodes: seq<nat>, d: array<nat>, families: seq<seq<nat>>, ghost combos: seq<seq<nat>>,
                        ghost skipStart: bool)
    returns (r: Checked<seq<seq<nat>>>, ghost combos': seq<seq<nat>>)
    requires g.Valid() && InRange(g.peers, nodes)
    requires 2 <= d.Length && IsCombo(d[..], |nodes|)
    requires Found(g.peers, nodes, families, combos, UpTo(d[..]), skipStart)
    modifies d
    ensures r.Ok? ==> Found(g.peers, nodes, r.value, combos', Larger(d.Length - 1), skipStart)
    ensures r.OneWay? ==> r.from in nodes && r.to in nodes && r.to in g.peers[r.from] && r.from !in g.peers[r.to]
    ensures Consistent(g.peers, nodes) ==> r.Ok?
  {
    var N, n := |nodes|, d.Length;
    RankBound(d[..], N);
    var found := families;
    combos' := combos;
    while d[0] != N - n
      invariant IsCombo(d[..], N)
      invariant Rank(d[..], N) < Pow(N, n)
      invariant Found(g.peers, nodes, found, combos', UpTo(d[..]), skipStart)
      decreases Pow(N, n) - Rank(d[..], N)
    {
      ghost var prev := d[..];
      NextRank(prev, N);
      NextAfter(prev, N);
      FoundAdmit(g.peers, nodes, found, combos', prev, skipStart);
      var admitted := Visit(g, nodes, d, found);
      ghost var cur := d[..];
      assert cur == Next(prev, N);
      if admitted.OneWay? {
        return admitted, combos';
      }
      if admitted.value != found {
        combos' := combos' + [cur];
      }
      found := admitted.value;
      assert Found(g.peers, nodes, found, combos', UpTo(cur), skipStart);
    }
    FoundLeave(g.peers, nodes, found, combos', d[..], skipStart);
    r := Ok(found);
  }

  /** One size n of Families' walk: d starts at 0, 1, ..., n - 1, which is not
      tested, and is stepped and tested until d[0] reaches len(nodes) - n. */
  method FamiliesOfSize<K, V>(g: Graph<K, V>, nodes: seq<nat>, n: nat, families: seq<seq<nat>>, ghost combos: seq<seq<nat>>)
    returns (r: Checked<seq<seq<nat>>>, ghost combos': seq<seq<nat>>)
    requires g.Valid() && InRange(g.peers, nodes)
    requires 2 <= n <= |nodes| && Found(g.peers, nodes, families, combos, Larger(n), true)
    ensures r.Ok? ==> Found(g.peers, nodes, r.value, combos', Larger(n - 1), true)
    ensures r.OneWay? ==> r.from in nodes && r.to in nodes && r.to in g.peers[r.from] && r.from !in g.peers[r.to]
    ensures Consistent(g.peers, nodes) ==> r.Ok?
  {
    var d := StartArray(n);
    StartIsCombo(n, |nodes|);
    FoundEnterSkipping(g.peers, nodes, families, combos, n);
    r, combos' := WalkSize(g, nodes, d, families, combos, true);
  }

  /** Families(nodes), as written: for each size from len(nodes) down to 2, step
      d to the next combination and then test it, until d[0] reaches its
      maximum. The result is the kept groups, or the panic of IsFamily on a
      one-way edge. The ghost `combos` names the positions each group was
      picked from. */
  method Families<K, V>(g: Graph<K, V>, nodes: seq<nat>) returns (r: Checked<seq<seq<nat>>>, ghost combos: seq<seq<nat>>)
    requires g.Valid() && InRange(g.peers, nodes)
    ensures r.Ok? ==> |combos| == |r.value|
    ensures r.Ok? ==> forall k :: 0 <= k < |r.value| ==>
      IsCombo(combos[k], |nodes|) && 2 <= |combos[k]| && combos[k] != Start(|combos[k]|) &&
      r.value[k] == IndicesToElements(nodes, combos[k]) && Clique(g.peers, r.value[k])
    ensures r.Ok? ==> forall k, l :: 0 <= k < l < |r.value| ==>
      Precedes(combos[k], combos[l]) && !Subset(r.value[k], r.value[l])
    ensures r.Ok? && Distinct(nodes) ==> forall k, l :: 0 <= k < l < |r.value| ==> !Subset(r.value[l], r.value[k])
    ensures r.Ok? ==> forall c :: Candidate(g.peers, nodes, c, true) ==> SubsetOfAny(r.value, IndicesToElements(nodes, c))
    ensures r.OneWay? ==> r.from in nodes && r.to in nodes && r.to in g.peers[r.from] && r.from !in g.peers[r.to]
    ensures Consistent(g.peers, nodes) ==> r.Ok?
  {
    var families: seq<seq<nat>> := [];
    combos := [];
    FoundNothing(g.peers, nodes, true);
    var n: nat := |nodes|;
    while n >= 2
      invariant n <= |nodes|
      invariant Found(g.peers, nodes, families, combos, Larger(n), true)
      decreases n
    {
      var sized;
      sized, combos := FamiliesOfSize(g, nodes, n, families, combos);
      if sized.OneWay? {
        return sized, combos;
      }
      families := sized.value;
      n := n - 1;
    }
    FoundResult(g.peers, nodes, families, combos, n, true);
    r := Ok(families);
  }

  /** FamiliesOfSize with the start combination tested too: d is tested before
      it is first stepped, so 0, 1, ..., n - 1 is the first group of size n. */
  method FamiliesOfSizeAll<K, V>(g: Graph<K, V>, nodes: seq<nat>, n: nat, families: seq<seq<nat>>, ghost combos: seq<seq<nat>>)
    returns (r: Checked<seq<seq<nat>>>, ghost combos': seq<seq<nat>>)
    requires g.Valid() && InRange(g.peers, nodes)
    requires 2 <= n <= |nodes| && Found(g.peers, nodes, families, combos, Larger(n), false)
    ensures r.Ok? ==> Found(g.peers, nodes, r.value, combos', Larger(n - 1), false)
    ensures r.OneWay? ==> r.from in nodes && r.to in nodes && r.to in g.peers[r.from] && r.from !in g.peers[r.to]
    ensures Consistent(g.peers, nodes) ==> r.Ok?
  {
    var d := StartArray(n);
    StartIsCombo(n, |nodes|);
    FoundAdmitStart(g.peers, nodes, families, combos, n);
    var first := Consider(g, nodes, d, families);
    if first.OneWay? {
      return first, combos;
    }
    ghost var tested := if first.value != families then combos + [d[..]] else combos;
    r, combos' := WalkSize(g, nodes, d, first.value, tested, false);
  }

  /** Families with every combination tested: each clique of two or more of
      `nodes` is covered by a returned family. */
  method FamiliesAll<K, V>(g: Graph<K, V>, nodes: seq<nat>) returns (r: Checked<seq<seq<nat>>>, ghost combos: seq<seq<nat>>)
    requires g.Valid() && InRange(g.peers, nodes)
    ensures r.Ok? ==> |combos| == |r.value|
    ensures r.Ok? ==> forall k :: 0 <= k < |r.value| ==>
      IsCombo(combos[k], |nodes|) && 2 <= |combos[k]| &&
      r.value[k] == IndicesToElements(nodes, combos[k]) && Clique(g.peers, r.value[k])
    ensures r.Ok? ==> forall k, l :: 0 <= k < l < |r.value| ==>
      Precedes(combos[k], combos[l]) && !Subset(r.value[k], r.value[l])
    ensures r.Ok? && Distinct(nodes) ==> forall k, l :: 0 <= k < l < |r.value| ==> !Subset(r.value[l], r.value[k])
    ensures r.Ok? ==> forall c :: Candidate(g.peers, nodes, c, false) ==> SubsetOfAny(r.value, IndicesToElements(nodes, c))
    ensures r.OneWay? ==> r.from in nodes && r.to in nodes && r.to in g.peers[r.from] && r.from !in g.peers[r.to]
    ensures Consistent(g.peers, nodes) ==> r.Ok?
  {
    var families: seq<seq<nat>> := [];
    combos := [];
    FoundNothing(g.peers, nodes, false);
    var n: nat := |nodes|;
    while n >= 2
      invariant n <= |nodes|
      invariant Found(g.peers, nodes, families, combos, Larger(n), false)
      decreases n
    {
      var sized;
      sized, combos := FamiliesOfSizeAll(g, nodes, n, families, combos);
      if sized.OneWay? {
        return sized, combos;
      }
      families := sized.value;
      n := n - 1;
    }
    FoundResult(g.peers, nodes, families, combos, n, false);
    r := Ok(families);
  }

  /** Of two nodes, the only combination of two or more positions is 0, 1. */
  lemma OnlyPair(c: seq<nat>)
    requires IsCombo(c, 2) && 2 <= |c|
    ensures c == [0, 1] == Start(2)
  {
    assert c[0] <= 2 - |c|;
  }

  /** Positions 0, 1 of two nodes 0, 1 pick the nodes themselves. */
  lemma PairPicks(nodes: seq<nat>)
    requires nodes == [0, 1]
    ensures IndicesToElements(nodes, [0, 1]) == [0, 1]
  {
    var pair := IndicesToElements(nodes, [0, 1]);
    assert pair[0] == 0 && pair[1] == 1;
  }

  /** Two related nodes are a candidate pair, picked by the start combination. */
  lemma PairCandidate<V>(s: seq<map<nat, V>>, nodes: seq<nat>)
    requires nodes == [0, 1] && Related(s, 0, 1)
    ensures Candidate(s, nodes, [0, 1], false) && IndicesToElements(nodes, [0, 1]) == [0, 1]
  {
    StartIsCombo(2, 2);
    PairPicks(nodes);
    var pair: seq<nat> := [0, 1];
    forall p, q | 0 <= p < q < |pair| ensures Related(s, pair[p], pair[q]) {
      assert p == 0 && q == 1;
    }
    assert Clique(s, pair);
  }

  /** Of two nodes, at most one combination can be kept in walk order. */
  lemma OneCombination(combos: seq<seq<nat>>)
    requires forall k :: 0 <= k < |combos| ==> IsCombo(combos[k], 2) && 2 <= |combos[k]|
    requires forall k, l :: 0 <= k < l < |combos| ==> Precedes(combos[k], combos[l])
    ensures |combos| <= 1
  {
    if |combos| > 1 {
      OnlyPair(combos[0]);
      OnlyPair(combos[1]);
      LexAsymmetric(combos[0], combos[1]);
      assert false;
    }
  }

  /** Families of two nodes that cover the pair, listed in walk order, are the one pair. */
  lemma OnlyPairFamily(nodes: seq<nat>, v: seq<seq<nat>>, combos: seq<seq<nat>>)
    requires nodes == [0, 1]
    requires |combos| == |v|
    requires forall k :: 0 <= k < |v| ==>
      IsCombo(combos[k], |nodes|) && 2 <= |combos[k]| && v[k] == IndicesToElements(nodes, combos[k])
    requires forall k, l :: 0 <= k < l < |v| ==> Precedes(combos[k], combos[l])
    requires SubsetOfAny(v, [0, 1])
    ensures v == [[0, 1]]
  {
    OneCombination(combos);
    assert |v| == 1;
    var c, w := combos[0], v[0];
    assert IsCombo(c, 2) && 2 <= |c| && w == IndicesToElements(nodes, c);
    OnlyPair(c);
    PairPicks(nodes);
    assert w == [0, 1];
    assert v == [w];
  }

  /** Two nodes "a" and "b" joined in both directions with weight 1. */
  method PairGraph() returns (g: Graph<string, int>)
    ensures g.Valid() && g.peers == [map[1 := 1], map[0 := 1]]
  {
    g := new Graph<string, int>();
    g.AddNode("a");
    g.AddNode("b");
    g.SetPair(0, 1, 1, 1);
    assert g.peers[0] == map[1 := 1] && g.peers[1] == map[0 := 1];
  }

  /** The two nodes of PairGraph form a family, yet Families as written finds
      none: the only pair is the start combination, which it never tests. */
  method MissedPair() returns (r: Checked<seq<seq<nat>>>)
    ensures r == Ok([])
  {
    var g := PairGraph();
    assert Consistent(g.peers, [0, 1]);
    ghost var combos;
    r, combos := Families(g, [0, 1]);
    if |r.value| > 0 {
      OnlyPair(combos[0]);
    }
  }

  /** FamiliesAll finds the family of PairGraph. */
  method FoundPair() returns (r: Checked<seq<seq<nat>>>)
    ensures r == Ok([[0, 1]])
  {
    var g := PairGraph();
    var nodes := [0, 1];
    assert Consistent(g.peers, nodes);
    ghost var combos;
    r, combos := FamiliesAll(g, nodes);
    PairCandidate(g.peers, nodes);
    assert SubsetOfAny(r.value, [0, 1]);
    OnlyPairFamily(nodes, r.value, combos);
  }
}
