/** Coagulate of peers.go: families are processed in order; a family none of
    whose members is claimed yet is accepted, every edge from one of its
    members to a node outside it is deleted in both directions, and its
    members become claimed. A family with a claimed member is skipped. */
module Coagulation {
  import opened Util
  import opened Graphs

  /** Member m loses its edges to the nodes R, and each node of R loses its
      edge to m: the two deletes of Coagulate's innermost loop for every peer
      in R. */
  ghost function Cut<V>(s: seq<map<nat, V>>, m: nat, R: set<nat>): (t: seq<map<nat, V>>)
    requires m < |s|
    ensures |t| == |s|
  {
    seq(|s|, x requires 0 <= x < |s| => if x == m then s[m] - R else if x in R then s[x] - {m} else s[x])
  }

  /** Member m of a family is cut from every peer outside the family. */
  ghost function Strip<V>(s: seq<map<nat, V>>, m: nat, family: set<nat>): (t: seq<map<nat, V>>)
    requires m < |s|
    ensures |t| == |s|
  {
    Cut(s, m, s[m].Keys - family)
  }

  /** The members ms are stripped one after the other. */
  ghost function StripAll<V>(s: seq<map<nat, V>>, ms: seq<nat>, family: set<nat>): (t: seq<map<nat, V>>)
    requires InRange(s, ms)
    ensures |t| == |s|
  {
    if ms == [] then s
    else Strip(StripAll(s, ms[..|ms| - 1], family), ms[|ms| - 1], family)
  }

  /** No member of the group is in `seen`. */
  ghost predicate Clear(group: seq<nat>, seen: set<nat>) {
    forall j :: 0 <= j < |group| ==> group[j] !in seen
  }

  /** Every group lies in the arena. */
  ghost predicate AllInRange<V>(s: seq<map<nat, V>>, groups: seq<seq<nat>>) {
    forall i :: 0 <= i < |groups| ==> InRange(s, groups[i])
  }

  /** The nodes claimed once the groups have been processed. */
  ghost function Claimed(groups: seq<seq<nat>>): set<nat>
  {
    if groups == [] then {}
    else
      var seen := Claimed(groups[..|groups| - 1]);
      var last := groups[|groups| - 1];
      if Clear(last, seen) then seen + ToMap(last) else seen
  }

  /** Group i is accepted: none of its members was claimed by the groups before it. */
  ghost predicate Accepted(groups: seq<seq<nat>>, i: nat)
    requires i < |groups|
  {
    Clear(groups[i], Claimed(groups[..i]))
  }

  /** The peers once Coagulate has processed the groups. */
  ghost function After<V>(s: seq<map<nat, V>>, groups: seq<seq<nat>>): (t: seq<map<nat, V>>)
    requires AllInRange(s, groups)
    ensures |t| == |s|
  {
    if groups == [] then s
    else
      var init := groups[..|groups| - 1];
      var last := groups[|groups| - 1];
      var prev := After(s, init);
      if Clear(last, Claimed(init)) then StripAll(prev, last, ToMap(last)) else prev
  }

  // ---------------------------------------------------------------------------
  // Deletion only

  /** Deleting edges twice is deleting edges. */
  lemma DeletionOnlyTransitive<V>(s: seq<map<nat, V>>, t: seq<map<nat, V>>, u: seq<map<nat, V>>)
    requires DeletionOnly(s, t) && DeletionOnly(t, u)
    ensures DeletionOnly(s, u)
  {
  }

  /** A cut only deletes edges. */
  lemma CutDeletes<V>(s: seq<map<nat, V>>, m: nat, R: set<nat>)
    requires m < |s|
    ensures DeletionOnly(s, Cut(s, m, R))
  {
  }

  /** Stripping members only deletes edges. */
  lemma {:induction false} StripAllDeletes<V>(s: seq<map<nat, V>>, ms: seq<nat>, family: set<nat>)
    requires InRange(s, ms)
    ensures DeletionOnly(s, StripAll(s, ms, family))
  {
    if ms != [] {
      var init := ms[..|ms| - 1];
      StripAllDeletes(s, init, family);
      var prev := StripAll(s, init, family);
      CutDeletes(prev, ms[|ms| - 1], prev[ms[|ms| - 1]].Keys - family);
      DeletionOnlyTransitive(s, prev, StripAll(s, ms, family));
    }
  }

  /** Coagulate only deletes edges. */
  lemma {:induction false} AfterDeletes<V>(s: seq<map<nat, V>>, groups: seq<seq<nat>>)
    requires AllInRange(s, groups)
    ensures DeletionOnly(s, After(s, groups))
  {
    if groups != [] {
      var init := groups[..|groups| - 1];
      var last := groups[|groups| - 1];
      AfterDeletes(s, init);
      var prev := After(s, init);
      if Clear(last, Claimed(init)) {
        StripAllDeletes(prev, last, ToMap(last));
        DeletionOnlyTransitive(s, prev, After(s, groups));
      }
    }
  }

  // ---------------------------------------------------------------------------
  // Mutuality

  /** Both deletes of a pair are made, so a cut keeps the mutuality invariant. */
  lemma CutMutual<V>(s: seq<map<nat, V>>, m: nat, R: set<nat>)
    requires m < |s| && m !in R && Mutual(s)
    ensures Mutual(Cut(s, m, R))
  {
  }

  /** Stripping members keeps the mutuality invariant. */
  lemma {:induction false} StripAllMutual<V>(s: seq<map<nat, V>>, ms: seq<nat>, family: set<nat>)
    requires InRange(s, ms) && Mutual(s)
    requires forall k :: 0 <= k < |ms| ==> ms[k] in family
    ensures Mutual(StripAll(s, ms, family))
  {
    if ms != [] {
      var init := ms[..|ms| - 1];
      StripAllMutual(s, init, family);
      var prev := StripAll(s, init, family);
      CutMutual(prev, ms[|ms| - 1], prev[ms[|ms| - 1]].Keys - family);
    }
  }

  /** Coagulate keeps the mutuality invariant. */
  lemma {:induction false} AfterMutual<V>(s: seq<map<nat, V>>, groups: seq<seq<nat>>)
    requires AllInRange(s, groups) && Mutual(s)
    ensures Mutual(After(s, groups))
  {
    if groups != [] {
      var init := groups[..|groups| - 1];
      var last := groups[|groups| - 1];
      AfterMutual(s, init);
      if Clear(last, Claimed(init)) {
        StripAllMutual(After(s, init), last, ToMap(last));
      }
    }
  }

  // ---------------------------------------------------------------------------
  // Claimed nodes

  /** The members of an accepted group are claimed by every later prefix. */
  lemma {:induction false} ClaimedHas(groups: seq<seq<nat>>, j: nat, n: nat)
    requires j < n <= |groups| && Accepted(groups, j)
    ensures ToMap(groups[j]) <= Claimed(groups[..n])
    decreases n
  {
    var init := groups[..n][..n - 1];
    assert init == groups[..n - 1];
    if j < n - 1 {
      ClaimedHas(groups, j, n - 1);
    } else {
      assert groups[..n][n - 1] == groups[j];
    }
  }

  /** A claimed node belongs to an earlier accepted group. */
  lemma {:induction false} ClaimedFrom(groups: seq<seq<nat>>, n: nat, x: nat)
    requires n <= |groups| && x in Claimed(groups[..n])
    ensures exists j :: 0 <= j < n && Accepted(groups, j) && x in ToMap(groups[j])
    decreases n
  {
    assert n > 0;
    var init := groups[..n][..n - 1];
    assert init == groups[..n - 1];
    if x in Claimed(groups[..n - 1]) {
      ClaimedFrom(groups, n - 1, x);
    } else {
      assert groups[..n][n - 1] == groups[n - 1];
      assert Accepted(groups, n - 1) && x in ToMap(groups[n - 1]);
    }
  }

  /** A skipped group shares a member with an earlier accepted group, and
      processing it changes no edge. */
  lemma {:induction false} Skipped<V>(s: seq<map<nat, V>>, groups: seq<seq<nat>>, i: nat)
    requires AllInRange(s, groups) && i < |groups| && !Accepted(groups, i)
    ensures exists j, k :: 0 <= j < i && 0 <= k < |groups[i]| && Accepted(groups, j) && groups[i][k] in ToMap(groups[j])
    ensures After(s, groups[..i + 1]) == After(s, groups[..i])
  {
    var k :| 0 <= k < |groups[i]| && groups[i][k] in Claimed(groups[..i]);
    ClaimedFrom(groups, i, groups[i][k]);
    assert groups[..i + 1][..i] == groups[..i];
    assert groups[..i + 1][i] == groups[i];
  }

  /** Two accepted groups share no member. */
  lemma AcceptedDisjoint(groups: seq<seq<nat>>, i: nat, j: nat)
    requires i < j < |groups| && Accepted(groups, i) && Accepted(groups, j)
    ensures ToMap(groups[i]) !! ToMap(groups[j])
  {
    ClaimedHas(groups, i, j);
  }

  // ---------------------------------------------------------------------------
  // Accepted families are cut off from the rest and keep their own edges

  /** Every member of ms has its peers inside the family. */
  ghost predicate Confined<V>(s: seq<map<nat, V>>, ms: seq<nat>, family: set<nat>)
    requires InRange(s, ms)
  {
    forall k :: 0 <= k < |ms| ==> s[ms[k]].Keys <= family
  }

  /** Deleting edges keeps members confined. */
  lemma ConfinedDeletion<V>(s: seq<map<nat, V>>, t: seq<map<nat, V>>, ms: seq<nat>, family: set<nat>)
    requires InRange(s, ms) && Confined(s, ms, family) && DeletionOnly(s, t)
    ensures Confined(t, ms, family)
  {
    forall k | 0 <= k < |ms| ensures t[ms[k]].Keys <= family {
      forall b | b in t[ms[k]] ensures b in family {
        assert b in s[ms[k]];
      }
    }
  }

  /** Once all members of a family are stripped, all of them are confined to it. */
  lemma {:induction false} StripAllConfines<V>(s: seq<map<nat, V>>, ms: seq<nat>, family: set<nat>)
    requires InRange(s, ms)
    ensures Confined(StripAll(s, ms, family), ms, family)
  {
    if ms != [] {
      var init := ms[..|ms| - 1];
      var m := ms[|ms| - 1];
      StripAllConfines(s, init, family);
      var prev := StripAll(s, init, family);
      var t := StripAll(s, ms, family);
      CutDeletes(prev, m, prev[m].Keys - family);
      ConfinedDeletion(prev, t, init, family);
      forall k | 0 <= k < |ms| ensures t[ms[k]].Keys <= family {
        if k < |init| {
          assert ms[k] == init[k];
        }
      }
    }
  }

  /** After Coagulate, every member of an accepted group has peers only inside it. */
  lemma {:induction false} AfterConfines<V>(s: seq<map<nat, V>>, groups: seq<seq<nat>>, i: nat)
    requires AllInRange(s, groups) && i < |groups| && Accepted(groups, i)
    ensures Confined(After(s, groups), groups[i], ToMap(groups[i]))
  {
    var init := groups[..|groups| - 1];
    var last := groups[|groups| - 1];
    var prev := After(s, init);
    if i == |groups| - 1 {
      assert groups[..i] == init;
      StripAllConfines(prev, last, ToMap(last));
    } else {
      assert init[..i] == groups[..i] && init[i] == groups[i];
      AfterConfines(s, init, i);
      if Clear(last, Claimed(init)) {
        StripAllDeletes(prev, last, ToMap(last));
        ConfinedDeletion(prev, After(s, groups), groups[i], ToMap(groups[i]));
      }
    }
  }

  /** Every edge between two nodes of `inside` is kept with its weight. */
  ghost predicate KeepsInside<V>(s: seq<map<nat, V>>, t: seq<map<nat, V>>, inside: set<nat>) {
    |t| == |s| &&
    forall a, b :: 0 <= a < |s| && a in inside && b in inside && b in s[a] ==> b in t[a] && t[a][b] == s[a][b]
  }

  /** A cut keeps the edges of a set that does not contain m, or that R avoids. */
  lemma CutKeeps<V>(s: seq<map<nat, V>>, m: nat, R: set<nat>, inside: set<nat>)
    requires m < |s| && (m !in inside || R !! inside)
    ensures KeepsInside(s, Cut(s, m, R), inside)
  {
  }

  /** Stripping the members of a family keeps the edges inside any set that
      lies in the family or avoids all the members. */
  lemma {:induction false} StripAllKeeps<V>(s: seq<map<nat, V>>, ms: seq<nat>, family: set<nat>, inside: set<nat>)
    requires InRange(s, ms)
    requires inside <= family || forall k :: 0 <= k < |ms| ==> ms[k] !in inside
    ensures KeepsInside(s, StripAll(s, ms, family), inside)
  {
    if ms != [] {
      var init := ms[..|ms| - 1];
      var m := ms[|ms| - 1];
      StripAllKeeps(s, init, family, inside);
      var prev := StripAll(s, init, family);
      CutKeeps(prev, m, prev[m].Keys - family, inside);
    }
  }

  /** Each accepted group is the inside set itself, or avoids it. */
  ghost predicate Apart(groups: seq<seq<nat>>, inside: set<nat>) {
    forall j :: 0 <= j < |groups| && Accepted(groups, j) ==>
      ToMap(groups[j]) == inside || forall k :: 0 <= k < |groups[j]| ==> groups[j][k] !in inside
  }

  /** Coagulate keeps the edges inside a set that every accepted group equals or avoids. */
  lemma {:induction false} AfterKeeps<V>(s: seq<map<nat, V>>, groups: seq<seq<nat>>, inside: set<nat>)
    requires AllInRange(s, groups) && Apart(groups, inside)
    ensures KeepsInside(s, After(s, groups), inside)
  {
    if groups != [] {
      var init := groups[..|groups| - 1];
      var last := groups[|groups| - 1];
      forall j | 0 <= j < |init| && Accepted(init, j)
        ensures ToMap(init[j]) == inside || forall k :: 0 <= k < |init[j]| ==> init[j][k] !in inside
      {
        assert init[..j] == groups[..j] && init[j] == groups[j];
        assert Accepted(groups, j);
      }
      AfterKeeps(s, init, inside);
      var prev := After(s, init);
      if Clear(last, Claimed(init)) {
        assert groups[..|groups| - 1] == init;
        assert Accepted(groups, |groups| - 1);
        StripAllKeeps(prev, last, ToMap(last), inside);
      }
    }
  }

  /** After Coagulate, the edges between members of an accepted group are all
      still there, with their weights. */
  lemma AfterKeepsFamily<V>(s: seq<map<nat, V>>, groups: seq<seq<nat>>, i: nat)
    requires AllInRange(s, groups) && i < |groups| && Accepted(groups, i)
    ensures KeepsInside(s, After(s, groups), ToMap(groups[i]))
  {
    var inside := ToMap(groups[i]);
    forall j | 0 <= j < |groups| && Accepted(groups, j) && j != i
      ensures forall k :: 0 <= k < |groups[j]| ==> groups[j][k] !in inside
    {
      if j < i {
        AcceptedDisjoint(groups, j, i);
      } else {
        AcceptedDisjoint(groups, i, j);
      }
    }
    AfterKeeps(s, groups, inside);
  }

  /** After Coagulate, a member of an accepted family has exactly the peers it
      had inside the family, and no other. */
  lemma AfterFamily<V>(s: seq<map<nat, V>>, groups: seq<seq<nat>>, i: nat, k: nat)
    requires AllInRange(s, groups) && i < |groups| && Accepted(groups, i) && k < |groups[i]|
    ensures After(s, groups)[groups[i][k]].Keys == s[groups[i][k]].Keys * ToMap(groups[i])
  {
    var t := After(s, groups);
    var m := groups[i][k];
    AfterDeletes(s, groups);
    AfterConfines(s, groups, i);
    AfterKeepsFamily(s, groups, i);
    assert t[m].Keys <= ToMap(groups[i]);
    assert m in ToMap(groups[i]);
  }

  // ---------------------------------------------------------------------------
  // The method

  /** Cutting one more peer p from m is the two deletes of the innermost loop. */
  lemma CutStep<V>(s: seq<map<nat, V>>, m: nat, R: set<nat>, p: nat)
    requires m < |s| && p < |s| && p != m && p !in R
    ensures var t := Cut(s, m, R);
      Cut(s, m, R + {p}) == t[p := t[p] - {m}][m := t[m] - {p}]
  {
    var t := Cut(s, m, R);
    var u := t[p := t[p] - {m}][m := t[m] - {p}];
    var v := Cut(s, m, R + {p});
    forall x | 0 <= x < |s| ensures v[x] == u[x] {
      if x == m {
        assert s[m] - (R + {p}) == (s[m] - R) - {p};
      }
    }
  }

  /** Cutting nothing changes nothing. */
  lemma CutNothing<V>(s: seq<map<nat, V>>, m: nat)
    requires m < |s|
    ensures Cut(s, m, {}) == s
  {
    assert forall x :: 0 <= x < |s| ==> Cut(s, m, {})[x] == s[x];
  }

  /** delete(peer.Peers, member); delete(member.Peers, peer). */
  method Unlink<K, V>(g: Graph<K, V>, m: nat, p: nat, ghost s: seq<map<nat, V>>, ghost R: set<nat>)
    requires g.Valid() && m < |s| && p < |s| && p != m && p !in R
    requires g.peers == Cut(s, m, R)
    modifies g
    ensures g.Valid() && g.keys == old(g.keys)
    ensures g.peers == Cut(s, m, R + {p})
  {
    CutStep(s, m, R, p);
    g.DeleteEdge(p, m);
    g.DeleteEdge(m, p);
  }

  /** The loop over member.Peers: every peer outside the family is cut from m,
      in whatever order the map yields them. */
  method StripMember<K, V>(g: Graph<K, V>, m: nat, family: set<nat>)
    requires g.Valid() && m < |g.peers| && m in family
    modifies g
    ensures g.Valid() && g.keys == old(g.keys)
    ensures g.peers == Strip(old(g.peers), m, family)
  {
    ghost var s := g.peers;
    CutNothing(s, m);
    var todo := g.peers[m].Keys;
    ghost var cut: set<nat> := {};
    while todo != {}
      invariant todo <= s[m].Keys
      invariant g.Valid() && g.keys == old(g.keys)
      invariant forall p :: p in cut <==> p in s[m] && p !in todo && p !in family
      invariant g.peers == Cut(s, m, cut)
      decreases |todo|
    {
      var p :| p in todo;
      if p !in family {
        Unlink(g, m, p, s, cut);
        cut := cut + {p};
      }
      todo := todo - {p};
    }
    assert cut == s[m].Keys - family;
  }

  /** The first loop over a group: build its family set, and stop at the first
      member that is already seen. */
  method Gather(group: seq<nat>, seen: set<nat>) returns (family: set<nat>, clash: bool)
    ensures clash <==> !Clear(group, seen)
    ensures !clash ==> family == ToMap(group)
  {
    family := {};
    var j := 0;
    while j < |group|
      invariant j <= |group|
      invariant family == ToMap(group[..j]) && Clear(group[..j], seen)
    {
      assert group[..j + 1][..j] == group[..j];
      family := family + {group[j]};
      if group[j] in seen {
        return family, true;
      }
      j := j + 1;
    }
    assert group[..j] == group;
    clash := false;
  }

  /** The second loop over an accepted group: strip every member and mark it seen. */
  method Claim<K, V>(g: Graph<K, V>, group: seq<nat>, family: set<nat>, seen: set<nat>) returns (seen': set<nat>)
    requires g.Valid() && InRange(g.peers, group) && family == ToMap(group)
    modifies g
    ensures g.Valid() && g.keys == old(g.keys)
    ensures g.peers == StripAll(old(g.peers), group, family)
    ensures seen' == seen + family
  {
    ghost var s := g.peers;
    seen' := seen;
    var j := 0;
    while j < |group|
      invariant j <= |group|
      invariant g.Valid() && g.keys == old(g.keys)
      invariant g.peers == StripAll(s, group[..j], family)
      invariant seen' == seen + ToMap(group[..j])
    {
      assert group[..j + 1][..j] == group[..j];
      StripMember(g, group[j], family);
      seen' := seen' + {group[j]};
      j := j + 1;
    }
    assert group[..j] == group;
  }

  /** Coagulate(groups): the groups are processed in order; see After, and the
      lemmas above for what the result promises. */
  method Coagulate<K, V>(g: Graph<K, V>, groups: seq<seq<nat>>)
    requires g.Valid() && AllInRange(g.peers, groups)
    modifies g
    ensures g.Valid() && g.keys == old(g.keys)
    ensures g.peers == After(old(g.peers), groups)
  {
    ghost var s := g.peers;
    var seen: set<nat> := {};
    var i := 0;
    while i < |groups|
      invariant i <= |groups|
      invariant g.Valid() && g.keys == old(g.keys) && |g.peers| == |s|
      invariant g.peers == After(s, groups[..i]) && seen == Claimed(groups[..i])
    {
      assert groups[..i + 1][..i] == groups[..i];
      var family, clash := Gather(groups[i], seen);
      if !clash {
        seen := Claim(g, groups[i], family, seen);
      }
      i := i + 1;
    }
    assert groups[..i] == groups;
  }
}
