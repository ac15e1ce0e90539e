/** The walk over index combinations that Families performs with its array d.

    A combination of size n out of N nodes is a strictly increasing sequence of
    indices in which position k holds at most max(k) = N - n + k, the largest
    value it can take with room left for the positions after it. Families
    starts from 0, 1, ..., n - 1 and steps to the lexicographic successor
    until position 0 reaches max(0). */
module Combinations {

  /** Every later position holds a larger index. */
  ghost predicate Increasing(c: seq<nat>) {
    forall p, q :: 0 <= p < q < |c| ==> c[p] < c[q]
  }

  /** A combination of |c| indices out of 0 .. N - 1, each at most max(k). */
  ghost predicate IsCombo(c: seq<nat>, N: nat) {
    Increasing(c) && forall k :: 0 <= k < |c| ==> c[k] <= N - |c| + k
  }

  /** `a` and `b` agree before position k and a[k] < b[k]. */
  ghost predicate LexLessAt(a: seq<nat>, b: seq<nat>, k: nat) {
    k < |a| && |a| == |b| && (forall t :: 0 <= t < k ==> a[t] == b[t]) && a[k] < b[k]
  }

  /** Lexicographic order on sequences of the same length. */
  ghost predicate LexLess(a: seq<nat>, b: seq<nat>) {
    exists k: nat :: LexLessAt(a, b, k)
  }

  ghost predicate LexLessEq(a: seq<nat>, b: seq<nat>) {
    a == b || LexLess(a, b)
  }

  /** The combination Families starts each size with: d[i] = i. */
  function Start(n: nat): (c: seq<nat>)
    ensures |c| == n
    ensures forall k :: 0 <= k < n ==> c[k] == k
  {
    seq(n, k => k)
  }

  /** The position Families' downward walk stops at: the last position below or
      at k that is not at its maximum, or 0. */
  function Pivot(c: seq<nat>, N: nat, k: nat): (p: nat)
    requires k < |c|
    ensures p <= k
    ensures p == 0 || c[p] != N - |c| + p
    ensures forall t :: p < t <= k ==> c[t] == N - |c| + t
    decreases k
  {
    if k == 0 || c[k] != N - |c| + k then k else Pivot(c, N, k - 1)
  }

  /** x, x + 1, ..., x + m - 1: the positions after the pivot are reset to a run. */
  function Ramp(x: nat, m: nat): (r: seq<nat>)
    ensures |r| == m
    ensures forall t :: 0 <= t < m ==> r[t] == x + t
  {
    seq(m, t => x + t)
  }

  /** One step of Families' walk: the pivot position is incremented and every
      position after it is one more than the one before. */
  function Next(c: seq<nat>, N: nat): (e: seq<nat>)
    requires IsCombo(c, N) && |c| > 0 && c[0] != N - |c|
    ensures |e| == |c|
  {
    var p := Pivot(c, N, |c| - 1);
    c[..p] + Ramp(c[p] + 1, |c| - p)
  }

  /** In a strictly increasing sequence, position t is at least (t - p) above position p. */
  lemma {:induction false} Gap(e: seq<nat>, p: nat, t: nat)
    requires Increasing(e) && p <= t < |e|
    ensures e[t] >= e[p] + (t - p)
    decreases t - p
  {
    if t > p {
      Gap(e, p, t - 1);
    }
  }

  /** Equal up to m and pointwise at most from m on means equal or lexicographically smaller. */
  lemma {:induction false} PointwiseLex(a: seq<nat>, b: seq<nat>, m: nat)
    requires |a| == |b| && m <= |a|
    requires forall t :: 0 <= t < m ==> a[t] == b[t]
    requires forall t :: m <= t < |a| ==> a[t] <= b[t]
    ensures LexLessEq(a, b)
    decreases |a| - m
  {
    if m == |a| {
      assert a == b;
    } else if a[m] < b[m] {
      assert LexLessAt(a, b, m);
    } else {
      PointwiseLex(a, b, m + 1);
    }
  }

  /** The start combination is a combination when n <= N. */
  lemma StartIsCombo(n: nat, N: nat)
    requires n <= N
    ensures IsCombo(Start(n), N)
  {
  }

  /** The start combination is the least combination of its size. */
  lemma {:induction false} StartLeast(e: seq<nat>, N: nat)
    requires IsCombo(e, N)
    ensures LexLessEq(Start(|e|), e)
  {
    forall t | 0 <= t < |e| ensures Start(|e|)[t] <= e[t] {
      Gap(e, 0, t);
    }
    PointwiseLex(Start(|e|), e, 0);
  }

  /** A combination whose first position is at its maximum is the greatest of its size. */
  lemma {:induction false} LastGreatest(c: seq<nat>, e: seq<nat>, N: nat)
    requires IsCombo(c, N) && |c| > 0 && c[0] == N - |c|
    requires IsCombo(e, N) && |e| == |c|
    ensures LexLessEq(e, c)
  {
    forall t | 0 <= t < |c| ensures c[t] == N - |c| + t {
      Gap(c, 0, t);
    }
    PointwiseLex(e, c, 0);
  }

  /** No sequence is below itself, and two sequences are never below each other. */
  lemma LexAsymmetric(a: seq<nat>, b: seq<nat>)
    requires LexLess(a, b)
    ensures a != b && !LexLess(b, a)
  {
    var k: nat :| LexLessAt(a, b, k);
    forall l: nat ensures !LexLessAt(b, a, l) {
      if l <= k && l < |a| {
        assert a[l] <= b[l];
      } else {
        assert a[k] < b[k];
      }
    }
  }

  /** Lexicographic order is transitive. */
  lemma LexTransitive(a: seq<nat>, b: seq<nat>, c: seq<nat>)
    requires LexLess(a, b) && LexLess(b, c)
    ensures LexLess(a, c)
  {
    var k: nat :| LexLessAt(a, b, k);
    var l: nat :| LexLessAt(b, c, l);
    if k <= l {
      assert LexLessAt(a, c, k);
    } else {
      assert LexLessAt(a, c, l);
    }
  }

  /** Two sequences of the same length that differ somewhere at or after m, and
      agree before m, are ordered one way or the other. */
  lemma {:induction false} LexTotal(a: seq<nat>, b: seq<nat>, m: nat)
    requires |a| == |b| && m <= |a|
    requires forall t :: 0 <= t < m ==> a[t] == b[t]
    requires exists t :: m <= t < |a| && a[t] != b[t]
    ensures LexLess(a, b) || LexLess(b, a)
    decreases |a| - m
  {
    if a[m] < b[m] {
      assert LexLessAt(a, b, m);
    } else if b[m] < a[m] {
      assert LexLessAt(b, a, m);
    } else {
      LexTotal(a, b, m + 1);
    }
  }

  /** A step yields a combination of the same size that comes after c. */
  lemma NextAfter(c: seq<nat>, N: nat)
    requires IsCombo(c, N) && |c| > 0 && c[0] != N - |c|
    ensures IsCombo(Next(c, N), N)
    ensures LexLess(c, Next(c, N))
  {
    var p := Pivot(c, N, |c| - 1);
    var e := Next(c, N);
    assert c[p] < N - |c| + p;
    forall k | 0 <= k < |e| ensures e[k] == if k < p then c[k] else c[p] + 1 + (k - p) {
      if k < p {
        assert e[k] == c[..p][k];
      } else {
        assert e[k] == Ramp(c[p] + 1, |c| - p)[k - p];
      }
    }
    assert LexLessAt(c, e, p);
  }

  /** A step never lands on the start combination. */
  lemma NextNotStart(c: seq<nat>, N: nat)
    requires IsCombo(c, N) && |c| > 0 && c[0] != N - |c|
    ensures Next(c, N) != Start(|c|)
  {
    NextAfter(c, N);
    StartLeast(c, N);
    if Start(|c|) == c {
      LexAsymmetric(c, Next(c, N));
    } else {
      LexTransitive(Start(|c|), c, Next(c, N));
      LexAsymmetric(Start(|c|), Next(c, N));
    }
  }

  /** A step yields the lexicographic successor: nothing of the same size lies
      strictly between c and Next(c, N). */
  lemma {:induction false} NextIsSuccessor(c: seq<nat>, e: seq<nat>, N: nat)
    requires IsCombo(c, N) && |c| > 0 && c[0] != N - |c|
    requires IsCombo(e, N) && LexLess(c, e)
    ensures LexLessEq(Next(c, N), e)
  {
    var p := Pivot(c, N, |c| - 1);
    var n := Next(c, N);
    NextAfter(c, N);
    forall t | 0 <= t < |n| ensures n[t] == if t < p then c[t] else c[p] + 1 + (t - p) {
      if t < p {
        assert n[t] == c[..p][t];
      } else {
        assert n[t] == Ramp(c[p] + 1, |c| - p)[t - p];
      }
    }
    var k: nat :| LexLessAt(c, e, k);
    assert e[k] <= N - |c| + k;
    assert k <= p;
    if k < p {
      assert LexLessAt(n, e, k);
    } else if e[p] > c[p] + 1 {
      assert LexLessAt(n, e, p);
    } else {
      forall t | p <= t < |e| ensures n[t] <= e[t] {
        Gap(e, p, t);
      }
      PointwiseLex(n, e, p);
    }
  }

  /** b to the power m. */
  function Pow(b: nat, m: nat): (r: nat)
    ensures b > 0 ==> r > 0
  {
    if m == 0 then 1 else b * Pow(b, m - 1)
  }

  /** The combination read as an |c|-digit number in base b, first position most significant. */
  function Rank(c: seq<nat>, b: nat): nat {
    if c == [] then 0 else c[0] * Pow(b, |c| - 1) + Rank(c[1..], b)
  }

  /** A number with |c| digits below b is below b^|c|. */
  lemma {:induction false} RankBound(c: seq<nat>, b: nat)
    requires forall k :: 0 <= k < |c| ==> c[k] < b
    ensures Rank(c, b) < Pow(b, |c|)
  {
    if c != [] {
      var P := Pow(b, |c| - 1);
      RankBound(c[1..], b);
      assert c[0] * P <= (b - 1) * P by {
        MulLeft(c[0], b - 1, P);
      }
    }
  }

  /** x <= y implies x * z <= y * z. */
  lemma MulLeft(x: nat, y: nat, z: nat)
    requires x <= y
    ensures x * z <= y * z
  {
  }

  /** Lexicographic order agrees with the order of the numbers read in base b. */
  lemma {:induction false} RankLex(a: seq<nat>, c: seq<nat>, b: nat, k: nat)
    requires LexLessAt(a, c, k)
    requires forall t :: 0 <= t < |a| ==> a[t] < b
    ensures Rank(a, b) < Rank(c, b)
    decreases k
  {
    var P := Pow(b, |a| - 1);
    var x, y, ra, rc := a[0], c[0], Rank(a[1..], b), Rank(c[1..], b);
    RankHead(a, b);
    RankHead(c, b);
    if k == 0 {
      RankBound(a[1..], b);
      HeadFirst(x, y, P, ra, rc);
    } else {
      assert LexLessAt(a[1..], c[1..], k - 1);
      RankLex(a[1..], c[1..], b, k - 1);
      HeadTie(x, y, P, ra, rc);
    }
  }

  /** The leading digit of c counts b^(|c| - 1) times. */
  lemma RankHead(c: seq<nat>, b: nat)
    requires c != []
    ensures Rank(c, b) == c[0] * Pow(b, |c| - 1) + Rank(c[1..], b)
  {
  }

  /** With equal leading digits the rest decides. */
  lemma HeadTie(x: nat, y: nat, P: nat, ra: nat, rc: nat)
    requires x == y && ra < rc
    ensures x * P + ra < y * P + rc
  {
  }

  /** A smaller leading digit wins whatever follows it. */
  lemma HeadFirst(x: nat, y: nat, P: nat, ra: nat, rc: nat)
    requires x < y && ra < P
    ensures x * P + ra < y * P + rc
  {
    MulLeft(x + 1, y, P);
    assert (x + 1) * P == x * P + P;
  }

  /** A step of Families' walk increases the rank, which is bounded: the walk ends. */
  lemma NextRank(c: seq<nat>, N: nat)
    requires IsCombo(c, N) && |c| > 0 && c[0] != N - |c|
    ensures Rank(c, N) < Rank(Next(c, N), N) < Pow(N, |c|)
  {
    NextAfter(c, N);
    var k: nat :| LexLessAt(c, Next(c, N), k);
    RankLex(c, Next(c, N), N, k);
    RankBound(Next(c, N), N);
  }

  /** Next(c, N) is the sequence that keeps what precedes the pivot p and counts
      up from the pivot's old value plus one. */
  lemma NextIs(c: seq<nat>, N: nat, p: nat, r: seq<nat>)
    requires IsCombo(c, N) && |c| > 0 && c[0] != N - |c|
    requires p == Pivot(c, N, |c| - 1) && |r| == |c|
    requires forall t :: 0 <= t < p ==> r[t] == c[t]
    requires forall t :: p <= t < |c| ==> r[t] == c[p] + 1 + (t - p)
    ensures r == Next(c, N)
  {
    var e := Next(c, N);
    forall t | 0 <= t < |c| ensures e[t] == r[t] {
      if t < p {
        assert e[t] == c[..p][t];
      } else {
        assert e[t] == Ramp(c[p] + 1, |c| - p)[t - p];
      }
    }
  }

  /** The inner walk down of Advance: from the last position, step left past
      every position at its maximum. */
  method FindPivot(d: array<nat>, N: nat) returns (i: nat)
    requires d.Length > 0
    ensures i == Pivot(d[..], N, d.Length - 1)
  {
    i := d.Length - 1;
    while i > 0 && d[i] == N - d.Length + i
      invariant i < d.Length
      invariant Pivot(d[..], N, i) == Pivot(d[..], N, d.Length - 1)
      decreases i
    {
      i := i - 1;
    }
  }

  /** The tail of Advance: increment position i and make every later position
      one more than the one before. */
  method CountUp(d: array<nat>, i: nat)
    requires i < d.Length
    modifies d
    ensures forall t :: 0 <= t < i ==> d[t] == old(d[t])
    ensures forall t :: i <= t < d.Length ==> d[t] == old(d[i]) + 1 + (t - i)
  {
    var o := d.Length - 1;
    var k := i;
    d[k] := d[k] + 1;
    while k < o
      invariant i <= k <= o
      invariant forall t :: 0 <= t < i ==> d[t] == old(d[t])
      invariant forall t :: i <= t <= k ==> d[t] == old(d[i]) + 1 + (t - i)
      decreases o - k
    {
      k := k + 1;
      d[k] := d[k - 1] + 1;
    }
  }

  /** The step of Families on its array d: walk down from the last position past
      every position at its maximum, increment the position reached and make
      each later position one more than the one before. */
  method Advance(d: array<nat>, N: nat)
    requires IsCombo(d[..], N) && d.Length > 0 && d[0] != N - d.Length
    modifies d
    ensures d[..] == Next(old(d[..]), N)
  {
    ghost var c := d[..];
    ghost var p := Pivot(c, N, |c| - 1);
    var i := d.Length - 1;
    if d[i] != N - d.Length + i {
      d[i] := d[i] + 1;
      NextIs(c, N, p, d[..]);
    } else {
      i := FindPivot(d, N);
      CountUp(d, i);
      NextIs(c, N, p, d[..]);
    }
  }
}
