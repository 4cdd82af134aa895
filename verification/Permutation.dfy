/** Permutations of {0..n-1} as sequences, and the cycles of the permutation
    pibar = pi X pi^-1 X, where X exchanges 2j and 2j+1. */
module Permutation {

  ghost predicate IsPerm(p: seq<nat>) {
    && (forall i :: 0 <= i < |p| ==> p[i] < |p|)
    && (forall i, j :: 0 <= i < j < |p| ==> p[i] != p[j])
  }

  /** The partner of x in its pair {2j, 2j+1}. */
  function X(x: nat): nat {
    if x % 2 == 0 then x + 1 else x - 1
  }

  lemma XBound(x: nat, n: nat)
    requires x < n && n % 2 == 0
    ensures X(x) < n
  {
  }

  // ---------- every value is taken ----------

  ghost function Below(n: nat): set<nat> {
    if n == 0 then {} else Below(n - 1) + {n - 1}
  }

  lemma BelowHas(n: nat, x: nat)
    ensures x in Below(n) <==> x < n
  {
  }

  lemma BelowSize(n: nat)
    ensures |Below(n)| == n
  {
    if n > 0 {
      BelowHas(n - 1, n - 1);
    }
  }

  lemma SubsetSize(a: set<nat>, b: set<nat>)
    requires a <= b
    ensures |a| <= |b|
    ensures |a| == |b| ==> a == b
  {
    assert b == a + (b - a);
    assert |b| == |a| + |b - a|;
    if |a| == |b| {
      assert b - a == {};
    }
  }

  ghost function Image(p: seq<nat>, m: nat): (r: set<nat>)
    requires m <= |p|
    ensures forall x :: x in r <==> exists i :: 0 <= i < m && p[i] == x
  {
    if m == 0 then {} else Image(p, m - 1) + {p[m - 1]}
  }

  lemma ImageSize(p: seq<nat>, m: nat)
    requires IsPerm(p) && m <= |p|
    ensures |Image(p, m)| == m
  {
    if m > 0 {
      ImageSize(p, m - 1);
      assert p[m - 1] !in Image(p, m - 1);
    }
  }

  lemma PermOnto(p: seq<nat>, y: nat)
    requires IsPerm(p) && y < |p|
    ensures exists x :: 0 <= x < |p| && p[x] == y
  {
    ImageSize(p, |p|);
    forall x | x in Image(p, |p|)
      ensures x in Below(|p|)
    {
      BelowHas(|p|, x);
    }
    BelowSize(|p|);
    BelowHas(|p|, y);
    SubsetSize(Image(p, |p|), Below(|p|));
    assert y in Image(p, |p|);
  }

  ghost function IndexOf(p: seq<nat>, y: nat): (x: nat)
    requires IsPerm(p) && y < |p|
    ensures x < |p| && p[x] == y
  {
    PermOnto(p, y);
    var x :| 0 <= x < |p| && p[x] == y;
    x
  }

  // ---------- powers ----------

  ghost function Iter(p: seq<nat>, k: nat, x: nat): (y: nat)
    requires IsPerm(p) && x < |p|
    ensures y < |p|
  {
    if k == 0 then x else p[Iter(p, k - 1, x)]
  }

  lemma IterAdd(p: seq<nat>, a: nat, b: nat, x: nat)
    requires IsPerm(p) && x < |p|
    ensures Iter(p, a + b, x) == Iter(p, a, Iter(p, b, x))
  {
    if a > 0 {
      IterAdd(p, a - 1, b, x);
      assert a + b - 1 == a - 1 + b;
    }
  }

  lemma IterInjective(p: seq<nat>, k: nat, x: nat, y: nat)
    requires IsPerm(p) && x < |p| && y < |p|
    requires Iter(p, k, x) == Iter(p, k, y)
    ensures x == y
  {
    if k > 0 {
      IterInjective(p, k - 1, x, y);
    }
  }

  /** The least of x, p(x), ..., p^(m-1)(x). */
  ghost function MinIter(p: seq<nat>, m: nat, x: nat): (c: nat)
    requires IsPerm(p) && x < |p| && m > 0
    ensures c < |p|
  {
    if m == 1 then x
    else
      var c, y := MinIter(p, m - 1, x), Iter(p, m - 1, x);
      if y < c then y else c
  }

  lemma MinIterBelow(p: seq<nat>, m: nat, x: nat, k: nat)
    requires IsPerm(p) && x < |p| && k < m
    ensures MinIter(p, m, x) <= Iter(p, k, x)
  {
    if m > 1 && k < m - 1 {
      MinIterBelow(p, m - 1, x, k);
    }
  }

  lemma MinIterTaken(p: seq<nat>, m: nat, x: nat) returns (k: nat)
    requires IsPerm(p) && x < |p| && m > 0
    ensures k < m && MinIter(p, m, x) == Iter(p, k, x)
  {
    if m == 1 {
      k := 0;
    } else {
      k := MinIterTaken(p, m - 1, x);
      if Iter(p, m - 1, x) < MinIter(p, m - 1, x) {
        k := m - 1;
      }
    }
  }

  /** Doubling: the minimum over a+b steps from the minima over a steps and over b steps from p^a(x). */
  lemma {:induction false} MinIterAdd(p: seq<nat>, a: nat, b: nat, x: nat)
    requires IsPerm(p) && x < |p| && a > 0 && b > 0
    ensures var c, d := MinIter(p, a, x), MinIter(p, b, Iter(p, a, x));
            MinIter(p, a + b, x) == if d < c then d else c
  {
    IterAdd(p, b - 1, a, x);
    if b > 1 {
      MinIterAdd(p, a, b - 1, x);
    }
  }

  // ---------- pibar ----------

  ghost function PiBarValue(pi: seq<nat>, y: nat): (z: nat)
    requires IsPerm(pi) && |pi| % 2 == 0 && y < |pi|
    ensures z < |pi|
  {
    XBound(y, |pi|);
    var a := IndexOf(pi, X(y));
    XBound(a, |pi|);
    pi[X(a)]
  }

  /** pibar sends pi(x) ^ 1 to pi(x ^ 1). */
  ghost function PiBar(pi: seq<nat>): (q: seq<nat>)
    requires IsPerm(pi) && |pi| % 2 == 0
    ensures |q| == |pi|
    ensures forall y :: 0 <= y < |pi| ==> q[y] == PiBarValue(pi, y)
  {
    seq(|pi|, y requires 0 <= y < |pi| => PiBarValue(pi, y))
  }

  lemma PiBarAt(pi: seq<nat>, x: nat)
    requires IsPerm(pi) && |pi| % 2 == 0 && x < |pi|
    ensures X(pi[x]) < |pi| && X(x) < |pi|
    ensures PiBar(pi)[X(pi[x])] == pi[X(x)]
  {
    XBound(pi[x], |pi|);
    XBound(x, |pi|);
    assert X(X(pi[x])) == pi[x];
    assert IndexOf(pi, pi[x]) == x;
  }

  /** What pibar has in common with its mirror image: X pibar X is the inverse of pibar,
      and pibar sends no element to its partner. */
  ghost predicate MirrorAt(q: seq<nat>, z: nat) {
    z < |q| ==> X(q[z]) < |q| && q[X(q[z])] == X(z) && q[z] != X(z)
  }

  ghost predicate Mirrored(q: seq<nat>) {
    IsPerm(q) && |q| % 2 == 0 && forall z :: 0 <= z < |q| ==> MirrorAt(q, z)
  }

  lemma PiBarInjective(pi: seq<nat>, i: nat, j: nat)
    requires IsPerm(pi) && |pi| % 2 == 0 && i < j < |pi|
    ensures PiBar(pi)[i] != PiBar(pi)[j]
  {
    XBound(i, |pi|);
    XBound(j, |pi|);
    var a, b := IndexOf(pi, X(i)), IndexOf(pi, X(j));
    XBound(a, |pi|);
    XBound(b, |pi|);
    assert X(i) != X(j);
    assert a != b;
    assert X(a) != X(b);
  }

  lemma PiBarMirror(pi: seq<nat>, z: nat)
    requires IsPerm(pi) && |pi| % 2 == 0 && z < |pi|
    ensures MirrorAt(PiBar(pi), z)
  {
    XBound(z, |pi|);
    var a := IndexOf(pi, X(z));
    XBound(a, |pi|);
    var q := PiBar(pi);
    assert q[z] == pi[X(a)];
    PiBarAt(pi, X(a));
    assert X(X(a)) == a;
  }

  lemma PiBarMirrored(pi: seq<nat>)
    requires IsPerm(pi) && |pi| % 2 == 0
    ensures Mirrored(PiBar(pi))
  {
    var q := PiBar(pi);
    forall i, j | 0 <= i < j < |q|
      ensures q[i] != q[j]
    {
      PiBarInjective(pi, i, j);
    }
    forall z | 0 <= z < |q|
      ensures MirrorAt(q, z)
    {
      PiBarMirror(pi, z);
    }
  }

  // ---------- the cycles of a mirrored permutation ----------

  lemma IterOne(q: seq<nat>, k: nat, x: nat)
    requires IsPerm(q) && x < |q|
    ensures Iter(q, k + 1, x) == Iter(q, k, q[x])
  {
    IterAdd(q, k, 1, x);
    assert Iter(q, 1, x) == q[Iter(q, 0, x)];
  }

  lemma {:induction false} MirrorIter(q: seq<nat>, k: nat, z: nat)
    requires Mirrored(q) && z < |q|
    ensures X(z) < |q| && X(Iter(q, k, z)) < |q|
    ensures Iter(q, k, X(Iter(q, k, z))) == X(z)
  {
    XBound(z, |q|);
    XBound(Iter(q, k, z), |q|);
    if k > 0 {
      var y := Iter(q, k - 1, z);
      assert MirrorAt(q, y);
      MirrorIter(q, k - 1, z);
      IterOne(q, k - 1, X(q[y]));
    }
  }

  /** No power of q sends y to its partner. */
  lemma {:induction false} NoFix(q: seq<nat>, k: nat, y: nat)
    requires Mirrored(q) && y < |q|
    ensures Iter(q, k, y) != X(y)
  {
    XBound(y, |q|);
    assert MirrorAt(q, y);
    if k == 1 {
      assert Iter(q, 1, y) == q[Iter(q, 0, y)] == q[y];
    } else if k >= 2 {
      var z := q[y];
      NoFix(q, k - 2, z);
      IterOne(q, k - 1, y);
      var u := Iter(q, k - 2, z);
      assert q[X(z)] == X(y);
      assert u != X(z);
      assert q[u] != q[X(z)];
    }
  }

  lemma NoMeetLater(q: seq<nat>, d: nat, k: nat, x: nat)
    requires Mirrored(q) && x < |q|
    ensures Iter(q, d + k, x) != X(Iter(q, k, x))
  {
    IterAdd(q, d, k, x);
    NoFix(q, d, Iter(q, k, x));
  }

  /** The cycle of x and its mirror image never meet. */
  lemma {:induction false} NoMeet(q: seq<nat>, j: nat, k: nat, x: nat)
    requires Mirrored(q) && x < |q|
    ensures Iter(q, j, x) != X(Iter(q, k, x))
  {
    if j >= k {
      NoMeetLater(q, j - k, k, x);
    } else {
      NoMeetLater(q, k - j, j, x);
      var y := Iter(q, k, x);
      assert X(X(y)) == y;
    }
  }

  // ---------- cycles have at most n/2 elements ----------

  /** The first m elements of the cycle of x together with their partners. */
  ghost function Both(q: seq<nat>, m: nat, x: nat): set<nat>
    requires IsPerm(q) && x < |q|
  {
    if m == 0 then {} else Both(q, m - 1, x) + {Iter(q, m - 1, x), X(Iter(q, m - 1, x))}
  }

  lemma BothIn(q: seq<nat>, m: nat, x: nat, y: nat)
    requires IsPerm(q) && x < |q| && y in Both(q, m, x)
    ensures exists k :: 0 <= k < m && (y == Iter(q, k, x) || y == X(Iter(q, k, x)))
  {
    if y == Iter(q, m - 1, x) || y == X(Iter(q, m - 1, x)) {
    } else {
      BothIn(q, m - 1, x, y);
    }
  }

  lemma NoRepeat(q: seq<nat>, j: nat, k: nat, x: nat)
    requires IsPerm(q) && x < |q| && k < j && Iter(q, j - k, x) != x
    ensures Iter(q, j, x) != Iter(q, k, x)
  {
    IterAdd(q, k, j - k, x);
    if Iter(q, j, x) == Iter(q, k, x) {
      IterInjective(q, k, Iter(q, j - k, x), x);
    }
  }

  lemma XInjective(y: nat, z: nat)
    requires X(y) == X(z)
    ensures y == z
  {
  }

  lemma BothFresh(q: seq<nat>, m: nat, x: nat, z: nat)
    requires Mirrored(q) && x < |q|
    requires forall d :: 0 < d <= m ==> Iter(q, d, x) != x
    requires z == Iter(q, m, x) || z == X(Iter(q, m, x))
    ensures z !in Both(q, m, x)
  {
    if z in Both(q, m, x) {
      BothIn(q, m, x, z);
      var k :| 0 <= k < m && (z == Iter(q, k, x) || z == X(Iter(q, k, x)));
      NoMeet(q, m, k, x);
      NoMeet(q, k, m, x);
      NoRepeat(q, m, k, x);
      if z == X(Iter(q, k, x)) && z == X(Iter(q, m, x)) {
        XInjective(Iter(q, k, x), Iter(q, m, x));
      }
    }
  }

  lemma {:induction false} BothSize(q: seq<nat>, m: nat, x: nat)
    requires Mirrored(q) && x < |q|
    requires forall d :: 0 < d < m ==> Iter(q, d, x) != x
    ensures |Both(q, m, x)| == 2 * m
  {
    hide Iter, IsPerm;
    if m > 0 {
      BothSize(q, m - 1, x);
      var y := Iter(q, m - 1, x);
      BothFresh(q, m - 1, x, y);
      BothFresh(q, m - 1, x, X(y));
      assert X(y) != y;
    }
  }

  lemma {:induction false} BothBelow(q: seq<nat>, m: nat, x: nat)
    requires IsPerm(q) && |q| % 2 == 0 && x < |q|
    ensures Both(q, m, x) <= Below(|q|)
  {
    if m > 0 {
      BothBelow(q, m - 1, x);
      XBound(Iter(q, m - 1, x), |q|);
      BelowHas(|q|, Iter(q, m - 1, x));
      BelowHas(|q|, X(Iter(q, m - 1, x)));
    }
  }

  lemma {:induction false} CycleReturns(q: seq<nat>, x: nat) returns (d: nat)
    requires Mirrored(q) && x < |q|
    ensures 0 < d <= |q| / 2 && Iter(q, d, x) == x
  {
    var h := |q| / 2;
    if forall d :: 0 < d < h + 1 ==> Iter(q, d, x) != x {
      BothSize(q, h + 1, x);
      BothBelow(q, h + 1, x);
      BelowSize(|q|);
      SubsetSize(Both(q, h + 1, x), Below(|q|));
      assert false;
    }
    d :| 0 < d < h + 1 && Iter(q, d, x) == x;
  }

  // ---------- cycle minima ----------

  /** The least element of the cycle of x, as the minimum over n/2 steps. */
  ghost function CycleMin(q: seq<nat>, x: nat): (c: nat)
    requires Mirrored(q) && x < |q|
    ensures c < |q|
  {
    MinIter(q, |q| / 2, x)
  }

  lemma {:induction false} BelowCycle(q: seq<nat>, x: nat, d: nat, k: nat)
    requires IsPerm(q) && x < |q| && 0 < d <= |q| / 2 && Iter(q, d, x) == x
    ensures MinIter(q, |q| / 2, x) <= Iter(q, k, x)
  {
    if k < d {
      MinIterBelow(q, |q| / 2, x, k);
    } else {
      IterAdd(q, k - d, d, x);
      BelowCycle(q, x, d, k - d);
    }
  }

  /** n/2 steps reach the whole cycle. */
  lemma {:induction false} CycleMinBelow(q: seq<nat>, x: nat, k: nat)
    requires Mirrored(q) && x < |q|
    ensures CycleMin(q, x) <= Iter(q, k, x)
  {
    var d := CycleReturns(q, x);
    BelowCycle(q, x, d, k);
  }

  lemma CycleMinTaken(q: seq<nat>, x: nat) returns (k: nat)
    requires Mirrored(q) && x < |q|
    ensures CycleMin(q, x) == Iter(q, k, x)
  {
    k := MinIterTaken(q, |q| / 2, x);
  }

  lemma CycleMinForward(q: seq<nat>, x: nat)
    requires Mirrored(q) && x < |q|
    ensures CycleMin(q, x) <= CycleMin(q, q[x])
  {
    var k := CycleMinTaken(q, q[x]);
    IterOne(q, k, x);
    CycleMinBelow(q, x, k + 1);
  }

  lemma CycleMinBack(q: seq<nat>, x: nat)
    requires Mirrored(q) && x < |q|
    ensures CycleMin(q, q[x]) <= CycleMin(q, x)
  {
    var j := CycleMinTaken(q, x);
    var d := CycleReturns(q, x);
    IterOne(q, d - 1, x);
    IterAdd(q, j, d - 1, q[x]);
    CycleMinBelow(q, q[x], j + (d - 1));
  }

  /** The minimum is the same all along a cycle. */
  lemma {:induction false} CycleMinStep(q: seq<nat>, x: nat)
    requires Mirrored(q) && x < |q|
    ensures CycleMin(q, q[x]) == CycleMin(q, x)
  {
    CycleMinForward(q, x);
    CycleMinBack(q, x);
  }

  lemma {:induction false} CycleMinIter(q: seq<nat>, k: nat, x: nat)
    requires Mirrored(q) && x < |q|
    ensures CycleMin(q, Iter(q, k, x)) == CycleMin(q, x)
  {
    if k > 0 {
      CycleMinIter(q, k - 1, x);
      CycleMinStep(q, Iter(q, k - 1, x));
    }
  }

  /** Some further power completes k steps to a multiple of the cycle length. */
  lemma {:induction false} CompleteCycle(q: seq<nat>, x: nat, d: nat, k: nat) returns (m: nat)
    requires IsPerm(q) && x < |q| && d > 0 && Iter(q, d, x) == x
    ensures Iter(q, k + m, x) == x
  {
    if k == 0 {
      m := 0;
    } else {
      m := CompleteCycle(q, x, d, k - 1);
      if m > 0 {
        m := m - 1;
      } else {
        m := d - 1;
        IterAdd(q, k - 1, d, x);
      }
    }
  }

  lemma XMono(z: nat, m: nat)
    requires m <= z && z != X(m)
    ensures X(m) <= X(z)
  {
  }

  /** The mirrored cycle has the mirrored minimum: c(x ^ 1) = c(x) ^ 1. */
  lemma {:induction false} CycleMinMirror(q: seq<nat>, x: nat)
    requires Mirrored(q) && x < |q|
    ensures X(x) < |q| && CycleMin(q, X(x)) == X(CycleMin(q, x))
  {
    XBound(x, |q|);
    var m := CycleMin(q, x);
    XBound(m, |q|);
    var j := CycleMinTaken(q, x);
    MirrorIter(q, j, x);
    CycleMinIter(q, j, X(m));
    assert CycleMin(q, X(x)) <= X(m) by {
      CycleMinBelow(q, X(m), 0);
    }
    var k := CycleMinTaken(q, X(x));
    var d := CycleReturns(q, x);
    var r := CompleteCycle(q, x, d, k);
    var z := Iter(q, r, x);
    IterAdd(q, k, r, x);
    MirrorIter(q, k, z);
    assert Iter(q, k, X(x)) == X(z);
    CycleMinBelow(q, x, r);
    NoMeet(q, r, j, x);
    XMono(z, m);
  }
}
