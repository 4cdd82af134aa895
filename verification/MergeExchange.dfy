/** The merge-exchange network shared by int32_sort.h and uint64_sort.h, as a function on sequences,
    and the proof that it sorts sequences of every length. */
module MergeExchange {
  import opened Bits

  ghost predicate Sorted(s: seq<int>) {
    forall i, j :: 0 <= i < j < |s| ==> s[i] <= s[j]
  }

  /** One compare-exchange: the smaller value ends at the lower position. Beyond the end it does nothing. */
  function CE(s: seq<int>, i: nat, j: nat): (r: seq<int>)
    requires i < j
    ensures |r| == |s|
  {
    if j < |s| && s[j] < s[i] then s[i := s[j]][j := s[i]] else s
  }

  /** First half of the pass with distance p, for the first m positions: neighbours at distance p. */
  function Pass1(s: seq<int>, p: nat, m: nat): (r: seq<int>)
    requires p > 0
    ensures |r| == |s|
  {
    if m == 0 then s
    else
      var t := Pass1(s, p, m - 1);
      if (m - 1) / p % 2 == 0 then CE(t, m - 1, m - 1 + p) else t
  }

  /** The exchanges of position i+p with i+p*u, i+p*u/2, ..., i+2*p. */
  function Chain(s: seq<int>, p: nat, i: nat, u: nat): (r: seq<int>)
    requires p > 0
    ensures |r| == |s|
    decreases u
  {
    if u <= 1 then s
    else
      MulLt(p, 1, u);
      Chain(CE(s, i + p, i + p * u), p, i, u / 2)
  }

  lemma MulLt(p: nat, a: nat, b: nat)
    requires p > 0 && a < b
    ensures p * a < p * b
  {
  }

  /** Second half of the pass with distance p, for the first m positions. */
  function Pass2(s: seq<int>, p: nat, u: nat, m: nat): (r: seq<int>)
    requires p > 0
    ensures |r| == |s|
  {
    if m == 0 then s
    else
      var t := Pass2(s, p, u, m - 1);
      if (m - 1) / p % 2 == 0 then Chain(t, p, m - 1, u) else t
  }

  /** The whole pass with distance p, where the first distance of the network is p*u. */
  function MergePass(s: seq<int>, p: nat, u: nat): (r: seq<int>)
    requires p > 0
    ensures |r| == |s|
  {
    Pass2(Pass1(s, p, |s|), p, u, |s|)
  }

  // ---------- the elements are only rearranged ----------

  lemma CEMultiset(s: seq<int>, i: nat, j: nat)
    requires i < j
    ensures multiset(CE(s, i, j)) == multiset(s)
  {
  }

  lemma Pass1Multiset(s: seq<int>, p: nat, m: nat)
    requires p > 0
    ensures multiset(Pass1(s, p, m)) == multiset(s)
  {
    if m > 0 {
      Pass1Multiset(s, p, m - 1);
      CEMultiset(Pass1(s, p, m - 1), m - 1, m - 1 + p);
    }
  }

  lemma ChainMultiset(s: seq<int>, p: nat, i: nat, u: nat)
    requires p > 0
    ensures multiset(Chain(s, p, i, u)) == multiset(s)
    decreases u
  {
    hide CE;
    if u > 1 {
      MulLt(p, 1, u);
      CEMultiset(s, i + p, i + p * u);
      ChainMultiset(CE(s, i + p, i + p * u), p, i, u / 2);
    }
  }

  lemma Pass2Multiset(s: seq<int>, p: nat, u: nat, m: nat)
    requires p > 0
    ensures multiset(Pass2(s, p, u, m)) == multiset(s)
  {
    if m > 0 {
      Pass2Multiset(s, p, u, m - 1);
      ChainMultiset(Pass2(s, p, u, m - 1), p, m - 1, u);
    }
  }

  lemma {:induction false} MergePassMultiset(s: seq<int>, p: nat, u: nat)
    requires p > 0
    ensures multiset(MergePass(s, p, u)) == multiset(s)
  {
    Pass1Multiset(s, p, |s|);
    Pass2Multiset(Pass1(s, p, |s|), p, u, |s|);
  }

  // ---------- thresholds: the zero-one principle ----------

  function Above(v: int, t: int): int { if v > t then 1 else 0 }

  function Thr(s: seq<int>, t: int): (r: seq<int>)
    ensures |r| == |s|
  {
    seq(|s|, k requires 0 <= k < |s| => Above(s[k], t))
  }

  lemma ThrCE(s: seq<int>, i: nat, j: nat, t: int)
    requires i < j
    ensures Thr(CE(s, i, j), t) == CE(Thr(s, t), i, j)
  {
  }

  lemma ThrPass1(s: seq<int>, p: nat, m: nat, t: int)
    requires p > 0
    ensures Thr(Pass1(s, p, m), t) == Pass1(Thr(s, t), p, m)
  {
    if m > 0 {
      ThrPass1(s, p, m - 1, t);
      ThrCE(Pass1(s, p, m - 1), m - 1, m - 1 + p, t);
    }
  }

  lemma ChainFirst(s: seq<int>, p: nat, i: nat, u: nat)
    requires p > 0 && u > 1
    ensures i + p < i + p * u
    ensures Chain(s, p, i, u) == Chain(CE(s, i + p, i + p * u), p, i, u / 2)
  {
    hide CE;
    MulLt(p, 1, u);
  }

  lemma ChainNone(s: seq<int>, p: nat, i: nat, u: nat)
    requires p > 0 && u <= 1
    ensures Chain(s, p, i, u) == s
  {
  }

  lemma ThrChain(s: seq<int>, p: nat, i: nat, u: nat, t: int)
    requires p > 0
    ensures Thr(Chain(s, p, i, u), t) == Chain(Thr(s, t), p, i, u)
    decreases u
  {
    hide Thr, CE, Chain;
    if u > 1 {
      ChainFirst(s, p, i, u);
      ChainFirst(Thr(s, t), p, i, u);
      ThrCE(s, i + p, i + p * u, t);
      ThrChain(CE(s, i + p, i + p * u), p, i, u / 2, t);
    } else {
      ChainNone(s, p, i, u);
      ChainNone(Thr(s, t), p, i, u);
    }
  }

  lemma ThrPass2(s: seq<int>, p: nat, u: nat, m: nat, t: int)
    requires p > 0
    ensures Thr(Pass2(s, p, u, m), t) == Pass2(Thr(s, t), p, u, m)
  {
    if m > 0 {
      ThrPass2(s, p, u, m - 1, t);
      ThrChain(Pass2(s, p, u, m - 1), p, m - 1, u, t);
    }
  }

  lemma {:induction false} ThrMergePass(s: seq<int>, p: nat, u: nat, t: int)
    requires p > 0
    ensures Thr(MergePass(s, p, u), t) == MergePass(Thr(s, t), p, u)
  {
    ThrPass1(s, p, |s|, t);
    ThrPass2(Pass1(s, p, |s|), p, u, |s|, t);
  }

  // ---------- distance 1: merging the even and the odd positions ----------

  ghost predicate ZeroOne(y: seq<int>) {
    forall k :: 0 <= k < |y| ==> y[k] == 0 || y[k] == 1
  }

  /** Zeros: below b among the odd positions; below c, or from d to a, among the even positions. */
  ghost predicate Shape(y: seq<int>, b: int, c: int, d: int, a: int) {
    && ZeroOne(y)
    && (forall e :: 0 <= e && 2 * e < |y| ==> (y[2 * e] == 0 <==> e < c || d <= e < a))
    && (forall e :: 0 <= e && 2 * e + 1 < |y| ==> (y[2 * e + 1] == 0 <==> e < b))
  }

  /** Element k after the first half of a pass with distance 1 over the first m positions. */
  function PairAt(y: seq<int>, m: nat, k: nat): int
    requires k < |y|
  {
    if k % 2 == 0 && k < m && k + 1 < |y| && y[k + 1] < y[k] then y[k + 1]
    else if k % 2 == 1 && k - 1 < m && y[k] < y[k - 1] then y[k - 1]
    else y[k]
  }

  lemma Pass1At(y: seq<int>, m: nat, k: nat)
    requires m <= |y| && k < |y|
    ensures Pass1(y, 1, m)[k] == PairAt(y, m, k)
  {
    if m > 0 {
      var i := m - 1;
      assert i / 1 == i;
      var t := Pass1(y, 1, i);
      Pass1At(y, i, k);
      if i % 2 == 0 {
        Pass1At(y, i, i);
        if i + 1 < |y| {
          Pass1At(y, i, i + 1);
          assert t[i] == y[i] && t[i + 1] == y[i + 1];
        }
        assert Pass1(y, 1, m) == CE(t, i, i + 1);
      }
    }
  }

  lemma {:induction false} Pass1Shape(y: seq<int>, a: nat, b: nat, hi: nat, lo: nat)
    requires Shape(y, b, a, a, a) && 2 * a <= |y| + 1 && 2 * b <= |y|
    requires hi == (if a >= b then a else b) && lo == (if a >= b then b else a)
    ensures Shape(Pass1(y, 1, |y|), lo, hi, hi, hi)
  {
    var z := Pass1(y, 1, |y|);
    forall k | 0 <= k < |y|
      ensures z[k] == PairAt(y, |y|, k)
    {
      Pass1At(y, |y|, k);
    }
    forall e | 0 <= e && 2 * e < |y|
      ensures z[2 * e] == 0 <==> e < hi
    {
      assert z[2 * e] == PairAt(y, |y|, 2 * e);
      if 2 * e + 1 < |y| {
        assert y[2 * e + 1] == 0 <==> e < b;
      }
    }
    forall e | 0 <= e && 2 * e + 1 < |y|
      ensures z[2 * e + 1] == 0 <==> e < lo
    {
      assert z[2 * e + 1] == PairAt(y, |y|, 2 * e + 1);
      assert y[2 * e] == 0 <==> e < a;
    }
  }

  lemma ChainUnfold(y: seq<int>, e: nat, x: nat)
    requires x > 0
    ensures 2 * e + 1 < 2 * (e + Pow2(x - 1))
    ensures Chain(y, 1, 2 * e, Pow2(x)) ==
            Chain(CE(y, 2 * e + 1, 2 * (e + Pow2(x - 1))), 1, 2 * e, Pow2(x - 1))
  {
    var u := Pow2(x);
    assert 2 * e + 1 * u == 2 * (e + Pow2(x - 1));
    assert u / 2 == Pow2(x - 1);
  }

  /** A chain changes nothing when its odd element is already below every later even element. */
  lemma {:induction false} ChainIdle(y: seq<int>, e: nat, x: nat)
    requires 2 * e + 1 < |y| ==> forall k :: e < k && 2 * k < |y| ==> y[2 * e + 1] <= y[2 * k]
    ensures Chain(y, 1, 2 * e, Pow2(x)) == y
  {
    if x > 0 {
      ChainUnfold(y, e, x);
      ChainIdle(y, e, x - 1);
    }
  }

  lemma {:induction false} ChainSwapFirst(y: seq<int>, e: nat, x: nat, k: nat)
    requires x > 0 && k == e + Pow2(x - 1) && ZeroOne(y)
    requires 2 * k < |y| && y[2 * e + 1] == 1 && y[2 * k] == 0
    ensures Chain(y, 1, 2 * e, Pow2(x)) == y[2 * e + 1 := 0][2 * k := 1]
  {
    hide Chain;
    ChainUnfold(y, e, x);
    var y' := y[2 * e + 1 := 0][2 * k := 1];
    assert CE(y, 2 * e + 1, 2 * k) == y';
    forall j | e < j && 2 * j < |y'|
      ensures y'[2 * e + 1] <= y'[2 * j]
    {
      assert y'[2 * j] >= 0;
    }
    ChainIdle(y', e, x - 1);
  }

  /** A chain exchanges its odd one with the even zero at position k = e + 2^z when all later even elements are ones. */
  lemma {:induction false} ChainSwap(y: seq<int>, e: nat, x: nat, z: nat, k: nat)
    requires z < x && ZeroOne(y) && k == e + Pow2(z)
    requires 2 * k < |y| && y[2 * e + 1] == 1 && y[2 * k] == 0
    requires forall j :: k + Pow2(z) <= j && 2 * j < |y| ==> y[2 * j] == 1
    ensures Chain(y, 1, 2 * e, Pow2(x)) == y[2 * e + 1 := 0][2 * k := 1]
    decreases x
  {
    hide Chain;
    if z == x - 1 {
      ChainSwapFirst(y, e, x, k);
    } else {
      var j := e + Pow2(x - 1);
      assert j >= k + Pow2(z) by { Pow2Mono(z + 1, x - 1); }
      assert CE(y, 2 * e + 1, 2 * j) == y;
      ChainUnfold(y, e, x);
      ChainSwap(y, e, x - 1, z, k);
    }
  }

  /** Between phases: all exchanges so far are complete, and the next one starts at b. */
  ghost predicate Settled(y: seq<int>, e: int, x: nat, a: int, b: int) {
    && Shape(y, b, a, a, a)
    && 0 <= b <= a && 2 * a <= |y| + 1
    && a - b <= Pow2(x)
    && (e <= b || a - b <= 1)
  }

  /** Inside the phase of distance h = 2^z: positions b to e have been exchanged. */
  ghost predicate Phase(y: seq<int>, e: int, x: nat, a: int, b: int, z: nat) {
    && Shape(y, e, b + Pow2(z), e + Pow2(z), a)
    && z < x && 0 <= b < e < a - Pow2(z) && 2 * a <= |y| + 1
    && Pow2(z) < a - b <= 2 * Pow2(z)
  }

  ghost predicate Merging(y: seq<int>, e: int, x: nat) {
    || (exists a, b :: Settled(y, e, x, a, b))
    || (exists a, b, z :: Phase(y, e, x, a, b, z))
  }

  lemma LargestPow(d: nat) returns (z: nat)
    requires d >= 2
    ensures Pow2(z) < d <= 2 * Pow2(z)
  {
    z := 0;
    while 2 * Pow2(z) < d
      invariant Pow2(z) < d
      decreases d - Pow2(z)
    {
      z := z + 1;
    }
  }

  /** One exchange of a phase, followed by the next position of the phase or by its end. */
  lemma {:induction false} PhaseStep(y: seq<int>, e: nat, x: nat, a: int, b: int, z: nat)
    requires Shape(y, e, b + Pow2(z), e + Pow2(z), a)
    requires z < x && 0 <= b <= e < a - Pow2(z) && 2 * a <= |y| + 1
    requires Pow2(z) < a - b <= 2 * Pow2(z)
    ensures Merging(Chain(y, 1, 2 * e, Pow2(x)), e + 1, x)
  {
    hide Chain, Pow2;
    var h := Pow2(z);
    assert y[2 * (e + h)] == 0;
    assert y[2 * e + 1] == 1;
    ChainSwap(y, e, x, z, e + h);
    var y' := y[2 * e + 1 := 0][2 * (e + h) := 1];
    assert Shape(y', e + 1, b + h, e + 1 + h, a);
    if e + 1 < a - h {
      assert Phase(y', e + 1, x, a, b, z);
    } else {
      assert Shape(y', a - h, b + h, b + h, b + h);
      Pow2Mono(z, x);
      assert Settled(y', e + 1, x, b + h, a - h);
    }
  }

  lemma {:induction false} SettledStep(y: seq<int>, e: nat, x: nat, a: int, b: int)
    requires Settled(y, e, x, a, b)
    ensures Merging(Chain(y, 1, 2 * e, Pow2(x)), e + 1, x)
  {
    if e == b && a - b > 1 {
      var z := LargestPow(a - b);
      if z >= x {
        Pow2Mono(x, z);
        assert false;
      }
      PhaseStep(y, e, x, a, b, z);
    } else {
      ChainIdle(y, e, x);
      assert Settled(y, e + 1, x, a, b);
    }
  }

  lemma {:induction false} MergeStep(y: seq<int>, e: nat, x: nat)
    requires Merging(y, e, x)
    ensures Merging(Chain(y, 1, 2 * e, Pow2(x)), e + 1, x)
  {
    if a, b :| Settled(y, e, x, a, b) {
      SettledStep(y, e, x, a, b);
    } else {
      var a, b, z :| Phase(y, e, x, a, b, z);
      PhaseStep(y, e, x, a, b, z);
    }
  }

  lemma {:induction false} Pass2Merging(y: seq<int>, x: nat, m: nat)
    requires Merging(y, 0, x)
    ensures Merging(Pass2(y, 1, Pow2(x), m), (m + 1) / 2, x)
    decreases m
  {
    hide Chain, Merging, Pow2;
    if m > 0 {
      Pass2Merging(y, x, m - 1);
      assert (m - 1) / 1 == m - 1;
      if (m - 1) % 2 == 0 {
        var e := (m - 1) / 2;
        MergeStep(Pass2(y, 1, Pow2(x), m - 1), e, x);
      }
    }
  }

  lemma MergingStart(y: seq<int>, x: nat, a: int, b: int)
    requires Shape(y, b, a, a, a) && 0 <= b <= a && 2 * a <= |y| + 1 && a - b <= Pow2(x)
    ensures Merging(y, 0, x)
  {
    hide Shape, Pow2;
    assert Settled(y, 0, x, a, b);
  }

  lemma {:induction false} MergingDone(y: seq<int>, x: nat)
    requires Merging(y, (|y| + 1) / 2, x)
    ensures Sorted(y)
  {
    var a, b :| Settled(y, (|y| + 1) / 2, x, a, b);
    forall i | 0 <= i < |y|
      ensures y[i] == 0 <==> i < a + b
    {
      var e := i / 2;
      if i % 2 == 0 {
        assert i == 2 * e;
        assert y[2 * e] == 0 <==> e < a;
      } else {
        assert i == 2 * e + 1;
        assert y[2 * e + 1] == 0 <==> e < b;
      }
    }
  }

  /** In a sequence of zeros and ones sorted at distance 2, both halves are zeros followed by ones. */
  lemma {:induction false} CountZeros(y: seq<int>, off: nat) returns (a: nat)
    requires ZeroOne(y) && off <= 1
    requires forall k :: 0 <= k && k + 2 < |y| ==> y[k] <= y[k + 2]
    ensures 2 * a + off <= |y| + 1
    ensures forall e :: 0 <= e && 2 * e + off < |y| ==> (y[2 * e + off] == 0 <==> e < a)
  {
    a := 0;
    while 2 * a + off < |y| && y[2 * a + off] == 0
      invariant 2 * a + off <= |y| + 1
      invariant forall e :: 0 <= e < a && 2 * e + off < |y| ==> y[2 * e + off] == 0
    {
      a := a + 1;
    }
    var c := a;
    while 2 * c + off < |y|
      invariant a <= c
      invariant 2 * c + off < |y| ==> y[2 * c + off] == 1
      invariant forall e :: a <= e < c && 2 * e + off < |y| ==> y[2 * e + off] == 1
    {
      assert 2 * c + off + 2 < |y| ==> y[2 * c + off] <= y[2 * c + off + 2];
      c := c + 1;
    }
  }

  lemma CountsShape(y: seq<int>, a: nat, b: nat)
    requires ZeroOne(y)
    requires forall e :: 0 <= e && 2 * e + 0 < |y| ==> (y[2 * e + 0] == 0 <==> e < a)
    requires forall e :: 0 <= e && 2 * e + 1 < |y| ==> (y[2 * e + 1] == 0 <==> e < b)
    ensures Shape(y, b, a, a, a)
  {
    forall e | 0 <= e && 2 * e < |y|
      ensures y[2 * e] == 0 <==> e < a
    {
      assert y[2 * e + 0] == 0 <==> e < a;
    }
  }

  lemma {:induction false} MergeUnit(y: seq<int>, x: nat)
    requires ZeroOne(y) && |y| <= 2 * Pow2(x)
    requires forall k :: 0 <= k && k + 2 < |y| ==> y[k] <= y[k + 2]
    ensures Sorted(MergePass(y, 1, Pow2(x)))
  {
    hide Pass2, Pass1, Merging, Settled, Pow2, Shape;
    var a := CountZeros(y, 0);
    var b := CountZeros(y, 1);
    CountsShape(y, a, b);
    var z := Pass1(y, 1, |y|);
    var hi, lo := if a >= b then a else b, if a >= b then b else a;
    Pass1Shape(y, a, b, hi, lo);
    MergingStart(z, x, hi, lo);
    Pass2Merging(z, x, |y|);
    MergingDone(Pass2(z, 1, Pow2(x), |y|), x);
  }

  // ---------- distance p: every residue class modulo p is merged independently ----------

  function SubLen(n: nat, p: nat, j: nat): (r: nat)
    requires p > 0
  {
    if j >= n then 0
    else
      DivBasics(n - 1 - j, p);
      (n - 1 - j) / p + 1
  }

  lemma SubLenIn(n: nat, p: nat, j: nat, k: nat)
    requires p > 0
    ensures k < SubLen(n, p, j) <==> j + p * k < n
  {
    if j < n {
      var q := (n - 1 - j) / p;
      DivBasics(n - 1 - j, p);
      if k <= q {
        MulLe(p, k, q);
      } else {
        MulLe(p, q + 1, k);
      }
    } else {
      MulLe(p, 0, k);
    }
  }

  /** The elements at positions j, j+p, j+2p, ... */
  function Sub(s: seq<int>, p: nat, j: nat): (r: seq<int>)
    requires p > 0
    ensures |r| == SubLen(|s|, p, j)
  {
    seq(SubLen(|s|, p, j), k requires 0 <= k < SubLen(|s|, p, j) =>
      (SubLenIn(|s|, p, j, k); MulLe(p, 0, k); s[j + p * k]))
  }

  lemma ClassIndex(i: nat, p: nat, k: int, j: nat)
    requires p > 0 && j < p
    ensures i == j + p * k <==> i / p == k && i % p == j
  {
    DivBasics(i, p);
    if i == j + p * k {
      DivUnique(i, p, k, j);
    }
  }

  /** An exchange of members ka and kb of class c acts on that class and on no other. */
  lemma SubCEAt(s: seq<int>, p: nat, j: nat, c: nat, ka: nat, kb: nat, A: nat, B: nat, m: nat)
    requires j < p && c < p && ka < kb && m < SubLen(|s|, p, j)
    requires A == c + p * ka && B == c + p * kb && A < B
    ensures Sub(CE(s, A, B), p, j)[m] == (if c == j then CE(Sub(s, p, j), ka, kb) else Sub(s, p, j))[m]
  {
    SubLenIn(|s|, p, j, m);
    var pos := j + p * m;
    assert pos >= 0 by { MulLe(p, 0, m); }
    ClassIndex(pos, p, m, j);
    ClassIndex(pos, p, ka, c);
    ClassIndex(pos, p, kb, c);
    SubLenIn(|s|, p, c, ka);
    SubLenIn(|s|, p, c, kb);
    assert Sub(CE(s, A, B), p, j)[m] == CE(s, A, B)[pos];
    assert Sub(s, p, j)[m] == s[pos];
    if c == j && B < |s| {
      assert Sub(s, p, j)[ka] == s[A] && Sub(s, p, j)[kb] == s[B];
    }
  }

  lemma ShiftIndex(i: nat, p: nat, k: nat, a: nat)
    requires p > 0 && k == i / p
    ensures 0 <= i % p < p
    ensures i + p * a == i % p + p * (k + a)
  {
    DivBasics(i, p);
    assert p * (k + a) == p * k + p * a;
  }

  lemma SubCE(s: seq<int>, p: nat, j: nat, i: nat, k: nat, a: nat, b: nat)
    requires p > 0 && j < p && a < b && k == i / p
    ensures p * a < p * b
    ensures Sub(CE(s, i + p * a, i + p * b), p, j) ==
            if i % p == j then CE(Sub(s, p, j), k + a, k + b) else Sub(s, p, j)
  {
    MulLt(p, a, b);
    ShiftIndex(i, p, k, a);
    ShiftIndex(i, p, k, b);
    var A, B, c := i + p * a, i + p * b, i % p;
    var L, R := Sub(CE(s, A, B), p, j), if c == j then CE(Sub(s, p, j), k + a, k + b) else Sub(s, p, j);
    forall m | 0 <= m < |L|
      ensures L[m] == R[m]
    {
      SubCEAt(s, p, j, c, k + a, k + b, A, B, m);
    }
  }

  /** Member k of class j is the first one at or above m exactly when k counts those below m. */
  lemma SubLenIs(m: nat, p: nat, j: nat, k: nat)
    requires p > 0 && j + p * k >= m && (k > 0 ==> j + p * (k - 1) < m)
    ensures SubLen(m, p, j) == k
  {
    hide SubLen;
    SubLenIn(m, p, j, k);
    if k > 0 {
      SubLenIn(m, p, j, k - 1);
    }
  }

  lemma SubLenStep(m: nat, p: nat, j: nat)
    requires p > 0 && j < p && m > 0
    ensures SubLen(m, p, j) == SubLen(m - 1, p, j) + if (m - 1) % p == j then 1 else 0
    ensures (m - 1) % p == j ==> SubLen(m - 1, p, j) == (m - 1) / p
  {
    hide SubLen;
    var i := m - 1;
    DivBasics(i, p);
    var k: nat := SubLen(i, p, j);
    SubLenIn(i, p, j, k);
    if i % p == j {
      var q: nat := i / p;
      assert p * (q + 1) == p * q + p;
      assert q > 0 ==> p * (q - 1) == p * q - p;
      SubLenIs(i, p, j, q);
      SubLenIs(m, p, j, q + 1);
    } else {
      ClassIndex(i, p, k, j);
      if k > 0 {
        SubLenIn(i, p, j, k - 1);
      }
      SubLenIs(m, p, j, k);
    }
  }

  lemma {:induction false} SubPass1(s: seq<int>, p: nat, j: nat, m: nat)
    requires p > 0 && j < p
    ensures Sub(Pass1(s, p, m), p, j) == Pass1(Sub(s, p, j), 1, SubLen(m, p, j))
  {
    if m > 0 {
      var i := m - 1;
      SubPass1(s, p, j, i);
      SubLenStep(m, p, j);
      var t := Pass1(s, p, i);
      assert i + p * 0 == i && i + p * 1 == i + p;
      DivBasics(i, p);
      SubCE(t, p, j, i, i / p, 0, 1);
      if i % p == j {
        assert SubLen(i, p, j) / 1 == SubLen(i, p, j);
      }
    }
  }

  lemma {:induction false} SubChain(s: seq<int>, p: nat, j: nat, i: nat, k: nat, u: nat)
    requires p > 0 && j < p && k == i / p
    ensures Sub(Chain(s, p, i, u), p, j) ==
            if i % p == j then Chain(Sub(s, p, j), 1, k, u) else Sub(s, p, j)
    decreases u
  {
    hide Sub, CE, Chain;
    if u > 1 {
      ChainFirst(s, p, i, u);
      ChainFirst(Sub(s, p, j), 1, k, u);
      SubCE(s, p, j, i, k, 1, u);
      SubChain(CE(s, i + p * 1, i + p * u), p, j, i, k, u / 2);
    } else {
      ChainNone(s, p, i, u);
      ChainNone(Sub(s, p, j), 1, k, u);
    }
  }

  lemma {:induction false} SubPass2(s: seq<int>, p: nat, j: nat, u: nat, m: nat)
    requires p > 0 && j < p
    ensures Sub(Pass2(s, p, u, m), p, j) == Pass2(Sub(s, p, j), 1, u, SubLen(m, p, j))
  {
    if m > 0 {
      var i := m - 1;
      SubPass2(s, p, j, u, i);
      SubLenStep(m, p, j);
      DivBasics(i, p);
      SubChain(Pass2(s, p, u, i), p, j, i, i / p, u);
      if i % p == j {
        assert SubLen(i, p, j) / 1 == SubLen(i, p, j);
      }
    }
  }

  lemma {:induction false} SubMergePass(s: seq<int>, p: nat, j: nat, u: nat)
    requires p > 0 && j < p
    ensures Sub(MergePass(s, p, u), p, j) == MergePass(Sub(s, p, j), 1, u)
  {
    SubPass1(s, p, j, |s|);
    SubPass2(Pass1(s, p, |s|), p, j, u, |s|);
  }

  ghost predicate SortedAt(s: seq<int>, p: nat) {
    forall i :: 0 <= i && i + p < |s| ==> s[i] <= s[i + p]
  }

  lemma {:induction false} SortedAtOne(s: seq<int>, i: nat, j: nat)
    requires SortedAt(s, 1) && i <= j < |s|
    ensures s[i] <= s[j]
  {
    if i < j {
      SortedAtOne(s, i, j - 1);
      assert s[j - 1] <= s[j - 1 + 1];
    }
  }

  lemma {:induction false} ClassSorted(z: seq<int>, p: nat, j: nat, k: nat)
    requires p > 0 && SortedAt(z, 2 * p) && k + 2 < SubLen(|z|, p, j)
    ensures Sub(z, p, j)[k] <= Sub(z, p, j)[k + 2]
  {
    SubLenIn(|z|, p, j, k + 2);
    assert j + p * (k + 2) == (j + p * k) + 2 * p;
    MulLe(p, 0, k);
  }

  /** The pass with distance p turns sorted classes modulo 2p into sorted classes modulo p,
      for a sequence of any length up to twice the first distance of the network. */
  lemma {:induction false} MergeSorts(s: seq<int>, p: nat, x: nat)
    requires p > 0 && |s| <= p * (2 * Pow2(x))
    requires SortedAt(s, 2 * p)
    ensures SortedAt(MergePass(s, p, Pow2(x)), p)
  {
    var r := MergePass(s, p, Pow2(x));
    forall i | 0 <= i && i + p < |r|
      ensures r[i] <= r[i + p]
    {
      MergeSortsAt(s, p, x, i, r);
    }
  }

  lemma {:induction false} MergeSortsAt(s: seq<int>, p: nat, x: nat, i: nat, r: seq<int>)
    requires p > 0 && |s| <= p * (2 * Pow2(x))
    requires SortedAt(s, 2 * p)
    requires r == MergePass(s, p, Pow2(x)) && i + p < |r|
    ensures r[i] <= r[i + p]
  {
    var t := r[i + p];
    var z := Thr(s, t);
    DivBasics(i, p);
    var j: nat, k: nat := i % p, i / p;
    ShiftIndex(i, p, k, 1);
    SubLenIn(|s|, p, j, k + 1);
    SubLenIn(|s|, p, j, k);
    var w := Sub(Thr(r, t), p, j);
    assert Sorted(w) by {
      ThrMergePass(s, p, Pow2(x), t);
      ThrSortedAt(s, 2 * p, t);
      ClassMerges(z, p, x, j);
    }
    assert w[k] <= w[k + 1];
    assert w[k] == Thr(r, t)[j + p * k] == Above(r[i], t);
    assert w[k + 1] == Thr(r, t)[j + p * (k + 1)] == Above(r[i + p], t);
  }

  lemma ThrSortedAt(s: seq<int>, p: nat, t: int)
    requires SortedAt(s, p)
    ensures SortedAt(Thr(s, t), p) && ZeroOne(Thr(s, t))
  {
  }

  lemma {:induction false} ClassMerges(z: seq<int>, p: nat, x: nat, j: nat)
    requires j < p && |z| <= p * (2 * Pow2(x))
    requires SortedAt(z, 2 * p) && ZeroOne(z)
    ensures Sorted(Sub(MergePass(z, p, Pow2(x)), p, j))
  {
    var y := Sub(z, p, j);
    SubMergePass(z, p, j, Pow2(x));
    forall m | 0 <= m && m + 2 < |y|
      ensures y[m] <= y[m + 2]
    {
      ClassSorted(z, p, j, m);
    }
    SubLenIn(|z|, p, j, 2 * Pow2(x));
    forall m | 0 <= m < |y|
      ensures y[m] == 0 || y[m] == 1
    {
      SubLenIn(|z|, p, j, m);
    }
    MergeUnit(y, x);
  }
}
