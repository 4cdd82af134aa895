/** The Nassimi-Sahni control bits of a permutation, as a function, and the theorem that the Benes
    network set with these bits realizes the permutation. */
module ControlBits {
  import opened Bits
  import opened Permutation
  import opened Network

  /** What the control bits need from the cycle minima c: partners have partner minima,
      and c is constant along pibar, which sends pi(x) ^ 1 to pi(x ^ 1). */
  ghost predicate SplitAt(pi: seq<nat>, c: seq<nat>, x: nat)
    requires IsPerm(pi) && |c| == |pi|
  {
    x < |pi| && X(x) < |pi| ==>
      c[X(x)] == X(c[x]) && X(pi[x]) < |pi| && c[pi[X(x)]] == c[X(pi[x])]
  }

  ghost predicate Splits(pi: seq<nat>, c: seq<nat>) {
    && IsPerm(pi)
    && |pi| % 2 == 0
    && |c| == |pi|
    && forall x :: 0 <= x < |pi| ==> SplitAt(pi, c, x)
  }

  /** The cycle minima of pibar. */
  ghost function CycleMins(pi: seq<nat>): (c: seq<nat>)
    requires IsPerm(pi) && |pi| % 2 == 0
    ensures |c| == |pi|
  {
    PiBarMirrored(pi);
    seq(|pi|, x requires 0 <= x < |pi| => CycleMin(PiBar(pi), x))
  }

  lemma CycleMinsSplitAt(pi: seq<nat>, x: nat)
    requires IsPerm(pi) && |pi| % 2 == 0 && x < |pi|
    ensures SplitAt(pi, CycleMins(pi), x)
  {
    var q, c := PiBar(pi), CycleMins(pi);
    PiBarMirrored(pi);
    XBound(x, |pi|);
    CycleMinMirror(q, x);
    assert c[X(x)] == X(c[x]);
    PiBarAt(pi, x);
    CycleMinStep(q, X(pi[x]));
  }

  lemma {:induction false} CycleMinsSplit(pi: seq<nat>)
    requires IsPerm(pi) && |pi| % 2 == 0
    ensures Splits(pi, CycleMins(pi))
  {
    forall x | 0 <= x < |pi|
      ensures SplitAt(pi, CycleMins(pi), x)
    {
      CycleMinsSplitAt(pi, x);
    }
  }

  /** F exchanges the pair of x when the cycle minimum of its even member is odd. */
  function F(c: seq<nat>, x: nat): (y: nat)
    requires |c| % 2 == 0 && x < |c|
    ensures y < |c|
  {
    XBound(x, |c|);
    if c[x - x % 2] % 2 == 1 then X(x) else x
  }

  /** L exchanges the pair of y when F(pi(y)) is odd for its even member. */
  ghost function L(pi: seq<nat>, c: seq<nat>, y: nat): (z: nat)
    requires IsPerm(pi) && |c| == |pi| && |pi| % 2 == 0 && y < |pi|
    ensures z < |pi|
  {
    XBound(y, |pi|);
    if F(c, pi[y - y % 2]) % 2 == 1 then X(y) else y
  }

  /** The middle permutation F o pi o L. */
  ghost function M(pi: seq<nat>, c: seq<nat>, y: nat): (z: nat)
    requires IsPerm(pi) && |c| == |pi| && |pi| % 2 == 0 && y < |pi|
    ensures z < |pi|
  {
    F(c, pi[L(pi, c, y)])
  }

  // ---------- the parity split ----------

  lemma XFacts(x: nat)
    ensures X(X(x)) == x && X(x) - X(x) % 2 == x - x % 2 && X(x) % 2 != x % 2
    ensures x % 2 == 0 ==> X(x) == x + 1
  {
  }

  lemma FTwice(c: seq<nat>, x: nat)
    requires |c| % 2 == 0 && x < |c|
    ensures F(c, F(c, x)) == x
  {
    XFacts(x);
  }

  lemma LTwice(pi: seq<nat>, c: seq<nat>, y: nat)
    requires IsPerm(pi) && |c| == |pi| && |pi| % 2 == 0 && y < |pi|
    ensures L(pi, c, L(pi, c, y)) == y
  {
    XFacts(y);
  }

  /** F(x) has the parity of the cycle minimum of x. */
  lemma {:induction false} FParity(pi: seq<nat>, c: seq<nat>, x: nat)
    requires Splits(pi, c) && x < |pi|
    ensures F(c, x) % 2 == c[x] % 2
  {
    XFacts(x);
    if x % 2 == 1 {
      assert SplitAt(pi, c, x);
      XFacts(c[x]);
    }
  }

  /** The two members of a pair are sent by F o pi to values of different parity. */
  lemma {:induction false} PairParity(pi: seq<nat>, c: seq<nat>, y: nat)
    requires Splits(pi, c) && y < |pi|
    ensures X(y) < |pi| && F(c, pi[X(y)]) % 2 != F(c, pi[y]) % 2
  {
    XBound(y, |pi|);
    assert SplitAt(pi, c, y);
    assert SplitAt(pi, c, pi[y]);
    XFacts(c[pi[y]]);
    FParity(pi, c, pi[y]);
    FParity(pi, c, pi[X(y)]);
  }

  /** The middle permutation keeps parity. */
  lemma {:induction false} MKeepsParity(pi: seq<nat>, c: seq<nat>, y: nat)
    requires Splits(pi, c) && y < |pi|
    ensures M(pi, c, y) % 2 == y % 2
  {
    var e := y - y % 2;
    PairParity(pi, c, e);
    XFacts(e);
    XFacts(y);
  }

  lemma {:induction false} MInjective(pi: seq<nat>, c: seq<nat>, y: nat, z: nat)
    requires IsPerm(pi) && |c| == |pi| && |pi| % 2 == 0 && y < |pi| && z < |pi| && M(pi, c, y) == M(pi, c, z)
    ensures y == z
  {
    var a, b := L(pi, c, y), L(pi, c, z);
    FTwice(c, pi[a]);
    FTwice(c, pi[b]);
    assert a == b;
    LTwice(pi, c, y);
    LTwice(pi, c, z);
  }

  /** The permutation of {0..n/2-1} that M induces on the even (e = 0) or odd (e = 1) positions. */
  ghost function MHalf(pi: seq<nat>, c: seq<nat>, e: nat): (r: seq<nat>)
    requires IsPerm(pi) && |c| == |pi| && |pi| % 2 == 0 && e < 2
    ensures |r| == |pi| / 2
  {
    seq(|pi| / 2, y requires 0 <= y < |pi| / 2 => M(pi, c, 2 * y + e) / 2)
  }

  lemma MHalfValue(pi: seq<nat>, c: seq<nat>, e: nat, y: nat)
    requires Splits(pi, c) && e < 2 && y < |pi| / 2
    ensures MHalf(pi, c, e)[y] < |pi| / 2
    ensures M(pi, c, 2 * y + e) == 2 * MHalf(pi, c, e)[y] + e
  {
    hide M, SplitAt, IsPerm;
    MKeepsParity(pi, c, 2 * y + e);
    var m := M(pi, c, 2 * y + e);
    assert MHalf(pi, c, e)[y] == m / 2;
  }

  lemma SplitsSizes(pi: seq<nat>, c: seq<nat>)
    requires Splits(pi, c)
    ensures IsPerm(pi) && |c| == |pi| && |pi| % 2 == 0
  {
  }

  lemma {:induction false} MHalfPerm(pi: seq<nat>, c: seq<nat>, e: nat)
    requires Splits(pi, c) && e < 2
    ensures IsPerm(MHalf(pi, c, e))
  {
    hide M, SplitAt, MHalf;
    SplitsSizes(pi, c);
    var r := MHalf(pi, c, e);
    forall y | 0 <= y < |r|
      ensures r[y] < |r|
    {
      MHalfValue(pi, c, e, y);
    }
    forall y, z | 0 <= y < z < |r|
      ensures r[y] != r[z]
    {
      MHalfValue(pi, c, e, y);
      MHalfValue(pi, c, e, z);
      if r[y] == r[z] {
        MInjective(pi, c, 2 * y + e, 2 * z + e);
      }
    }
  }

  // ---------- the control bits ----------

  /** f[j] = c[2j] & 1. */
  function FBits(c: seq<nat>): (r: seq<bool>)
    requires |c| % 2 == 0
    ensures |r| == |c| / 2
  {
    seq(|c| / 2, j requires 0 <= j < |c| / 2 => c[2 * j] % 2 == 1)
  }

  /** l[k] = F(pi(2k)) & 1. */
  ghost function LBits(pi: seq<nat>, c: seq<nat>): (r: seq<bool>)
    requires IsPerm(pi) && |c| == |pi| && |pi| % 2 == 0
    ensures |r| == |pi| / 2
  {
    seq(|pi| / 2, k requires 0 <= k < |pi| / 2 => F(c, pi[2 * k]) % 2 == 1)
  }

  function Middle(a: seq<seq<bool>>, b: seq<seq<bool>>): (r: seq<seq<bool>>)
    requires |a| == |b|
    requires forall t :: 0 <= t < |a| ==> |a[t]| == |b[t]|
    ensures |r| == |a|
    ensures forall t :: 0 <= t < |r| ==> r[t] == Interleave(a[t], b[t])
  {
    seq(|a|, t requires 0 <= t < |a| => Interleave(a[t], b[t]))
  }

  function Assemble(f: seq<bool>, a: seq<seq<bool>>, b: seq<seq<bool>>, l: seq<bool>, w: nat): (ls: seq<seq<bool>>)
    requires w > 1 && |f| == |l| == Pow2(w - 1) && IsControl(a, w - 1) && IsControl(b, w - 1)
    ensures IsControl(ls, w)
  {
    [f] + Middle(a, b) + [l]
  }

  /** The control bits of a permutation of 2^w elements. */
  ghost function Control(pi: seq<nat>, w: nat): (ls: seq<seq<bool>>)
    requires IsPerm(pi) && w > 0 && |pi| == Pow2(w)
    ensures IsControl(ls, w)
    decreases w
  {
    if w == 1 then [[pi[0] == 1]]
    else
      var c := CycleMins(pi);
      CycleMinsSplit(pi);
      MHalfPerm(pi, c, 0);
      MHalfPerm(pi, c, 1);
      Assemble(FBits(c), Control(MHalf(pi, c, 0), w - 1), Control(MHalf(pi, c, 1), w - 1), LBits(pi, c), w)
  }

  lemma AssembleInner(f: seq<bool>, a: seq<seq<bool>>, b: seq<seq<bool>>, l: seq<bool>, w: nat)
    requires w > 1 && |f| == |l| == Pow2(w - 1) && IsControl(a, w - 1) && IsControl(b, w - 1)
    ensures Inner(Assemble(f, a, b, l, w), w, 0) == a && Inner(Assemble(f, a, b, l, w), w, 1) == b
  {
    var ls := Assemble(f, a, b, l, w);
    forall t | 0 <= t < 2 * w - 3
      ensures Inner(ls, w, 0)[t] == a[t] && Inner(ls, w, 1)[t] == b[t]
    {
      assert ls[t + 1] == Middle(a, b)[t];
      HalfInterleave(a[t], b[t]);
    }
  }

  /** The first layer moves F(x) to x. */
  lemma FirstLayer(ls: seq<seq<bool>>, c: seq<nat>, w: nat, x: nat)
    requires IsControl(ls, w) && w > 1 && |c| == Pow2(w) && ls[0] == FBits(c) && x < |c|
    ensures Net(Identity(|c|), ls, w, 1)[x] == F(c, x)
  {
    var d := Identity(|c|);
    assert Net(d, ls, w, 0) == d;
    IndexBound(x, 0, w);
    assert Net(d, ls, w, 1)[x] == LayerAt(d, ls[0], 0, w, x);
    assert x - x % 2 == 2 * (x / 2);
  }

  /** A layer of distance 1 with bits l moves L(x) to x. */
  lemma LastLayer(p: seq<nat>, pi: seq<nat>, c: seq<nat>, w: nat, x: nat)
    requires IsPerm(pi) && |c| == |pi| == |p| == Pow2(w) && w > 0 && x < |pi|
    ensures Layer(p, LBits(pi, c), 0, w)[x] == p[L(pi, c, x)]
  {
    IndexBound(x, 0, w);
    assert Layer(p, LBits(pi, c), 0, w)[x] == LayerAt(p, LBits(pi, c), 0, w, x);
    assert x - x % 2 == 2 * (x / 2);
  }

  /** When the inner network realizes m on one half, it moves position 2m[y]+e to 2y+e. */
  lemma {:induction false} HalfMoves(p: seq<nat>, q: seq<nat>, ls: seq<seq<bool>>, w: nat, e: nat, m: seq<nat>, y: nat)
    requires IsControl(ls, w) && |p| == |q| == 2 * Pow2(w) && e < 2 && y < |m|
    requires Half(q, e) == Benes(Half(p, e), ls, w)
    requires Benes(Identity(Pow2(w)), ls, w) == m
    ensures m[y] < Pow2(w) && q[2 * y + e] == p[2 * m[y] + e]
  {
    BenesMoves(Half(p, e), ls, w, y);
    assert Half(q, e)[y] == q[2 * y + e];
  }

  /** Layers 1 to 2w-3 move position M(z) to z. */
  lemma {:induction false} MiddlePosition(pi: seq<nat>, c: seq<nat>, w: nat, p: seq<nat>, q: seq<nat>,
                                          a: seq<seq<bool>>, b: seq<seq<bool>>, z: nat)
    requires Splits(pi, c) && w > 1 && |pi| == |p| == |q| == Pow2(w) && z < |pi|
    requires IsControl(a, w - 1) && IsControl(b, w - 1)
    requires Benes(Identity(Pow2(w - 1)), a, w - 1) == MHalf(pi, c, 0)
    requires Benes(Identity(Pow2(w - 1)), b, w - 1) == MHalf(pi, c, 1)
    requires Half(q, 0) == Benes(Half(p, 0), a, w - 1) && Half(q, 1) == Benes(Half(p, 1), b, w - 1)
    ensures q[z] == p[M(pi, c, z)]
  {
    hide Benes, IsControl, M, SplitAt, Pow2;
    var y, e := z / 2, z % 2;
    assert z == 2 * y + e;
    if e == 0 {
      HalfMoves(p, q, a, w - 1, e, MHalf(pi, c, e), y);
    } else {
      HalfMoves(p, q, b, w - 1, e, MHalf(pi, c, e), y);
    }
    MHalfValue(pi, c, e, y);
  }

  /** pi = F o M o L. */
  lemma {:induction false} Recomposes(pi: seq<nat>, c: seq<nat>, x: nat)
    requires IsPerm(pi) && |c| == |pi| && |pi| % 2 == 0 && x < |pi|
    ensures F(c, M(pi, c, L(pi, c, x))) == pi[x]
  {
    LTwice(pi, c, x);
    FTwice(c, pi[x]);
  }

  /** When the two inner networks realize the halves of M, the network realizes pi. */
  lemma {:induction false} RealizesAt(pi: seq<nat>, c: seq<nat>, w: nat, a: seq<seq<bool>>, b: seq<seq<bool>>, x: nat)
    requires Splits(pi, c) && w > 1 && |pi| == Pow2(w) && x < |pi|
    requires IsControl(a, w - 1) && IsControl(b, w - 1)
    requires Benes(Identity(Pow2(w - 1)), a, w - 1) == MHalf(pi, c, 0)
    requires Benes(Identity(Pow2(w - 1)), b, w - 1) == MHalf(pi, c, 1)
    ensures Benes(Identity(|pi|), Assemble(FBits(c), a, b, LBits(pi, c), w), w)[x] == pi[x]
  {
    var ls, d := Assemble(FBits(c), a, b, LBits(pi, c), w), Identity(|pi|);
    var p, q := Net(d, ls, w, 1), Net(d, ls, w, 2 * w - 2);
    var z := L(pi, c, x);
    assert Benes(d, ls, w)[x] == q[z] by {
      assert ls[2 * w - 2] == LBits(pi, c);
      LastLayer(q, pi, c, w, x);
    }
    assert q[z] == p[M(pi, c, z)] by {
      AssembleInner(FBits(c), a, b, LBits(pi, c), w);
      InnerNetwork(d, ls, w, 0);
      InnerNetwork(d, ls, w, 1);
      MiddlePosition(pi, c, w, p, q, a, b, z);
    }
    FirstLayer(ls, c, w, M(pi, c, z));
    Recomposes(pi, c, x);
  }

  lemma {:induction false} RealizesFromHalves(pi: seq<nat>, c: seq<nat>, w: nat, a: seq<seq<bool>>, b: seq<seq<bool>>)
    requires Splits(pi, c) && w > 1 && |pi| == Pow2(w)
    requires IsControl(a, w - 1) && IsControl(b, w - 1)
    requires Benes(Identity(Pow2(w - 1)), a, w - 1) == MHalf(pi, c, 0)
    requires Benes(Identity(Pow2(w - 1)), b, w - 1) == MHalf(pi, c, 1)
    ensures Benes(Identity(|pi|), Assemble(FBits(c), a, b, LBits(pi, c), w), w) == pi
  {
    forall x | 0 <= x < |pi|
      ensures Benes(Identity(|pi|), Assemble(FBits(c), a, b, LBits(pi, c), w), w)[x] == pi[x]
    {
      RealizesAt(pi, c, w, a, b, x);
    }
  }

  lemma ControlUnfold(pi: seq<nat>, w: nat)
    requires IsPerm(pi) && w > 1 && |pi| == Pow2(w)
    ensures Splits(pi, CycleMins(pi)) && IsPerm(MHalf(pi, CycleMins(pi), 0)) && IsPerm(MHalf(pi, CycleMins(pi), 1))
    ensures Control(pi, w) ==
            var c := CycleMins(pi);
            Assemble(FBits(c), Control(MHalf(pi, c, 0), w - 1), Control(MHalf(pi, c, 1), w - 1), LBits(pi, c), w)
  {
    CycleMinsSplit(pi);
    MHalfPerm(pi, CycleMins(pi), 0);
    MHalfPerm(pi, CycleMins(pi), 1);
  }

  /** For every w and every permutation of 2^w elements, the network set with the control bits of the
      permutation, started from the identity, yields exactly the permutation. */
  lemma {:induction false} NetworkRealizes(pi: seq<nat>, w: nat)
    requires IsPerm(pi) && w > 0 && |pi| == Pow2(w)
    ensures Benes(Identity(|pi|), Control(pi, w), w) == pi
    decreases w
  {
    hide Benes, Control, CycleMins, Assemble, IsPerm, MHalf, Splits, Pow2;
    HalfPower(w);
    if w == 1 {
      RealizesPair(pi);
    } else {
      var c := CycleMins(pi);
      ControlUnfold(pi, w);
      var p, q := MHalf(pi, c, 0), MHalf(pi, c, 1);
      NetworkRealizes(p, w - 1);
      NetworkRealizes(q, w - 1);
      RealizesFromHalves(pi, c, w, Control(p, w - 1), Control(q, w - 1));
    }
  }

  lemma HalfPower(w: nat)
    requires w > 0
    ensures Pow2(w) == 2 * Pow2(w - 1) && (w == 1 ==> Pow2(w) == 2)
  {
  }

  lemma RealizesPair(pi: seq<nat>)
    requires IsPerm(pi) && |pi| == 2
    ensures Pow2(1) == 2 && Benes(Identity(2), Control(pi, 1), 1) == pi
  {
    var d, ls := Identity(2), Control(pi, 1);
    assert Pow2(1) == 2;
    assert pi[0] < 2 && pi[1] < 2 && pi[0] != pi[1];
    assert Net(d, ls, 1, 0) == d;
    assert Net(d, ls, 1, 1)[0] == LayerAt(d, ls[0], 0, 1, 0);
    assert Net(d, ls, 1, 1)[1] == LayerAt(d, ls[0], 0, 1, 1);
  }
}
