/** The Benes network on 2^w positions: 2w-1 layers of conditional exchanges at distances
    1, 2, ..., 2^(w-1), ..., 2, 1, each consuming 2^(w-1) control bits. */
module Network {
  import opened Bits

  /** The position exchanged with x by the layer of distance 2^s. */
  function Partner(x: nat, s: nat): nat {
    if s == 0 then (if x % 2 == 0 then x + 1 else x - 1) else 2 * Partner(x / 2, s - 1) + x % 2
  }

  /** The number, inside its layer, of the control bit that decides about x. */
  function BitIndex(x: nat, s: nat): nat {
    if s == 0 then x / 2 else 2 * BitIndex(x / 2, s - 1) + x % 2
  }

  lemma IndexBound(x: nat, s: nat, w: nat)
    requires x < Pow2(w) && s < w
    ensures Partner(x, s) < Pow2(w)
    ensures BitIndex(x, s) < Pow2(w - 1)
  {
    if s > 0 {
      IndexBound(x / 2, s - 1, w - 1);
    }
  }

  lemma PartnerTwice(x: nat, s: nat)
    ensures Partner(Partner(x, s), s) == x
    ensures BitIndex(Partner(x, s), s) == BitIndex(x, s)
  {
    if s > 0 {
      PartnerTwice(x / 2, s - 1);
      assert Partner(x, s) / 2 == Partner(x / 2, s - 1);
    }
  }

  /** One layer of distance 2^s. */
  function LayerAt<T>(p: seq<T>, c: seq<bool>, s: nat, w: nat, x: nat): T
    requires s < w && |p| == Pow2(w) && |c| == Pow2(w - 1) && x < |p|
  {
    IndexBound(x, s, w);
    if c[BitIndex(x, s)] then p[Partner(x, s)] else p[x]
  }

  function Layer<T>(p: seq<T>, c: seq<bool>, s: nat, w: nat): (r: seq<T>)
    requires s < w && |p| == Pow2(w) && |c| == Pow2(w - 1)
    ensures |r| == |p|
  {
    seq(|p|, x requires 0 <= x < |p| => LayerAt(p, c, s, w, x))
  }

  /** The exponent of the distance of layer t. */
  function Stride(w: nat, t: nat): (s: nat)
    requires t < 2 * w - 1
    ensures s < w
  {
    if t < w then t else 2 * w - 2 - t
  }

  /** Control bits, layer by layer. */
  predicate IsControl(ls: seq<seq<bool>>, w: nat) {
    && w > 0
    && |ls| == 2 * w - 1
    && forall t :: 0 <= t < |ls| ==> |ls[t]| == Pow2(w - 1)
  }

  /** The first t layers of the network. */
  function Net<T>(p: seq<T>, ls: seq<seq<bool>>, w: nat, t: nat): (r: seq<T>)
    requires IsControl(ls, w) && |p| == Pow2(w) && t <= |ls|
    ensures |r| == |p|
  {
    if t == 0 then p else Layer(Net(p, ls, w, t - 1), ls[t - 1], Stride(w, t - 1), w)
  }

  function Benes<T>(p: seq<T>, ls: seq<seq<bool>>, w: nat): (r: seq<T>)
    requires IsControl(ls, w) && |p| == Pow2(w)
    ensures |r| == |p|
  {
    Net(p, ls, w, 2 * w - 1)
  }

  function Identity(n: nat): (r: seq<nat>)
    ensures |r| == n
  {
    seq(n, i requires 0 <= i < n => i)
  }

  /** Layers 0 to w-1 have distances 1, 2, ..., 2^(w-1), the others the same ones downwards from 2^(w-2). */
  lemma LayerOrder<T>(p: seq<T>, ls: seq<seq<bool>>, w: nat, t: nat)
    requires IsControl(ls, w) && |p| == Pow2(w) && t < 2 * w - 1
    ensures Net(p, ls, w, 0) == p && Benes(p, ls, w) == Net(p, ls, w, 2 * w - 1)
    ensures t < w ==> Net(p, ls, w, t + 1) == Layer(Net(p, ls, w, t), ls[t], t, w)
    ensures t >= w ==> Net(p, ls, w, t + 1) == Layer(Net(p, ls, w, t), ls[t], 2 * w - 2 - t, w)
  {
    hide Layer;
  }

  // ---------- a network moves positions, whatever is stored there ----------

  lemma LayerMoves<T, U>(p: seq<T>, q: seq<U>, c: seq<bool>, s: nat, w: nat, x: nat) returns (i: nat)
    requires s < w && |p| == |q| == Pow2(w) && |c| == Pow2(w - 1) && x < |p|
    ensures i < |p| && Layer(p, c, s, w)[x] == p[i] && Layer(q, c, s, w)[x] == q[i]
  {
    IndexBound(x, s, w);
    i := if c[BitIndex(x, s)] then Partner(x, s) else x;
    assert Layer(p, c, s, w)[x] == LayerAt(p, c, s, w, x);
    assert Layer(q, c, s, w)[x] == LayerAt(q, c, s, w, x);
  }

  lemma {:induction false} NetMoves<T>(p: seq<T>, ls: seq<seq<bool>>, w: nat, t: nat, x: nat)
    requires IsControl(ls, w) && |p| == Pow2(w) && t <= |ls| && x < |p|
    ensures var i := Net(Identity(|p|), ls, w, t)[x];
            i < |p| && Net(p, ls, w, t)[x] == p[i]
  {
    if t > 0 {
      var P, Q := Net(p, ls, w, t - 1), Net(Identity(|p|), ls, w, t - 1);
      var i := LayerMoves(P, Q, ls[t - 1], Stride(w, t - 1), w, x);
      NetMoves(p, ls, w, t - 1, i);
      assert Net(Identity(|p|), ls, w, t)[x] == Q[i];
      assert Net(p, ls, w, t)[x] == P[i];
    }
  }

  /** Each layer undoes itself. */
  lemma {:induction false} LayerTwice<T>(p: seq<T>, c: seq<bool>, s: nat, w: nat)
    requires s < w && |p| == Pow2(w) && |c| == Pow2(w - 1)
    ensures Layer(Layer(p, c, s, w), c, s, w) == p
  {
    var q := Layer(p, c, s, w);
    forall x | 0 <= x < |p|
      ensures Layer(q, c, s, w)[x] == p[x]
    {
      IndexBound(x, s, w);
      PartnerTwice(x, s);
      assert q[x] == LayerAt(p, c, s, w, x);
      assert q[Partner(x, s)] == LayerAt(p, c, s, w, Partner(x, s));
      assert Layer(q, c, s, w)[x] == LayerAt(q, c, s, w, x);
    }
  }

  // ---------- the inner layers act on even and odd positions separately ----------

  /** The elements at even positions (e = 0) or at odd positions (e = 1). */
  function Half<T>(p: seq<T>, e: nat): (r: seq<T>)
    requires e < 2
    ensures |r| == |p| / 2
  {
    seq(|p| / 2, y requires 0 <= y < |p| / 2 => p[2 * y + e])
  }

  function Interleave<T>(a: seq<T>, b: seq<T>): (r: seq<T>)
    requires |a| == |b|
    ensures |r| == 2 * |a|
  {
    seq(2 * |a|, i requires 0 <= i < 2 * |a| => if i % 2 == 0 then a[i / 2] else b[i / 2])
  }

  lemma HalfInterleave<T>(a: seq<T>, b: seq<T>)
    requires |a| == |b|
    ensures Half(Interleave(a, b), 0) == a
    ensures Half(Interleave(a, b), 1) == b
  {
  }

  lemma IndexSplit(y: nat, e: nat, s: nat)
    requires s > 0 && e < 2
    ensures BitIndex(2 * y + e, s) == 2 * BitIndex(y, s - 1) + e && Partner(2 * y + e, s) == 2 * Partner(y, s - 1) + e
  {
    assert (2 * y + e) / 2 == y && (2 * y + e) % 2 == e;
  }

  lemma HalfAt<T>(p: seq<T>, w: nat, e: nat, y: nat)
    requires w > 0 && |p| == Pow2(w) && e < 2 && y < Pow2(w - 1)
    ensures |Half(p, e)| == Pow2(w - 1) && 2 * y + e < |p| && Half(p, e)[y] == p[2 * y + e]
  {
    assert Pow2(w) == 2 * Pow2(w - 1);
  }

  lemma LayerSplitAt<T>(p: seq<T>, c: seq<bool>, s: nat, w: nat, e: nat, y: nat)
    requires 0 < s < w && |p| == Pow2(w) && |c| == Pow2(w - 1) && e < 2 && y < Pow2(w - 1)
    ensures 2 * y + e < |p| && |Half(p, e)| == Pow2(w - 1) && |Half(c, e)| == Pow2(w - 2)
    ensures LayerAt(p, c, s, w, 2 * y + e) == LayerAt(Half(p, e), Half(c, e), s - 1, w - 1, y)
  {
    hide BitIndex, Partner, Half, Pow2;
    IndexBound(y, s - 1, w - 1);
    IndexSplit(y, e, s);
    HalfAt(c, w - 1, e, BitIndex(y, s - 1));
    HalfAt(p, w, e, Partner(y, s - 1));
    HalfAt(p, w, e, y);
  }

  lemma {:induction false} LayerSplit<T>(p: seq<T>, c: seq<bool>, s: nat, w: nat, e: nat)
    requires 0 < s < w && |p| == Pow2(w) && |c| == Pow2(w - 1) && e < 2
    ensures Half(Layer(p, c, s, w), e) == Layer(Half(p, e), Half(c, e), s - 1, w - 1)
  {
    var L, R := Half(Layer(p, c, s, w), e), Layer(Half(p, e), Half(c, e), s - 1, w - 1);
    forall y | 0 <= y < |L|
      ensures L[y] == R[y]
    {
      LayerSplitAt(p, c, s, w, e, y);
      assert L[y] == LayerAt(p, c, s, w, 2 * y + e);
      assert R[y] == LayerAt(Half(p, e), Half(c, e), s - 1, w - 1, y);
    }
  }

  /** The even or the odd control bits of layers 1 to 2w-3: those of one of the two inner networks. */
  function Inner(ls: seq<seq<bool>>, w: nat, e: nat): (r: seq<seq<bool>>)
    requires IsControl(ls, w) && w > 1 && e < 2
    ensures IsControl(r, w - 1)
  {
    seq(2 * w - 3, t requires 0 <= t < 2 * w - 3 => Half(ls[t + 1], e))
  }

  lemma {:induction false} NetSplit<T>(p: seq<T>, ls: seq<seq<bool>>, w: nat, t: nat, e: nat)
    requires IsControl(ls, w) && w > 1 && |p| == Pow2(w) && 1 <= t <= 2 * w - 2 && e < 2
    ensures Half(Net(p, ls, w, t), e) == Net(Half(Net(p, ls, w, 1), e), Inner(ls, w, e), w - 1, t - 1)
  {
    hide Layer, Half;
    if t > 1 {
      NetSplit(p, ls, w, t - 1, e);
      LayerSplit(Net(p, ls, w, t - 1), ls[t - 1], Stride(w, t - 1), w, e);
      assert Inner(ls, w, e)[t - 2] == Half(ls[t - 1], e);
    }
  }

  lemma {:induction false} InnerNetwork<T>(p: seq<T>, ls: seq<seq<bool>>, w: nat, e: nat)
    requires IsControl(ls, w) && w > 1 && |p| == Pow2(w) && e < 2
    ensures Half(Net(p, ls, w, 2 * w - 2), e) == Benes(Half(Net(p, ls, w, 1), e), Inner(ls, w, e), w - 1)
  {
    NetSplit(p, ls, w, 2 * w - 2, e);
  }

  lemma {:induction false} BenesMoves<T>(p: seq<T>, ls: seq<seq<bool>>, w: nat, y: nat)
    requires IsControl(ls, w) && |p| == Pow2(w) && y < |p|
    ensures var i := Benes(Identity(|p|), ls, w)[y]; i < |p| && Benes(p, ls, w)[y] == p[i]
  {
    NetMoves(p, ls, w, 2 * w - 1, y);
  }
}
