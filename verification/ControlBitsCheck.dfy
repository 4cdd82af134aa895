/** controlbits.c: layer on an int16 array, and controlbitsfrompermutation with its self-check. */
module ControlBitsCheck {
  import opened Bits
  import opened Permutation
  import opened Network
  import opened PairLoop
  import opened OutBits
  import opened ControlBits
  import CbRecursion

  // ---------- layer ----------

  /** The h control bits that start at byte base. */
  ghost function BitsFrom(cb: seq<int>, base: nat, h: nat): (r: seq<bool>)
    requires Bytes(cb) && 8 * base + h <= 8 * |cb|
    ensures |r| == h
  {
    seq(h, k requires 0 <= k < h => OutBit(cb, 8 * base + k))
  }

  ghost predicate Int16s(s: seq<int>) {
    forall i :: 0 <= i < |s| ==> 0 <= s[i] < 0x1_0000
  }

  /** The masked exclusive-or exchange of two words. */
  lemma MaskedExchange(a: nat, b: nat, m: nat)
    requires a < 0x1_0000 && b < 0x1_0000 && m < 2
    ensures var d := And(Xor(a, b), if m == 1 then 0xFFFF else 0);
            Xor(a, d) == (if m == 1 then b else a) && Xor(b, d) == (if m == 1 then a else b)
  {
    Pow2Values();
    XorBound(a, b, 16);
    AndOnes(Xor(a, b), 16, 0xFFFF);
    AndZero(Xor(a, b));
    XorCancel(a, b);
    XorCancel(b, a);
    XorComm(a, b);
    XorZero(a);
    XorZero(b);
  }

  /** The two values of a pair after the layer. */
  lemma LayerPair(p: seq<int>, c: seq<bool>, s: nat, w: nat, x: nat, y: nat)
    requires s < w && |p| == Pow2(w) && |c| == Pow2(w - 1) && x < |p| && y < |p| && y == Partner(x, s)
    ensures BitIndex(x, s) < |c|
    ensures var r, t := Layer(p, c, s, w), c[BitIndex(x, s)];
            r[x] == (if t then p[y] else p[x]) && r[y] == if t then p[x] else p[y]
  {
    IndexBound(x, s, w);
    PartnerTwice(x, s);
    assert Layer(p, c, s, w)[x] == LayerAt(p, c, s, w, x);
    assert Layer(p, c, s, w)[y] == LayerAt(p, c, s, w, y);
  }

  /** (cb[index >> 3] >> (index & 7)) & 1, where cb points at byte base. */
  method ReadBit(cb: array<int>, base: nat, index: nat) returns (m: nat)
    requires Bytes(cb[..]) && base + index / 8 < cb.Length
    ensures m == B2N(OutBit(cb[..], 8 * base + index))
  {
    hide Bit, Pow2;
    var b: nat := cb[base + index / 8];
    BitIsShift(b, index % 8);
    DivBasics(b, Pow2(index % 8));
    assert (8 * base + index) / 8 == base + index / 8 && (8 * base + index) % 8 == index % 8;
    m := Shr(b, index % 8) % 2;
  }

  /** One exchange of the inner loop. */
  method ExchangePair(p: array<int>, cb: array<int>, base: nat, index: nat, x: nat, y: nat)
    requires p != cb && x < p.Length && y < p.Length && x != y && Int16s(p[..])
    requires Bytes(cb[..]) && base + index / 8 < cb.Length
    modifies p
    ensures var t := OutBit(cb[..], 8 * base + index);
            p[..] == old(p[..])[x := if t then old(p[..])[y] else old(p[..])[x]]
              [y := if t then old(p[..])[x] else old(p[..])[y]]
    ensures Int16s(p[..])
  {
    ghost var q := p[..];
    assert q[x] == p[x] && q[y] == p[y];
    var m := ReadBit(cb, base, index);
    var d := Xor(p[x], p[y]);
    d := And(d, if m == 1 then 0xFFFF else 0);
    MaskedExchange(p[x], p[y], m);
    p[x] := Xor(p[x], d);
    p[y] := Xor(p[y], d);
  }

  /** The inner loop: the pairs of the block that starts at i = 2*v. */
  method LayerBlock(p: array<int>, cb: array<int>, base: nat, s: nat, stride: nat, i: nat, v: nat,
                    ghost b: nat, ghost w: nat, ghost q: seq<int>, ghost c: seq<bool>)
    returns (index: nat)
    requires p != cb && p.Length == Pow2(w) == |q| && s < w && Int16s(p[..]) && stride == Pow2(s)
    requires Bytes(cb[..]) && 8 * base + Pow2(w - 1) <= 8 * cb.Length && c == BitsFrom(cb[..], base, Pow2(w - 1))
    requires v == stride * b && i == 2 * v && v + stride <= Pow2(w - 1)
    requires PairsDone(p[..], q, Layer(q, c, s, w), s, v)
    modifies p
    ensures index == v + stride && PairsDone(p[..], q, Layer(q, c, s, w), s, index)
    ensures Int16s(p[..])
  {
    hide Layer, BitIndex, Partner, PairsDone, BitsFrom, Bytes, Int16s, Aligned;
    AlignedMultiple(b, s);
    ghost var r := Layer(q, c, s, w);
    index := v;
    var j := 0;
    while j < stride
      invariant j <= stride && index == v + j
      invariant PairsDone(p[..], q, r, s, index)
      invariant Int16s(p[..])
    {
      BlockIndex(v, j, s);
      BitsFromAt(cb[..], base, Pow2(w - 1), index);
      LayerPair(q, c, s, w, i + j, i + j + stride);
      PairsNext(p[..], q, r, s, index, i + j, i + j + stride);
      ExchangePair(p, cb, base, index, i + j, i + j + stride);
      index := index + 1;
      j := j + 1;
    }
  }

  /** layer: one layer of the network, in place. */
  method LayerInPlace(p: array<int>, cb: array<int>, base: nat, s: nat, n: nat, ghost w: nat)
    requires p != cb && p.Length == n == Pow2(w) && s < w && Int16s(p[..])
    requires Bytes(cb[..]) && 8 * base + Pow2(w - 1) <= 8 * cb.Length
    modifies p
    ensures p[..] == Layer(old(p[..]), BitsFrom(cb[..], base, Pow2(w - 1)), s, w)
    ensures Int16s(p[..])
  {
    hide Layer, BitIndex, Partner, PairsDone, BitsFrom, Bytes, Int16s;
    var stride := Pow2(s);
    ghost var nb := Pow2(w - 1 - s);
    Pow2Add(s, w - 1 - s);
    ghost var q, c := p[..], BitsFrom(cb[..], base, Pow2(w - 1));
    ghost var r := Layer(q, c, s, w);
    var index := 0;
    var i := 0;
    ghost var b := 0;
    PairsNone(q, r, s);
    while i < n
      invariant b <= nb && i == 2 * index && index == stride * b
      invariant PairsDone(p[..], q, r, s, index)
      invariant Int16s(p[..])
      decreases n - i
    {
      BlockBound(stride, b, nb);
      index := LayerBlock(p, cb, base, s, stride, i, index, b, w, q, c);
      i := i + stride * 2;
      b := b + 1;
    }
    BlockEnd(stride, b, nb);
    PairsAll(p[..], q, r, s, w);
  }

  lemma BitsFromAt(cb: seq<int>, base: nat, h: nat, k: nat)
    requires Bytes(cb) && 8 * base + h <= 8 * |cb| && k < h
    ensures BitsFrom(cb, base, h)[k] == OutBit(cb, 8 * base + k)
    ensures base + k / 8 < |cb|
  {
  }

  // ---------- controlbitsfrompermutation ----------

  /** The bytes that the source clears and fills. */
  function OutSize(w: nat): int
    requires w > 0
  {
    ((2 * w - 1) * (Pow2(w) / 2) + 7) / 8
  }

  /** The least number of whole bytes that hold (2w-1) * 2^(w-1) bits. */
  lemma OutSizeIs(w: nat)
    requires w > 0
    ensures 8 * OutSize(w) - 8 < (2 * w - 1) * Pow2(w - 1) <= 8 * OutSize(w)
  {
    assert Pow2(w) / 2 == Pow2(w - 1);
  }

  lemma LayerStart(w: nat, t: nat, size: nat)
    requires w > 0 && t < 2 * w - 1 && size >= OutSize(w)
    ensures 0 <= t * (Pow2(w) / 16) && 8 * (t * (Pow2(w) / 16)) + Pow2(w - 1) <= 8 * size
    ensures (2 * w - 1) * Pow2(w - 1) <= 8 * size
    ensures w >= 4 ==> 8 * (t * (Pow2(w) / 16)) == t * Pow2(w - 1)
  {
    hide Pow2;
    var h, g := Pow2(w - 1), Pow2(w) / 16;
    SixteenthOf(w);
    MulLe(g, 0, t);
    MulLe(t, 8 * g, h);
    EightSecond(t, g);
    NextMultiple(t, h);
    MulLe(h, t + 1, 2 * w - 1);
  }

  lemma EightSecond(t: nat, g: nat)
    ensures t * (8 * g) == 8 * (t * g)
  {
  }

  lemma NextMultiple(t: nat, h: nat)
    ensures (t + 1) * h == t * h + h
  {
  }

  lemma SixteenthOf(w: nat)
    requires w > 0
    ensures Pow2(w) == 2 * Pow2(w - 1) && 0 <= 8 * (Pow2(w) / 16) <= Pow2(w - 1)
    ensures w >= 4 ==> 8 * (Pow2(w) / 16) == Pow2(w - 1)
  {
    var h := Pow2(w - 1);
    assert Pow2(w) == 2 * h;
    EighthOf(h);
    if w >= 4 {
      SmallPowers();
      Pow2Add(3, w - 4);
      EighthExact(Pow2(w - 4), h);
    }
  }

  lemma EighthOf(h: nat)
    ensures 0 <= 8 * (2 * h / 16) <= h
  {
  }

  lemma EighthExact(g: nat, h: nat)
    requires h == 8 * g
    ensures 8 * (2 * h / 16) == h
  {
  }

  /** The layers that the self-check reads: ptr advances by n >> 4 bytes from layer to layer. */
  ghost function CheckLayers(out: seq<int>, w: nat): (ls: seq<seq<bool>>)
    requires w > 0 && Bytes(out) && |out| >= OutSize(w)
    ensures IsControl(ls, w)
  {
    seq(2 * w - 1, t requires 0 <= t < 2 * w - 1 =>
      (LayerStart(w, t, |out|); BitsFrom(out, t * (Pow2(w) / 16), Pow2(w - 1))))
  }

  /** Bit i of the layer that the self-check reads in round t. */
  lemma CheckLayersAt(out: seq<int>, w: nat, t: nat, i: nat)
    requires w > 0 && Bytes(out) && |out| >= OutSize(w) && t < 2 * w - 1 && i < Pow2(w - 1)
    ensures var P := 8 * (t * (Pow2(w) / 16)) + i;
            0 <= P < 8 * |out| && CheckLayers(out, w)[t][i] == OutBit(out, P)
  {
    hide OutSize, Bit;
    LayerStart(w, t, |out|);
  }

  /** The bit string holds the control bits of p, layer after layer. */
  ghost predicate Holds(out: seq<int>, p: seq<nat>, w: nat) {
    && w > 0 && IsPerm(p) && |p| == Pow2(w)
    && Bytes(out) && |out| >= OutSize(w)
    && forall t, i :: 0 <= t < 2 * w - 1 && 0 <= i < Pow2(w - 1) ==> HeldAt(out, Control(p, w), w, t, i)
  }

  ghost predicate HeldAt(out: seq<int>, ls: seq<seq<bool>>, w: nat, t: nat, i: nat)
    requires IsControl(ls, w) && Bytes(out) && |out| >= OutSize(w) && t < 2 * w - 1 && i < Pow2(w - 1)
  {
    MulLe(Pow2(w - 1), 0, t);
    && t * Pow2(w - 1) + i < 8 * |out|
    && OutBit(out, t * Pow2(w - 1) + i) == ls[t][i]
  }

  /** The condition under which the while (1) loop of controlbitsfrompermutation ends. */
  ghost predicate CheckPasses(out: seq<int>, p: seq<nat>, w: nat)
    requires Holds(out, p, w)
  {
    Benes(Identity(|p|), CheckLayers(out, w), w) == p
  }

  lemma {:induction false} TogglesHold(zero: seq<int>, out: seq<int>, p: seq<nat>, w: nat)
    requires w > 0 && IsPerm(p) && |p| == Pow2(w) && |out| >= OutSize(w)
    requires Toggled(zero, out, Flat(Control(p, w)), 0, 1)
    requires forall i :: 0 <= i < OutSize(w) ==> zero[i] == 0
    ensures Holds(out, p, w)
  {
    forall t, i | 0 <= t < 2 * w - 1 && 0 <= i < Pow2(w - 1)
      ensures HeldAt(out, Control(p, w), w, t, i)
    {
      ToggleHeld(zero, out, Control(p, w), w, t, i);
    }
  }

  lemma ToggleHeld(zero: seq<int>, out: seq<int>, ls: seq<seq<bool>>, w: nat, t: nat, i: nat)
    requires IsControl(ls, w) && |out| >= OutSize(w) && t < 2 * w - 1 && i < Pow2(w - 1)
    requires Toggled(zero, out, Flat(ls), 0, 1)
    requires forall i :: 0 <= i < OutSize(w) ==> zero[i] == 0
    ensures HeldAt(out, ls, w, t, i)
  {
    hide Prog, Index;
    FlatAt(ls, Pow2(w - 1), t, i);
    LayerStart(w, t, |out|);
    var P := t * Pow2(w - 1) + i;
    ProgUnit(Flat(ls), P);
    BitZero(P % 8);
    assert P / 8 < OutSize(w);
    assert OutBit(out, P) == (OutBit(zero, P) != Prog(Flat(ls), 0, 1, P));
  }

  lemma ProgUnit(bits: seq<bool>, P: nat)
    ensures Prog(bits, 0, 1, P) == (P < |bits| && bits[P])
  {
  }

  /** For w >= 4, and for w = 1, the self-check reads exactly the layers that cbrecursion wrote. */
  lemma {:induction false} CheckReadsControl(out: seq<int>, p: seq<nat>, w: nat)
    requires Holds(out, p, w) && w != 2 && w != 3
    ensures CheckLayers(out, w) == Control(p, w)
  {
    hide Control, BitsFrom, HeldAt, OutSize;
    var ls := Control(p, w);
    forall t | 0 <= t < 2 * w - 1
      ensures CheckLayers(out, w)[t] == ls[t]
    {
      LayerStart(w, t, |out|);
      forall i | 0 <= i < Pow2(w - 1)
        ensures CheckLayers(out, w)[t][i] == ls[t][i]
      {
        assert HeldAt(out, ls, w, t, i);
        HeldBit(out, ls, w, t, i);
      }
    }
  }

  lemma HeldBit(out: seq<int>, ls: seq<seq<bool>>, w: nat, t: nat, i: nat)
    requires IsControl(ls, w) && Bytes(out) && |out| >= OutSize(w) && t < 2 * w - 1 && i < Pow2(w - 1)
    requires HeldAt(out, ls, w, t, i) && (w >= 4 || t == 0)
    ensures 0 <= t * (Pow2(w) / 16) && 8 * (t * (Pow2(w) / 16)) + Pow2(w - 1) <= 8 * |out|
    ensures BitsFrom(out, t * (Pow2(w) / 16), Pow2(w - 1))[i] == ls[t][i]
  {
    LayerStart(w, t, |out|);
  }

  /** The loop of controlbitsfrompermutation ends after its first round, for every permutation. */
  lemma {:induction false} CheckAlwaysPasses(out: seq<int>, p: seq<nat>, w: nat)
    requires Holds(out, p, w) && w != 2 && w != 3
    ensures CheckPasses(out, p, w)
  {
    CheckReadsControl(out, p, w);
    NetworkRealizes(p, w);
  }

  // ---------- for w = 2 and w = 3 the self-check reads the first layer over and over ----------

  /** The network whose layers all use the bits of the first one. */
  ghost function FirstRepeated(p: seq<nat>, w: nat): (ls: seq<seq<bool>>)
    requires w > 0 && IsPerm(p) && |p| == Pow2(w)
    ensures IsControl(ls, w)
  {
    var c := Control(p, w)[0];
    seq(2 * w - 1, t requires 0 <= t < 2 * w - 1 => c)
  }

  lemma {:induction false} CheckReadsFirst(out: seq<int>, p: seq<nat>, w: nat)
    requires Holds(out, p, w) && (w == 2 || w == 3)
    ensures CheckLayers(out, w) == FirstRepeated(p, w)
  {
    hide Control, BitsFrom, HeldAt, OutSize;
    SmallSizes(w);
    var ls := Control(p, w);
    forall t, i | 0 <= t < 2 * w - 1 && 0 <= i < Pow2(w - 1)
      ensures CheckLayers(out, w)[t][i] == ls[0][i]
    {
      assert t * 0 == 0;
      assert HeldAt(out, ls, w, 0, i);
      HeldBit(out, ls, w, 0, i);
    }
    forall t | 0 <= t < 2 * w - 1
      ensures CheckLayers(out, w)[t] == FirstRepeated(p, w)[t]
    {
    }
  }

  /** The loop ends, and then after one round, exactly for these permutations: all of them unless w is 2 or 3, and in
      that case those which the network realises when every layer uses the bits of the first. */
  lemma {:induction false} PassesIff(out: seq<int>, p: seq<nat>, w: nat)
    requires Holds(out, p, w)
    ensures CheckPasses(out, p, w) <==> (w == 2 || w == 3 ==> Benes(Identity(|p|), FirstRepeated(p, w), w) == p)
  {
    hide Benes, CheckLayers, FirstRepeated, HeldAt;
    if w == 2 || w == 3 {
      CheckReadsFirst(out, p, w);
    } else {
      CheckAlwaysPasses(out, p, w);
    }
  }

  /** Exchanges the first two pairs. */
  function SwapPairs(n: nat): (p: seq<nat>)
    requires n >= 4
    ensures |p| == n
  {
    [2, 3, 0, 1] + seq(n - 4, i requires 0 <= i < n - 4 => i + 4)
  }

  lemma SwapPairsAt(n: nat, x: nat)
    requires n >= 4 && n % 2 == 0 && x < n
    ensures X(x) < n && SwapPairs(n)[x] < n
    ensures SwapPairs(n)[X(x)] == X(SwapPairs(n)[x]) && SwapPairs(n)[SwapPairs(n)[x]] == x
  {
    XBound(x, n);
  }

  lemma SwapPairsPerm(n: nat)
    requires n >= 4 && n % 2 == 0
    ensures IsPerm(SwapPairs(n))
  {
    var p := SwapPairs(n);
    forall i, j | 0 <= i < j < n
      ensures p[i] != p[j]
    {
      SwapPairsAt(n, i);
      SwapPairsAt(n, j);
    }
    forall i | 0 <= i < n
      ensures p[i] < n
    {
      SwapPairsAt(n, i);
    }
  }

  ghost predicate KeepsPair(p: seq<nat>, x: nat) {
    x < |p| ==> X(x) < |p| && p[X(x)] == X(p[x])
  }

  lemma KeptPair(p: seq<nat>, y: nat)
    requires IsPerm(p) && |p| % 2 == 0 && y < |p|
    requires forall x :: 0 <= x < |p| ==> KeepsPair(p, x)
    ensures PiBar(p)[y] == y
  {
    XBound(y, |p|);
    var x := Permutation.IndexOf(p, X(y));
    PiBarAt(p, x);
    assert KeepsPair(p, x);
    assert X(X(y)) == y;
  }

  /** When p keeps pairs together, pibar is the identity and the first layer exchanges nothing. */
  lemma {:induction false} NoFirstLayer(p: seq<nat>, j: nat)
    requires IsPerm(p) && |p| % 2 == 0 && j < |p| / 2
    requires forall x :: 0 <= x < |p| ==> KeepsPair(p, x)
    ensures !FBits(CycleMins(p))[j]
  {
    hide KeepsPair;
    var q := PiBar(p);
    PiBarMirrored(p);
    KeptPair(p, 2 * j);
    var k := CycleMinTaken(q, 2 * j);
    FixedIter(q, k, 2 * j);
  }

  lemma FixedIter(q: seq<nat>, k: nat, x: nat)
    requires IsPerm(q) && x < |q| && q[x] == x
    ensures Iter(q, k, x) == x
  {
  }

  lemma {:induction false} EmptyNet(ls: seq<seq<bool>>, w: nat, t: nat, d: seq<nat>)
    requires IsControl(ls, w) && |d| == Pow2(w) && t <= |ls|
    requires forall t, i :: 0 <= t < |ls| && 0 <= i < Pow2(w - 1) ==> !ls[t][i]
    ensures Net(d, ls, w, t) == d
  {
    if t > 0 {
      EmptyNet(ls, w, t - 1, d);
      forall x | 0 <= x < |d|
        ensures LayerAt(d, ls[t - 1], Stride(w, t - 1), w, x) == d[x]
      {
        IndexBound(x, Stride(w, t - 1), w);
      }
    }
  }

  lemma SmallSizes(w: nat)
    requires w == 2 || w == 3
    ensures Pow2(w) == 4 || Pow2(w) == 8
    ensures Pow2(w) / 16 == 0 && Pow2(w - 1) == Pow2(w) / 2
  {
    assert Pow2(2) == 4 && Pow2(3) == 8;
  }

  /** For w = 2 and w = 3 the loop never ends on the permutation that exchanges the first two pairs. */
  lemma {:induction false} CheckFails(out: seq<int>, w: nat)
    requires w == 2 || w == 3
    requires Pow2(w) >= 4 && Holds(out, SwapPairs(Pow2(w)), w)
    ensures !CheckPasses(out, SwapPairs(Pow2(w)), w)
  {
    hide Control, BitsFrom, HeldAt, OutSize, FBits, CycleMins, SwapPairs;
    SmallSizes(w);
    var n := Pow2(w);
    var p, ls := SwapPairs(n), CheckLayers(out, w);
    forall x | 0 <= x < n
      ensures KeepsPair(p, x)
    {
      SwapPairsAt(n, x);
    }
    ControlUnfold(p, w);
    forall t, i | 0 <= t < |ls| && 0 <= i < Pow2(w - 1)
      ensures !ls[t][i]
    {
      NoFirstLayer(p, i);
      assert t * 0 == 0;
      assert HeldAt(out, Control(p, w), w, 0, i);
      HeldBit(out, Control(p, w), w, 0, i);
      assert Control(p, w)[0] == FBits(CycleMins(p));
    }
    EmptyNet(ls, w, 2 * w - 1, Identity(n));
    SwapPairsFirst(n);
  }

  lemma SwapPairsFirst(n: nat)
    requires n >= 4
    ensures SwapPairs(n)[0] == 2
  {
  }

  // ---------- the loop of controlbitsfrompermutation ----------

  /** diff |= pi[i] ^ pi_test[i], over all i. */
  method Difference(pi: array<int>, test: array<int>, n: nat, ghost p: seq<nat>) returns (diff: nat)
    requires CbRecursion.View(pi[..], 0, p) && |p| == n == test.Length && Int16s(test[..])
    ensures diff == 0 <==> forall i :: 0 <= i < n ==> test[i] == p[i]
  {
    diff := 0;
    for i := 0 to n
      invariant diff == 0 <==> forall k :: 0 <= k < i ==> test[k] == p[k]
    {
      var v := CbRecursion.ReadInt16(pi, 0, i, p);
      OrBothZero(diff, Xor(v, test[i]));
      XorEqual(v, test[i]);
      diff := Or(diff, Xor(v, test[i]));
    }
  }

  lemma NetNext(d: seq<int>, out: seq<int>, w: nat, t: nat)
    requires w > 0 && Bytes(out) && |out| >= OutSize(w) && |d| == Pow2(w) && t < 2 * w - 1
    ensures 0 <= t * (Pow2(w) / 16) && 8 * (t * (Pow2(w) / 16)) + Pow2(w - 1) <= 8 * |out|
    ensures (t + 1) * (Pow2(w) / 16) == t * (Pow2(w) / 16) + Pow2(w) / 16
    ensures Net(d, CheckLayers(out, w), w, t + 1) ==
            Layer(Net(d, CheckLayers(out, w), w, t), BitsFrom(out, t * (Pow2(w) / 16), Pow2(w - 1)), Stride(w, t), w)
  {
    hide Layer, BitsFrom, OutSize;
    LayerStart(w, t, |out|);
  }

  /** layer(pi_test, ptr, s, n); ptr += n >> 4; */
  method ApplyLayer(out: array<int>, test: array<int>, w: nat, n: nat, ptr: nat, s: nat, ghost t: nat,
      ghost d: seq<int>)
    returns (next: nat)
    requires w > 0 && n == Pow2(w) == test.Length == |d| && out != test
    requires Bytes(out[..]) && out.Length >= OutSize(w) && Int16s(test[..])
    requires t < 2 * w - 1 && s == Stride(w, t) && ptr == t * (n / 16)
    requires test[..] == Net(d, CheckLayers(out[..], w), w, t)
    modifies test
    ensures test[..] == Net(d, CheckLayers(out[..], w), w, t + 1) && Int16s(test[..])
    ensures next == (t + 1) * (n / 16)
  {
    hide BitsFrom, Bytes, Int16s, Layer, OutSize, Net, CheckLayers;
    NetNext(d, out[..], w, t);
    LayerInPlace(test, out, ptr, s, n, w);
    next := ptr + n / 16;
  }

  /** The layers of the self-check, applied to the identity. */
  method ApplyLayers(out: array<int>, test: array<int>, w: nat, n: nat)
    requires w > 0 && n == Pow2(w) == test.Length && out != test
    requires Bytes(out[..]) && out.Length >= OutSize(w) && test[..] == Identity(n) && n <= 0x1_0000
    modifies test
    ensures test[..] == Benes(Identity(n), CheckLayers(out[..], w), w)
    ensures Int16s(test[..])
  {
    hide BitsFrom, Bytes, Int16s, OutSize, Net, CheckLayers;
    ghost var d: seq<int> := Identity(n);
    IdentityInt16s(n);
    NetStart(d, out[..], w);
    var ptr, i := 0, 0;
    while i < w
      invariant i <= w && ptr == i * (n / 16)
      invariant test[..] == Net(d, CheckLayers(out[..], w), w, i) && Int16s(test[..])
    {
      ptr := ApplyLayer(out, test, w, n, ptr, i, i, d);
      i := i + 1;
    }
    i := w - 2;
    ghost var t := w;
    while i >= 0
      invariant -1 <= i <= w - 2 && t == 2 * w - 2 - i && ptr == t * (n / 16)
      invariant test[..] == Net(d, CheckLayers(out[..], w), w, t) && Int16s(test[..])
    {
      ptr := ApplyLayer(out, test, w, n, ptr, i, t, d);
      i := i - 1;
      t := t + 1;
    }
    NetInt(n, CheckLayers(out[..], w), w, 2 * w - 1);
  }

  lemma NetStart(d: seq<int>, out: seq<int>, w: nat)
    requires w > 0 && Bytes(out) && |out| >= OutSize(w) && |d| == Pow2(w)
    ensures Net(d, CheckLayers(out, w), w, 0) == d
  {
  }

  lemma IdentityInt16s(n: nat)
    requires n <= 0x1_0000
    ensures Int16s(Identity(n))
  {
  }

  lemma NetInt(n: nat, ls: seq<seq<bool>>, w: nat, t: nat)
    requires IsControl(ls, w) && n == Pow2(w) && t <= |ls|
    ensures var d: seq<int> := Identity(n); Net(d, ls, w, t) == Net(Identity(n), ls, w, t)
  {
  }

  /** One round of the loop: clear, write the control bits, and compare the network with pi. */
  method CheckRound(out: array<int>, pi: array<int>, w: nat, n: nat, temp: array<int>, test: array<int>,
      ghost p: seq<nat>)
    returns (diff: nat)
    requires 1 <= w <= 14 && n == Pow2(w) && |p| == n && IsPerm(p) && CbRecursion.View(pi[..], 0, p)
    requires out.Length >= OutSize(w) && Bytes(out[..]) && temp.Length >= 2 * n && test.Length == n
    requires out != pi && out != temp && out != test && pi != temp && pi != test && temp != test
    modifies out, temp, test
    ensures Holds(out[..], p, w)
    ensures diff == 0 <==> CheckPasses(out[..], p, w)
  {
    hide Holds, HeldAt, Bytes, IsPerm, CbRecursion.View, Toggled, Control, Flat, Int16s, CheckLayers, Benes;
    ClearOut(out, w);
    ghost var zero := out[..];
    WidthFacts(w, n, out.Length);
    CbRecursion.CbRecursion(out, 0, 1, pi, 0, w, n, temp, p);
    ToggledBytes(zero, out[..], Flat(Control(p, w)), 0, 1);
    TogglesHold(zero, out[..], p, w);
    ghost var bits := out[..];
    for i := 0 to n
      invariant forall k :: 0 <= k < i ==> test[k] == k
      invariant out[..] == bits && pi[..] == old(pi[..])
    {
      test[i] := i;
    }
    assert test[..] == Identity(n);
    HoldsBytes(bits, p, w);
    ApplyLayers(out, test, w, n);
    diff := Difference(pi, test, n, p);
    CheckPassesIff(out[..], p, w, test[..]);
  }

  lemma CheckPassesIff(out: seq<int>, p: seq<nat>, w: nat, test: seq<int>)
    requires Holds(out, p, w) && test == Benes(Identity(|p|), CheckLayers(out, w), w)
    ensures CheckPasses(out, p, w) <==> forall i :: 0 <= i < |p| ==> test[i] == p[i]
  {
    hide Benes, CheckLayers, Control, HeldAt;
  }

  lemma WidthFacts(w: nat, n: nat, size: nat)
    requires 1 <= w <= 14 && n == Pow2(w) && size >= OutSize(w)
    ensures n <= 0x1_0000 && CbRecursion.FitsOut(0, 1, (2 * w - 1) * (n / 2), size)
  {
    Pow2Values();
    Pow2Mono(w, 16);
    LayerStart(w, 0, size);
  }

  /** memset(out, 0, ((2w-1)*n/2 + 7) / 8) */
  method ClearOut(out: array<int>, w: nat)
    requires w > 0 && out.Length >= OutSize(w) && Bytes(out[..])
    modifies out
    ensures OutSize(w) >= 0 && Bytes(out[..]) && forall i :: 0 <= i < OutSize(w) ==> out[i] == 0
    ensures forall i :: OutSize(w) <= i < out.Length ==> out[i] == old(out[i])
  {
    hide OutSize;
    OutSizePositive(w);
    var i := 0;
    while i < OutSize(w)
      invariant 0 <= i <= OutSize(w)
      invariant forall k :: 0 <= k < i ==> out[k] == 0
      invariant forall k :: i <= k < out.Length ==> out[k] == old(out[k])
      invariant Bytes(out[..])
    {
      out[i] := 0;
      i := i + 1;
    }
  }

  lemma OutSizePositive(w: nat)
    requires w > 0
    ensures OutSize(w) >= 0
  {
    MulLe(Pow2(w) / 2, 0, 2 * w - 1);
  }

  /** crypto_int16_nonzero_mask of a value below 2^15: -1 unless the value is zero. */
  function NonzeroMask(diff: int): int {
    if diff < 0 || -diff < 0 then -1 else 0
  }

  /** controlbitsfrompermutation: the loop runs once and leaves the control bits of pi in out. */
  method ControlBitsFromPermutation(out: array<int>, pi: array<int>, w: nat, n: nat, ghost p: seq<nat>)
    requires 1 <= w <= 14 && w != 2 && w != 3 && n == Pow2(w) && |p| == n && IsPerm(p) && CbRecursion.View(pi[..], 0, p)
    requires out.Length >= OutSize(w) && Bytes(out[..]) && out != pi
    modifies out
    ensures Holds(out[..], p, w)
    ensures CheckPasses(out[..], p, w)
  {
    hide Holds, Bytes, IsPerm, CbRecursion.View, CheckPasses;
    var temp := new int[2 * n];
    var test := new int[n];
    var done := false;
    while !done
      invariant fresh(temp) && fresh(test) && Bytes(out[..])
      invariant done ==> Holds(out[..], p, w) && CheckPasses(out[..], p, w)
      decreases if done then 0 else 1
    {
      var diff := CheckRound(out, pi, w, n, temp, test, p);
      CheckAlwaysPasses(out[..], p, w);
      HoldsBytes(out[..], p, w);
      done := NonzeroMask(diff) == 0;
    }
  }

  lemma HoldsBytes(out: seq<int>, p: seq<nat>, w: nat)
    requires Holds(out, p, w)
    ensures Bytes(out)
  {
  }
}
