/** Loops that visit the pairs (x, x + 2^s) of an array block by block, as layer and transpose_64x64 do. */
module PairLoop {
  import opened Bits
  import opened Network

  /** v is a multiple of 2^s. */
  predicate Aligned(v: nat, s: nat)
    decreases s
  {
    s == 0 || (v % 2 == 0 && Aligned(v / 2, s - 1))
  }

  lemma AlignedDouble(m: nat, s: nat)
    requires s > 0 && Aligned(m, s - 1)
    ensures Aligned(2 * m, s)
  {
  }

  lemma AlignedMultiple(b: nat, s: nat)
    ensures Pow2(s) * b >= 0 && Aligned(Pow2(s) * b, s)
  {
    MulLe(Pow2(s), 0, b);
    if s > 0 {
      AlignedMultiple(b, s - 1);
      DoubleFirst(Pow2(s - 1), b);
      AlignedDouble(Pow2(s - 1) * b, s);
    }
  }

  lemma IndexUnfold(x: nat, s: nat)
    ensures s > 0 ==> BitIndex(x, s) == 2 * BitIndex(x / 2, s - 1) + x % 2
    ensures s > 0 ==> Partner(x, s) == 2 * Partner(x / 2, s - 1) + x % 2
    ensures BitIndex(x, 0) == x / 2 && Partner(x, 0) == if x % 2 == 0 then x + 1 else x - 1
  {
  }

  /** Halving the indices of a block. */
  lemma HalfBlock(v: nat, j: nat, h: nat)
    requires v % 2 == 0 && j < 2 * h
    ensures (2 * v + j) / 2 == 2 * (v / 2) + j / 2 && (2 * v + j) % 2 == j % 2 && j / 2 < h
    ensures (2 * v + j + 2 * h) / 2 == 2 * (v / 2) + j / 2 + h && (2 * v + j + 2 * h) % 2 == j % 2
  {
  }

  /** Pair j of the block that starts at 2*v. */
  lemma BlockIndex(v: nat, j: nat, s: nat)
    requires j < Pow2(s) && Aligned(v, s)
    ensures BitIndex(2 * v + j, s) == v + j && Partner(2 * v + j, s) == 2 * v + j + Pow2(s)
    ensures BitIndex(2 * v + j + Pow2(s), s) == v + j
  {
    hide BitIndex, Partner;
    IndexUnfold(2 * v + j, s);
    IndexUnfold(2 * v + j + Pow2(s), s);
    if s > 0 {
      var h := Pow2(s - 1);
      assert Pow2(s) == 2 * h;
      HalfBlock(v, j, h);
      BlockIndex(v / 2, j / 2, s - 1);
    }
  }

  /** One layer, in numbers: in block b of 2 * 2^s positions, the pair j is exchanged when control bit 2^s*b+j is
      set. */
  lemma LayerBlockAt<T>(p: seq<T>, c: seq<bool>, s: nat, w: nat, b: nat, j: nat)
    requires s < w && |p| == Pow2(w) && |c| == Pow2(w - 1) && j < Pow2(s)
    requires 2 * (Pow2(s) * b) + j + Pow2(s) < |p|
    ensures var k := Pow2(s) * b + j;
            var x, y := 2 * (Pow2(s) * b) + j, 2 * (Pow2(s) * b) + j + Pow2(s);
            && 0 <= k < |c| && 0 <= x < |p|
            && Layer(p, c, s, w)[x] == (if c[k] then p[y] else p[x])
            && Layer(p, c, s, w)[y] == if c[k] then p[x] else p[y]
  {
    hide BitIndex, Partner, Pow2, Aligned;
    AlignedMultiple(b, s);
    var v: nat := Pow2(s) * b;
    var x, y: nat := 2 * v + j, 2 * v + j + Pow2(s);
    BlockIndex(v, j, s);
    IndexBound(x, s, w);
    PartnerTwice(x, s);
    assert Layer(p, c, s, w)[x] == LayerAt(p, c, s, w, x);
    assert Layer(p, c, s, w)[y] == LayerAt(p, c, s, w, y);
  }

  lemma SameIndex(x: nat, y: nat, s: nat)
    requires BitIndex(x, s) == BitIndex(y, s)
    ensures x == y || x == Partner(y, s)
  {
    if s > 0 {
      SameIndex(x / 2, y / 2, s - 1);
      assert Partner(y, s) / 2 == Partner(y / 2, s - 1);
    }
  }

  lemma BlockBound(stride: nat, b: nat, nb: nat)
    requires 2 * (stride * b) < 2 * (stride * nb)
    ensures b < nb && stride * b + stride <= stride * nb && stride * (b + 1) == stride * b + stride
  {
    if b >= nb {
      MulLe(stride, nb, b);
    } else {
      MulLe(stride, b + 1, nb);
    }
  }

  lemma BlockEnd(stride: nat, b: nat, nb: nat)
    requires b <= nb && stride * b >= stride * nb
    ensures stride * b == stride * nb
  {
    MulLe(stride, b, nb);
  }

  /** The pairs with index below k hold their final values r, the others their initial values p. */
  ghost predicate PairsDone<T>(q: seq<T>, p: seq<T>, r: seq<T>, s: nat, k: nat) {
    && |p| == |q| == |r|
    && forall x :: 0 <= x < |p| ==> q[x] == if BitIndex(x, s) < k then r[x] else p[x]
  }

  lemma PairsNone<T>(p: seq<T>, r: seq<T>, s: nat)
    requires |r| == |p|
    ensures PairsDone(p, p, r, s, 0)
  {
  }

  lemma PairsNext<T>(q: seq<T>, p: seq<T>, r: seq<T>, s: nat, k: nat, x: nat, y: nat)
    requires PairsDone(q, p, r, s, k) && x < |p| && y < |p|
    requires BitIndex(x, s) == k && y == Partner(x, s)
    ensures PairsDone(q[x := r[x]][y := r[y]], p, r, s, k + 1)
    ensures q[x] == p[x] && q[y] == p[y]
  {
    PartnerTwice(x, s);
    forall z | 0 <= z < |p|
      ensures q[x := r[x]][y := r[y]][z] == if BitIndex(z, s) < k + 1 then r[z] else p[z]
    {
      if BitIndex(z, s) == k {
        SameIndex(z, x, s);
      }
    }
  }

  lemma PairsAll<T>(q: seq<T>, p: seq<T>, r: seq<T>, s: nat, w: nat)
    requires s < w && |p| == Pow2(w) && PairsDone(q, p, r, s, Pow2(w - 1))
    ensures q == r
  {
    forall x | 0 <= x < |p|
      ensures q[x] == r[x]
    {
      IndexBound(x, s, w);
    }
  }
}
