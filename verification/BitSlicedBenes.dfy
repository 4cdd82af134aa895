/** benes.c: the Benes network on 4096 bits, bit-sliced into 64 words of 64 bits, and support_gen.
    Layers of distance below 64 act on the transposed words, the others on the words themselves. */
module BitSlicedBenes {
  import opened Bits
  import opened Network
  import opened OutBits
  import opened LittleEndian
  import opened PairLoop
  import opened Transpose
  import opened ControlBitsCheck

  // ---------- the two readings of 64 words as 4096 bits ----------

  /** Position 64i+j is bit j of word i. */
  ghost function Plain(ws: seq<int>): (r: seq<bool>)
    requires |ws| == 64 && Words64(ws)
    ensures |r| == 4096
  {
    seq(4096, x requires 0 <= x < 4096 => Bit(ws[x / 64], x % 64))
  }

  /** Position 64i+j is bit i of word j. */
  ghost function Crossed(ws: seq<int>): (r: seq<bool>)
    requires |ws| == 64 && Words64(ws)
    ensures |r| == 4096
  {
    seq(4096, x requires 0 <= x < 4096 => Bit(ws[x % 64], x / 64))
  }

  lemma TransposedReading(t: seq<int>, p: seq<int>)
    requires IsTranspose(t, p)
    ensures Plain(t) == Crossed(p) && Crossed(t) == Plain(p)
  {
    hide Bit;
  }

  // ---------- positions of the layers ----------

  lemma Halve(P: nat, k: nat, a: nat)
    requires a < 2 * P
    ensures P * k >= 0 && 2 * P * k == 2 * (P * k)
    ensures (2 * P * k + a) / 2 == P * k + a / 2 && (2 * P * k + a) % 2 == a % 2
  {
    MulLe(P, 0, k);
    assert 2 * P * k == 2 * (P * k);
  }

  lemma LowIndexZero(k: nat, a: nat, P: nat)
    requires a < 2 * P
    ensures P * k >= 0 && 2 * P * k >= 0
    ensures BitIndex(2 * P * k + a, 0) == P * k + BitIndex(a, 0)
    ensures Partner(2 * P * k + a, 0) == 2 * P * k + Partner(a, 0)
  {
    Halve(P, k, a);
  }

  lemma {:induction false} LowIndex(k: nat, a: nat, s: nat, m: nat)
    requires s < m && a < Pow2(m)
    ensures Pow2(m) * k >= 0 && Pow2(m - 1) * k >= 0
    ensures BitIndex(Pow2(m) * k + a, s) == Pow2(m - 1) * k + BitIndex(a, s)
    ensures Partner(Pow2(m) * k + a, s) == Pow2(m) * k + Partner(a, s)
  {
    hide BitIndex, Partner;
    var P := Pow2(m - 1);
    assert Pow2(m) == 2 * P;
    Halve(P, k, a);
    if s == 0 {
      LowIndexZero(k, a, P);
    } else {
      assert P == 2 * Pow2(m - 2);
      LowIndex(k, a / 2, s - 1, m - 1);
      Halve(Pow2(m - 2), k, 0);
      LowStep(2 * P * k + a, a, s, P * k + a / 2, Pow2(m - 2) * k, P * k);
    }
  }

  lemma LowStep(x: nat, a: nat, s: nat, h: nat, u: nat, v: nat)
    requires s > 0 && x / 2 == h && x % 2 == a % 2
    requires BitIndex(h, s - 1) == u + BitIndex(a / 2, s - 1) && Partner(h, s - 1) == v + Partner(a / 2, s - 1)
    ensures BitIndex(x, s) == 2 * u + BitIndex(a, s) && Partner(x, s) == 2 * v + Partner(a, s)
  {
  }

  lemma {:induction false} HighIndex(i: nat, j: nat, s: nat, m: nat)
    requires j < Pow2(m)
    ensures Pow2(m) * i >= 0
    ensures BitIndex(Pow2(m) * i + j, s + m) == Pow2(m) * BitIndex(i, s) + j
    ensures Partner(Pow2(m) * i + j, s + m) == Pow2(m) * Partner(i, s) + j
  {
    hide BitIndex, Partner;
    if m > 0 {
      var P := Pow2(m - 1);
      HighIndex(i, j / 2, s, m - 1);
      Halve(P, i, j);
      Halve(P, BitIndex(i, s), j);
      Halve(P, Partner(i, s), j);
      HighStep(2 * P * i + j, s + m, P * i + j / 2, P * BitIndex(i, s) + j / 2, P * Partner(i, s) + j / 2, j);
    }
  }

  lemma HighStep(x: nat, s: nat, h: nat, u: nat, v: nat, j: nat)
    requires s > 0 && x / 2 == h && x % 2 == j % 2
    requires BitIndex(h, s - 1) == u && Partner(h, s - 1) == v
    ensures BitIndex(x, s) == 2 * u + j % 2 && Partner(x, s) == 2 * v + j % 2
  {
  }

  // ---------- layer on words ----------

  function ExchangeWord(a: nat, b: nat, c: nat): nat {
    Xor(a, And(Xor(a, b), c))
  }

  lemma ExchangeBit(a: nat, b: nat, c: nat, i: nat)
    ensures Bit(ExchangeWord(a, b, c), i) == if Bit(c, i) then Bit(b, i) else Bit(a, i)
  {
    hide Bit;
    XorBit(a, b, i);
    AndBit(Xor(a, b), c, i);
    XorBit(a, And(Xor(a, b), c), i);
  }

  lemma ExchangeBound(a: nat, b: nat, c: nat)
    requires a < U64 && b < U64
    ensures ExchangeWord(a, b, c) < U64
  {
    Pow2Values();
    XorBound(a, b, 64);
    AndBound(Xor(a, b), c);
    XorBound(a, And(Xor(a, b), c), 64);
  }

  function WordAt(ws: seq<int>, cond: seq<int>, s: nat, x: nat): int
    requires |ws| == 64 == |cond| && Words64(ws) && Words64(cond) && s < 6 && x < 64
  {
    Sixty(x, s);
    ExchangeWord(ws[x], ws[Partner(x, s)], cond[BitIndex(x, s)])
  }

  lemma Sixty(x: nat, s: nat)
    requires x < 64 && s < 6
    ensures Partner(x, s) < 64 && BitIndex(x, s) < 32
  {
    Widths();
    Pow2Values();
    IndexBound(x, s, 6);
  }

  function WordLayer(ws: seq<int>, cond: seq<int>, s: nat): (r: seq<int>)
    requires |ws| == 64 == |cond| && Words64(ws) && Words64(cond) && s < 6
    ensures |r| == 64
  {
    seq(64, x requires 0 <= x < 64 => WordAt(ws, cond, s, x))
  }

  lemma WordLayerWords(ws: seq<int>, cond: seq<int>, s: nat)
    requires |ws| == 64 == |cond| && Words64(ws) && Words64(cond) && s < 6
    ensures Words64(WordLayer(ws, cond, s))
  {
    hide ExchangeWord, BitIndex, Partner;
    forall x | 0 <= x < 64
      ensures 0 <= WordLayer(ws, cond, s)[x] < U64
    {
      Sixty(x, s);
      ExchangeBound(ws[x], ws[Partner(x, s)], cond[BitIndex(x, s)]);
    }
  }

  lemma WordPair(ws: seq<int>, cond: seq<int>, s: nat, x: nat, y: nat)
    requires |ws| == 64 == |cond| && Words64(ws) && Words64(cond) && s < 6 && x < 64 && y == Partner(x, s)
    ensures y < 64 && BitIndex(x, s) < 32
    ensures var d := And(Xor(ws[x], ws[y]), cond[BitIndex(x, s)]);
            WordLayer(ws, cond, s)[x] == Xor(ws[x], d) && WordLayer(ws, cond, s)[y] == Xor(ws[y], d)
  {
    Sixty(x, s);
    PartnerTwice(x, s);
    XorComm(ws[x], ws[y]);
  }

  /** The inner loop, for the block that starts at i = 2*v. */
  method WordBlock(data: array<int>, bits: array<int>, lgs: nat, s: nat, i: nat, v: nat, ghost b: nat,
      ghost p: seq<int>)
    returns (index: nat)
    requires data.Length == 64 == |p| == bits.Length && data != bits && Words64(p) && Words64(bits[..]) && lgs < 6
        && s == Pow2(lgs)
    requires v == s * b && i == 2 * v && v + s <= 32
    requires PairsDone(data[..], p, WordLayer(p, bits[..], lgs), lgs, v)
    modifies data
    ensures index == v + s && PairsDone(data[..], p, WordLayer(p, bits[..], lgs), lgs, index)
  {
    hide WordLayer, BitIndex, Partner, PairsDone, Aligned, Words64;
    AlignedMultiple(b, lgs);
    ghost var r := WordLayer(p, bits[..], lgs);
    index := v;
    var j := i;
    while j < i + s
      invariant i <= j <= i + s && index == j - v
      invariant PairsDone(data[..], p, r, lgs, index)
    {
      BlockIndex(v, j - i, lgs);
      WordPair(p, bits[..], lgs, j, j + s);
      PairsNext(data[..], p, r, lgs, index, j, j + s);
      PairWords(p, data[..], j, j + s);
      OneWord(bits[..], index);
      var d := Xor(data[j + 0], data[j + s]);
      d := And(d, bits[index]);
      index := index + 1;
      ghost var q := data[..];
      assert q[j] == data[j] && q[j + s] == data[j + s];
      data[j + 0] := Xor(data[j + 0], d);
      data[j + s] := Xor(data[j + s], d);
      assert data[..] == q[j := r[j]][j + s := r[j + s]];
      j := j + 1;
    }
  }

  lemma OneWord(s: seq<int>, i: nat)
    requires Words64(s) && i < |s|
    ensures 0 <= s[i] < U64
  {
  }

  /** layer of benes.c */
  method WordLayerInPlace(data: array<int>, bits: array<int>, lgs: nat)
    requires data.Length == 64 == bits.Length && data != bits && Words64(data[..]) && Words64(bits[..]) && lgs < 6
    modifies data
    ensures data[..] == old(WordLayer(data[..], bits[..], lgs)) && Words64(data[..])
  {
    hide WordLayer, BitIndex, Partner, PairsDone, Words64;
    var s := Pow2(lgs);
    ghost var nb := Pow2(5 - lgs);
    assert s * nb == 32 by { Pow2Add(lgs, 5 - lgs); Widths(); }
    assert Pow2(6) == 64 && Pow2(5) == 32 by { Widths(); Pow2Values(); }
    ghost var p := data[..];
    ghost var r := WordLayer(p, bits[..], lgs);
    var index, i := 0, 0;
    ghost var b := 0;
    PairsNone(p, r, lgs);
    while i < 64
      invariant b <= nb && i == 2 * index && index == s * b
      invariant PairsDone(data[..], p, r, lgs, index)
      decreases 64 - i
    {
      BlockBound(s, b, nb);
      index := WordBlock(data, bits, lgs, s, i, index, b, p);
      i := i + s * 2;
      b := b + 1;
    }
    BlockEnd(s, b, nb);
    PairsAll(data[..], p, r, lgs, 6);
    WordLayerWords(p, bits[..], lgs);
  }

  // ---------- a layer on words is a layer of the network on 4096 bits ----------

  /** Bit b of word t decides about position 64t+b (words hold positions 64t to 64t+63). */
  ghost predicate WordBits(c: seq<bool>, cond: seq<int>) {
    && |c| == 2048 && |cond| == 64 && Words64(cond)
    && forall k :: 0 <= k < 2048 ==> c[k] == Bit(cond[k / 64], k % 64)
  }

  /** Bit b of word t decides about pair t of block b. */
  ghost predicate CrossedBits(c: seq<bool>, cond: seq<int>) {
    && |c| == 2048 && |cond| == 64 && Words64(cond)
    && forall k :: 0 <= k < 2048 ==> c[k] == Bit(cond[k % 32], k / 32)
  }

  lemma WordAtBit(ws: seq<int>, cond: seq<int>, s: nat, x: nat, b: nat)
    requires |ws| == 64 == |cond| && Words64(ws) && Words64(cond) && s < 6 && x < 64
    ensures Partner(x, s) < 64 && BitIndex(x, s) < 32
    ensures 0 <= WordLayer(ws, cond, s)[x]
    ensures Bit(WordLayer(ws, cond, s)[x], b) ==
            if Bit(cond[BitIndex(x, s)], b) then Bit(ws[Partner(x, s)], b) else Bit(ws[x], b)
  {
    hide Bit, BitIndex, Partner, ExchangeWord;
    Sixty(x, s);
    ExchangeBit(ws[x], ws[Partner(x, s)], cond[BitIndex(x, s)], b);
  }

  lemma Sizes()
    ensures Pow2(12) == 4096 && Pow2(11) == 2048 && Pow2(6) == 64 && Pow2(5) == 32
  {
    Pow2Values();
    Widths();
    Pow2Add(6, 5);
  }

  lemma PlainWord(ws: seq<int>, x: nat, i: nat, j: nat)
    requires |ws| == 64 && Words64(ws) && i < 64 && j < 64 && x == 64 * i + j
    ensures Plain(ws)[x] == Bit(ws[i], j)
  {
  }

  lemma CrossedWord(ws: seq<int>, x: nat, i: nat, j: nat)
    requires |ws| == 64 && Words64(ws) && i < 64 && j < 64 && x == 64 * i + j
    ensures Crossed(ws)[x] == Bit(ws[j], i)
  {
  }

  lemma {:induction false} HighLayer(ws: seq<int>, cond: seq<int>, s: nat, c: seq<bool>)
    requires |ws| == 64 && Words64(ws) && s < 6 && WordBits(c, cond)
    ensures Words64(WordLayer(ws, cond, s))
    ensures Pow2(12) == 4096 && Pow2(11) == 2048
    ensures Plain(WordLayer(ws, cond, s)) == Layer(Plain(ws), c, 6 + s, 12)
  {
    hide Bit, BitIndex, Partner, Words64, Pow2, Plain, WordLayer, Layer;
    Sizes();
    WordLayerWords(ws, cond, s);
    var L, R := Plain(WordLayer(ws, cond, s)), Layer(Plain(ws), c, 6 + s, 12);
    forall x | 0 <= x < 4096
      ensures L[x] == R[x]
    {
      HighAt(ws, cond, s, c, x, x / 64, x % 64);
    }
  }

  lemma {:induction false} HighAt(ws: seq<int>, cond: seq<int>, s: nat, c: seq<bool>, x: nat, i: nat, j: nat)
    requires |ws| == 64 && Words64(ws) && s < 6 && WordBits(c, cond) && i < 64 && j < 64 && x == 64 * i + j
    requires Words64(WordLayer(ws, cond, s)) && Pow2(12) == 4096 && Pow2(11) == 2048
    ensures Plain(WordLayer(ws, cond, s))[x] == Layer(Plain(ws), c, 6 + s, 12)[x]
  {
    hide Bit, BitIndex, Partner, Words64, Pow2, Plain, WordLayer;
    Sizes();
    WordAtBit(ws, cond, s, i, j);
    PlainWord(WordLayer(ws, cond, s), x, i, j);
    PlainWord(ws, x, i, j);
    HighIndex(i, j, s, 6);
    PlainWord(ws, Partner(x, 6 + s), Partner(i, s), j);
    IndexBound(x, 6 + s, 12);
    assert Layer(Plain(ws), c, 6 + s, 12)[x] == LayerAt(Plain(ws), c, 6 + s, 12, x);
    OneWord(cond, BitIndex(i, s));
    assert c[BitIndex(x, 6 + s)] == Bit(cond[BitIndex(i, s)], j);
  }

  lemma {:induction false} LowLayer(ws: seq<int>, cond: seq<int>, s: nat, c: seq<bool>)
    requires |ws| == 64 && Words64(ws) && s < 6 && CrossedBits(c, cond)
    ensures Words64(WordLayer(ws, cond, s))
    ensures Pow2(12) == 4096 && Pow2(11) == 2048
    ensures Crossed(WordLayer(ws, cond, s)) == Layer(Crossed(ws), c, s, 12)
  {
    hide Bit, BitIndex, Partner, Words64, Pow2, Crossed, WordLayer, Layer;
    Sizes();
    WordLayerWords(ws, cond, s);
    var L, R := Crossed(WordLayer(ws, cond, s)), Layer(Crossed(ws), c, s, 12);
    forall x | 0 <= x < 4096
      ensures L[x] == R[x]
    {
      LowAt(ws, cond, s, c, x, x / 64, x % 64);
    }
  }

  lemma {:induction false} LowAt(ws: seq<int>, cond: seq<int>, s: nat, c: seq<bool>, x: nat, i: nat, j: nat)
    requires |ws| == 64 && Words64(ws) && s < 6 && CrossedBits(c, cond) && i < 64 && j < 64 && x == 64 * i + j
    requires Words64(WordLayer(ws, cond, s)) && Pow2(12) == 4096 && Pow2(11) == 2048
    ensures Crossed(WordLayer(ws, cond, s))[x] == Layer(Crossed(ws), c, s, 12)[x]
  {
    hide Bit, BitIndex, Partner, Words64, Pow2, Crossed, WordLayer;
    Sizes();
    WordAtBit(ws, cond, s, j, i);
    CrossedWord(WordLayer(ws, cond, s), x, i, j);
    CrossedWord(ws, x, i, j);
    LowIndex(i, j, s, 6);
    CrossedWord(ws, Partner(x, s), i, Partner(j, s));
    IndexBound(x, s, 12);
    assert Layer(Crossed(ws), c, s, 12)[x] == LayerAt(Crossed(ws), c, s, 12, x);
    OneWord(cond, BitIndex(j, s));
    assert c[BitIndex(x, s)] == Bit(cond[BitIndex(j, s)], i);
  }
}
