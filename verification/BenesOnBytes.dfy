/** apply_benes of benes.c: the bit-sliced network applied to the 4096 bits stored in 512 bytes. */
module BenesOnBytes {
  import opened Bits
  import opened Network
  import opened OutBits
  import opened LittleEndian
  import opened Transpose
  import opened ControlBitsCheck
  import opened BitSlicedBenes

  // ---------- what the network computes ----------

  function Reversed(ls: seq<seq<bool>>): (r: seq<seq<bool>>)
    ensures |r| == |ls|
  {
    seq(|ls|, t requires 0 <= t < |ls| => ls[|ls| - 1 - t])
  }

  /** The layers in the order of application. */
  function Order(ls: seq<seq<bool>>, rev: bool): (r: seq<seq<bool>>)
    ensures |r| == |ls|
  {
    if rev then Reversed(ls) else ls
  }

  lemma OrderControl(ls: seq<seq<bool>>, rev: bool, w: nat)
    requires IsControl(ls, w)
    ensures IsControl(Order(ls, rev), w)
  {
  }

  /** Undoing the last layers one by one gives back every earlier state. */
  lemma {:induction false} ReverseNet<T>(p: seq<T>, ls: seq<seq<bool>>, w: nat, t: nat)
    requires IsControl(ls, w) && |p| == Pow2(w) && t <= 2 * w - 1
    ensures IsControl(Reversed(ls), w)
    ensures Net(Benes(p, ls, w), Reversed(ls), w, t) == Net(p, ls, w, 2 * w - 1 - t)
  {
    hide Layer;
    OrderControl(ls, true, w);
    if t > 0 {
      ReverseNet(p, ls, w, t - 1);
      var u := 2 * w - 1 - t;
      assert Reversed(ls)[t - 1] == ls[u] && Stride(w, t - 1) == Stride(w, u);
      LayerTwice(Net(p, ls, w, u), ls[u], Stride(w, u), w);
    }
  }

  /** Applying the layers in the opposite order undoes the network, for all data and all control bits. */
  lemma {:induction false} ReverseUndoes<T>(p: seq<T>, ls: seq<seq<bool>>, w: nat, rev: bool)
    requires IsControl(ls, w) && |p| == Pow2(w)
    ensures IsControl(Order(ls, rev), w) && IsControl(Order(ls, !rev), w)
    ensures Benes(Benes(p, Order(ls, rev), w), Order(ls, !rev), w) == p
  {
    OrderControl(ls, true, w);
    ReverseNet(p, Order(ls, rev), w, 2 * w - 1);
    assert Reversed(Reversed(ls)) == ls;
  }

  lemma Sizes12()
    ensures Pow2(12) == 4096 && Pow2(11) == 2048 && OutSize(12) == 5888
  {
    Sizes();
  }

  /** The state of the 4096 bits after t layers taken from the 5888 control bytes. */
  ghost function Run(p: seq<bool>, bits: seq<int>, rev: bool, t: nat): (r: seq<bool>)
    requires |p| == 4096 && Bytes(bits) && |bits| >= 5888 && t <= 23
    ensures |r| == 4096
  {
    Sizes12();
    OrderControl(CheckLayers(bits, 12), rev, 12);
    Net(p, Order(CheckLayers(bits, 12), rev), 12, t)
  }

  /** The whole run: the layers that the self-check of key generation reads, forwards or backwards. */
  lemma RunIs(p: seq<bool>, bits: seq<int>)
    requires |p| == 4096 && Bytes(bits) && |bits| >= 5888
    ensures Pow2(12) == 4096 && IsControl(CheckLayers(bits, 12), 12)
    ensures Run(p, bits, false, 23) == Benes(p, CheckLayers(bits, 12), 12)
  {
    hide Net, CheckLayers, Pow2;
    Sizes12();
  }

  /** Offset of the control bits of step t: cond_ptr moves up or down by 256 bytes. */
  function Ptr(rev: bool, t: nat): int { if rev then 256 * (22 - t) else 256 * t }

  lemma RunNext(p: seq<bool>, bits: seq<int>, rev: bool, t: nat)
    requires |p| == 4096 && Bytes(bits) && |bits| >= 5888 && t < 23
    ensures Pow2(12) == 4096 && Pow2(11) == 2048 && 0 <= Ptr(rev, t) <= 5632
    ensures Run(p, bits, rev, t + 1) ==
            Layer(Run(p, bits, rev, t), BitsFrom(bits, Ptr(rev, t), 2048), Stride(12, t), 12)
  {
    hide Layer, BitsFrom, Pow2;
    Sizes12();
    OrderControl(CheckLayers(bits, 12), rev, 12);
  }

  lemma RunUndone(p: seq<bool>, bits: seq<int>, rev: bool)
    requires |p| == 4096 && Bytes(bits) && |bits| >= 5888
    ensures Run(Run(p, bits, rev, 23), bits, !rev, 23) == p
  {
    hide Layer, BitsFrom, Pow2, Net, CheckLayers;
    Sizes12();
    ReverseUndoes(p, CheckLayers(bits, 12), 12, rev);
  }

  // ---------- loading control bits and data ----------

  /** cs holds the k-byte words that start at byte base. */
  ghost predicate Loaded(cs: seq<int>, mem: seq<int>, base: nat, k: nat, n: nat) {
    && Bytes(mem) && k > 0 && n <= |cs|
    && forall t :: 0 <= t < n ==> LoadedAt(cs, mem, base, k, t)
  }

  ghost predicate LoadedAt(cs: seq<int>, mem: seq<int>, base: nat, k: nat, t: nat)
    requires Bytes(mem) && t < |cs|
  {
    && 0 <= t * k && base + t * k + k <= |mem|
    && Bytes(mem[base + t * k..base + t * k + k])
    && cs[t] == LoadLE(mem[base + t * k..base + t * k + k])
  }

  lemma LoadedWord(cs: seq<int>, mem: seq<int>, base: nat, k: nat, t: nat)
    requires Bytes(mem) && t < |cs| && 0 < k <= 8 && LoadedAt(cs, mem, base, k, t)
    ensures 0 <= cs[t] < U64
  {
    LoadBound(mem[base + t * k..base + t * k + k]);
    Pow2Mono(8 * k, 64);
    Pow2Values();
  }

  lemma LoadedBit(cs: seq<int>, mem: seq<int>, base: nat, k: nat, t: nat, b: nat)
    requires Bytes(mem) && t < |cs| && 0 < k <= 8 && LoadedAt(cs, mem, base, k, t) && b < 8 * k
    ensures 0 <= cs[t] && 0 <= t * k && base + t * k + b / 8 < |mem|
    ensures Bit(cs[t], b) == Bit(mem[base + t * k + b / 8], b % 8)
  {
    hide Bit, LoadLE;
    LoadBit(mem[base + t * k..base + t * k + k], b / 8, b % 8);
  }

  /** The loops over load4 and load8. */
  method LoadWords(cs: array<int>, mem: array<int>, base: nat, k: nat, n: nat)
    requires cs != mem && n <= cs.Length && 0 < k <= 8 && Bytes(mem[..]) && 0 <= n * k && base + n * k <= mem.Length
    modifies cs
    ensures Loaded(cs[..], mem[..], base, k, n)
    ensures forall t :: n <= t < cs.Length ==> cs[t] == old(cs[t])
  {
    hide LoadedAt, LoadLE;
    for i := 0 to n
      invariant Loaded(cs[..], mem[..], base, k, i)
      invariant forall t :: i <= t < cs.Length ==> cs[t] == old(cs[t])
    {
      MulLe(k, i + 1, n);
      assert (i + 1) * k == i * k + k;
      MulLe(k, 0, i);
      var v := Load(mem, base + i * k, k);
      ghost var before := cs[..];
      cs[i] := v;
      LoadedStep(before, cs[..], mem[..], base, k, i);
    }
  }

  lemma LoadedStep(before: seq<int>, after: seq<int>, mem: seq<int>, base: nat, k: nat, i: nat)
    requires Loaded(before, mem, base, k, i) && i < |before|
    requires 0 <= i * k && base + i * k + k <= |mem| && Bytes(mem[base + i * k..base + i * k + k])
    requires after == before[i := LoadLE(mem[base + i * k..base + i * k + k])]
    ensures Loaded(after, mem, base, k, i + 1)
  {
    hide LoadLE;
    forall t | 0 <= t < i + 1
      ensures LoadedAt(after, mem, base, k, t)
    {
      if t < i {
        assert LoadedAt(before, mem, base, k, t);
      }
    }
  }

  lemma WordsLoaded(cs: seq<int>, mem: seq<int>, base: nat, k: nat, n: nat)
    requires 0 < k <= 8 && Loaded(cs, mem, base, k, n)
    requires forall t :: n <= t < |cs| ==> 0 <= cs[t] < U64
    ensures Words64(cs)
  {
    forall t | 0 <= t < n
      ensures 0 <= cs[t] < U64
    {
      assert LoadedAt(cs, mem, base, k, t);
      LoadedWord(cs, mem, base, k, t);
    }
  }

  lemma BitsFromBit(mem: seq<int>, base: nat, h: nat, x: nat, t: nat, k: nat, b: nat)
    requires Bytes(mem) && 8 * base + h <= 8 * |mem| && x < h && t * k >= 0 && x == 8 * (t * k) + b
    ensures base + t * k + b / 8 < |mem|
    ensures BitsFrom(mem, base, h)[x] == Bit(mem[base + t * k + b / 8], b % 8)
  {
    hide Bit;
    BitsFromAt(mem, base, h, x);
  }

  /** Loading 8-byte words reads consecutive bits. */
  lemma {:induction false} PlainLoad(cs: seq<int>, mem: seq<int>, base: nat, n: nat, x: nat)
    requires Loaded(cs, mem, base, 8, n) && base + 8 * n <= |mem| && Words64(cs) && x < 64 * n
    ensures 8 * base + 64 * n <= 8 * |mem| && Bit(cs[x / 64], x % 64) == BitsFrom(mem, base, 64 * n)[x]
  {
    hide Bit, LoadLE;
    assert LoadedAt(cs, mem, base, 8, x / 64);
    LoadedBit(cs, mem, base, 8, x / 64, x % 64);
    BitsFromBit(mem, base, 64 * n, x, x / 64, 8, x % 64);
  }

  /** Loading 4-byte words and transposing gives the control bits in crossed order. */
  lemma {:induction false} CrossedLoad(ct: seq<int>, cs: seq<int>, mem: seq<int>, base: nat, x: nat)
    requires Loaded(cs, mem, base, 4, 64) && |cs| == 64 && base + 256 <= |mem| && IsTranspose(ct, cs) && x < 2048
    ensures Bit(ct[x % 32], x / 32) == BitsFrom(mem, base, 2048)[x]
  {
    hide Bit, LoadLE;
    assert LoadedAt(cs, mem, base, 4, x / 32);
    LoadedBit(cs, mem, base, 4, x / 32, x % 32);
    BitsFromBit(mem, base, 2048, x, x / 32, 4, x % 32);
  }

  // ---------- the rounds ----------

  /** A round of the loops that use load4 and transpose the control bits. */
  method LowRound(bs: array<int>, cond: array<int>, bits: array<int>, ptr: nat, low: nat)
    requires bs.Length == 64 == cond.Length && bs != cond && bits != cond && bits != bs
    requires Words64(bs[..]) && Bytes(bits[..]) && ptr + 256 <= bits.Length && low < 6
    modifies bs, cond
    ensures Words64(bs[..]) && Words64(cond[..]) && Pow2(12) == 4096 && Pow2(11) == 2048
    ensures Crossed(bs[..]) == Layer(old(Crossed(bs[..])), BitsFrom(bits[..], ptr, 2048), low, 12)
  {
    hide LoadedAt, BitsFrom, Crossed, Layer, WordLayer, Bit, Bytes, Pow2;
    LoadWords(cond, bits, ptr, 4, 64);
    ghost var cs := cond[..];
    WordsLoaded(cs, bits[..], ptr, 4, 64);
    Transpose64(cond, cond);
    forall x | 0 <= x < 2048
      ensures BitsFrom(bits[..], ptr, 2048)[x] == Bit(cond[x % 32], x / 32)
    {
      CrossedLoad(cond[..], cs, bits[..], ptr, x);
    }
    LowLayer(bs[..], cond[..], low, BitsFrom(bits[..], ptr, 2048));
    WordLayerInPlace(bs, cond, low);
  }

  /** A round of the loops that use load8. */
  method HighRound(bs: array<int>, cond: array<int>, bits: array<int>, ptr: nat, low: nat)
    requires bs.Length == 64 == cond.Length && bs != cond && bits != cond && bits != bs && Words64(cond[..])
    requires Words64(bs[..]) && Bytes(bits[..]) && ptr + 256 <= bits.Length && low < 6
    modifies bs, cond
    ensures Words64(bs[..]) && Words64(cond[..]) && Pow2(12) == 4096 && Pow2(11) == 2048
    ensures Plain(bs[..]) == Layer(old(Plain(bs[..])), BitsFrom(bits[..], ptr, 2048), 6 + low, 12)
  {
    hide LoadedAt, BitsFrom, Plain, Layer, WordLayer, Bit, Bytes, Pow2;
    LoadWords(cond, bits, ptr, 8, 32);
    WordsLoaded(cond[..], bits[..], ptr, 8, 32);
    forall x | 0 <= x < 2048
      ensures BitsFrom(bits[..], ptr, 2048)[x] == Bit(cond[x / 64], x % 64)
    {
      PlainLoad(cond[..], bits[..], ptr, 32, x);
    }
    HighLayer(bs[..], cond[..], low, BitsFrom(bits[..], ptr, 2048));
    WordLayerInPlace(bs, cond, low);
  }

  /** The first and the last loop: distances 1 to 32, upwards or downwards. */
  method LowRounds(bs: array<int>, cond: array<int>, bits: array<int>, rev: bool, first: bool, cond_ptr: int,
                   ghost p: seq<bool>)
    returns (ptr: int)
    requires bs.Length == 64 == cond.Length && bs != cond && bits != cond && bits != bs && |p| == 4096
    requires Words64(bs[..]) && Bytes(bits[..]) && bits.Length >= 5888
    requires cond_ptr == Ptr(rev, if first then 0 else 17)
    requires Crossed(bs[..]) == Run(p, bits[..], rev, if first then 0 else 17)
    modifies bs, cond
    ensures Words64(bs[..]) && Words64(cond[..])
    ensures Crossed(bs[..]) == Run(p, bits[..], rev, if first then 6 else 23)
    ensures ptr == Ptr(rev, if first then 6 else 23)
  {
    hide Crossed, Run, Layer, BitsFrom, Words64, Pow2, Bytes;
    ptr := cond_ptr;
    ghost var t0 := if first then 0 else 17;
    for k := 0 to 6
      invariant Words64(bs[..]) && (k > 0 ==> Words64(cond[..]))
      invariant ptr == Ptr(rev, t0 + k) && Crossed(bs[..]) == Run(p, bits[..], rev, t0 + k)
    {
      var low := if first then k else 5 - k;
      RunNext(p, bits[..], rev, t0 + k);
      LowRound(bs, cond, bits, ptr, low);
      ptr := ptr + if rev then -256 else 256;
    }
  }

  /** The two middle loops: distances 64 to 2048 and back to 64. */
  method HighRounds(bs: array<int>, cond: array<int>, bits: array<int>, rev: bool, cond_ptr: int, ghost p: seq<bool>)
    returns (ptr: int)
    requires bs.Length == 64 == cond.Length && bs != cond && bits != cond && bits != bs && |p| == 4096
    requires Words64(bs[..]) && Words64(cond[..]) && Bytes(bits[..]) && bits.Length >= 5888
    requires cond_ptr == Ptr(rev, 6) && Plain(bs[..]) == Run(p, bits[..], rev, 6)
    modifies bs, cond
    ensures Words64(bs[..])
    ensures Plain(bs[..]) == Run(p, bits[..], rev, 17) && ptr == Ptr(rev, 17)
  {
    hide Plain, Run, Layer, BitsFrom, Words64, Pow2, Bytes;
    ptr := cond_ptr;
    for low := 0 to 6
      invariant Words64(bs[..]) && Words64(cond[..])
      invariant ptr == Ptr(rev, 6 + low) && Plain(bs[..]) == Run(p, bits[..], rev, 6 + low)
    {
      RunNext(p, bits[..], rev, 6 + low);
      HighRound(bs, cond, bits, ptr, low);
      ptr := ptr + if rev then -256 else 256;
    }
    var low := 4;
    while low >= 0
      invariant -1 <= low <= 4 && Words64(bs[..]) && Words64(cond[..])
      invariant ptr == Ptr(rev, 16 - low) && Plain(bs[..]) == Run(p, bits[..], rev, 16 - low)
    {
      RunNext(p, bits[..], rev, 16 - low);
      HighRound(bs, cond, bits, ptr, low);
      ptr := ptr + if rev then -256 else 256;
      low := low - 1;
    }
  }

  // ---------- apply_benes ----------

  /** The loop over load8. */
  method LoadData(bs: array<int>, r: array<int>, base: nat)
    requires bs.Length == 64 && bs != r && Bytes(r[..]) && base + 512 <= r.Length
    modifies bs
    ensures Words64(bs[..]) && Plain(bs[..]) == BitsFrom(r[..], base, 4096)
  {
    hide LoadedAt, BitsFrom, Bit, Bytes;
    LoadWords(bs, r, base, 8, 64);
    WordsLoaded(bs[..], r[..], base, 8, 64);
    forall x | 0 <= x < 4096
      ensures Plain(bs[..])[x] == BitsFrom(r[..], base, 4096)[x]
    {
      PlainLoad(bs[..], r[..], base, 64, x);
    }
  }

  /** The loop over store8. */
  method StoreData(bs: array<int>, r: array<int>, base: nat)
    requires bs.Length == 64 && bs != r && Words64(bs[..]) && Bytes(r[..]) && base + 512 <= r.Length
    modifies r
    ensures Bytes(r[..]) && BitsFrom(r[..], base, 4096) == Plain(bs[..])
    ensures forall j :: 0 <= j < r.Length && (j < base || j >= base + 512) ==> r[j] == old(r[j])
  {
    hide ByteOf, Bit, BitsFrom, Plain;
    for i := 0 to 64
      invariant Bytes(r[..])
      invariant forall j :: 0 <= j < r.Length ==>
        r[j] == if base <= j < base + 8 * i then ByteOf(bs[(j - base) / 8], (j - base) % 8) else old(r[j])
    {
      Store8(r, base + i * 8, bs[i]);
    }
    forall x | 0 <= x < 4096
      ensures BitsFrom(r[..], base, 4096)[x] == Plain(bs[..])[x]
    {
      StoredBit(r[..], base, bs[..], x);
    }
  }

  lemma PlainAt(bs: seq<int>, x: nat)
    requires |bs| == 64 && Words64(bs) && x < 4096
    ensures 0 <= bs[x / 64] && Plain(bs)[x] == Bit(bs[x / 64], x % 64)
  {
    hide Bit;
  }

  lemma StoredBit(r: seq<int>, base: nat, bs: seq<int>, x: nat)
    requires Bytes(r) && base + 512 <= |r| && |bs| == 64 && Words64(bs) && x < 4096
    requires r[base + x / 8] == ByteOf(bs[x / 64], x / 8 % 8)
    ensures BitsFrom(r, base, 4096)[x] == Plain(bs)[x]
  {
    hide ByteOf, Bit;
    hide BitsFrom;
    BitsFromAt(r, base, 4096, x);
    PlainAt(bs, x);
    assert (8 * base + x) / 8 == base + x / 8 && (8 * base + x) % 8 == x % 8;
    ByteBit(bs[x / 64], x / 8 % 8, x % 8);
    assert 8 * (x / 8 % 8) + x % 8 == x % 64;
  }

  /** apply_benes: the scalar network of the control bits, forwards (rev = 0) or backwards, on the bits of
      r[base..base+512]; the other bytes stay. */
  method ApplyBenes(r: array<int>, base: nat, bits: array<int>, rev: bool)
    requires r != bits && Bytes(r[..]) && base + 512 <= r.Length
    requires Bytes(bits[..]) && bits.Length >= 5888
    modifies r
    ensures Bytes(r[..])
    ensures BitsFrom(r[..], base, 4096) == Run(old(BitsFrom(r[..], base, 4096)), bits[..], rev, 23)
    ensures forall j :: 0 <= j < r.Length && (j < base || j >= base + 512) ==> r[j] == old(r[j])
  {
    hide Run, BitsFrom, Plain, Crossed, Bytes, Words64;
    var bs, cond := new int[64], new int[64];
    ghost var p := BitsFrom(r[..], base, 4096);
    LoadData(bs, r, base);
    var cond_ptr := if rev then (2 * 12 - 2) * 256 else 0;
    RunStart(p, bits[..], rev);
    Turn(bs);
    cond_ptr := LowRounds(bs, cond, bits, rev, true, cond_ptr, p);
    Turn(bs);
    cond_ptr := HighRounds(bs, cond, bits, rev, cond_ptr, p);
    Turn(bs);
    cond_ptr := LowRounds(bs, cond, bits, rev, false, cond_ptr, p);
    Turn(bs);
    StoreData(bs, r, base);
  }

  /** transpose_64x64(bs, bs) */
  method Turn(bs: array<int>)
    requires bs.Length == 64 && Words64(bs[..])
    modifies bs
    ensures Words64(bs[..])
    ensures Plain(bs[..]) == old(Crossed(bs[..])) && Crossed(bs[..]) == old(Plain(bs[..]))
  {
    hide Plain, Crossed, Words64;
    ghost var was := bs[..];
    Transpose64(bs, bs);
    TransposedReading(bs[..], was);
    TransposedWords(bs[..], was);
  }

  lemma TransposedWords(t: seq<int>, p: seq<int>)
    requires IsTranspose(t, p)
    ensures Words64(t)
  {
  }

  lemma RunStart(p: seq<bool>, bits: seq<int>, rev: bool)
    requires |p| == 4096 && Bytes(bits) && |bits| >= 5888
    ensures Run(p, bits, rev, 0) == p
  {
  }
}
