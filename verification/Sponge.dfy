/** The Keccak sponge of fips202.c: the incremental interface and the one-shot interface, over a given permutation. */
module Sponge {
  import opened Bits
  import opened Chunks
  import opened OutBits
  import opened LittleEndian
  import opened Transpose

  type Words = seq<nat>

  /** Keccak-f, which is given. */
  datatype Keccak = Keccak(permute: Words -> Words)

  /** The permutation maps 25 words to 25 words; nothing else about it matters. */
  ghost predicate Permutation(f: Keccak) {
    forall s :: |s| == 25 && Words64(s) ==> |f.permute(s)| == 25 && Words64(f.permute(s))
  }

  ghost predicate State(s: Words) { |s| == 25 && Words64(s) }

  ghost predicate Rate(r: nat) { 0 < r <= 200 && r % 8 == 0 }

  // ---------- bytes in words ----------

  /** s[k >> 3] ^= (uint64_t)b << (8 * (k & 7)) */
  function XorByte(s: Words, k: nat, b: int): Words
    requires k / 8 < |s| && 0 <= b
  {
    s[k / 8 := Xor(s[k / 8], Shl(b, 8 * (k % 8)))]
  }

  lemma XorByteState(s: Words, k: nat, b: int)
    requires State(s) && k < 200 && 0 <= b < 256
    ensures State(XorByte(s, k, b))
  {
    hide Xor, Shl;
    ShiftedByte(b, k % 8);
    Pow2Values();
    XorBound(s[k / 8], Shl(b, 8 * (k % 8)), 64);
  }

  lemma ShiftedByte(b: nat, q: nat)
    requires b < 256 && q < 8
    ensures Shl(b, 8 * q) < U64
  {
    Pow2Values();
    Pow2Add(8, 8 * q);
    Pow2Mono(8 * q + 8, 64);
    MulLe(Pow2(8 * q), b, 255);
  }

  /** Message bytes xored into the state from byte k on. */
  function XorBytes(s: Words, k: nat, m: seq<int>): (t: Words)
    requires |s| == 25 && k + |m| <= 200 && Bytes(m) && Words64(s)
    ensures |t| == 25 && Words64(t)
  {
    if m == [] then s
    else
      var t := XorBytes(s, k, m[..|m| - 1]);
      XorByteState(t, k + |m| - 1, m[|m| - 1]);
      XorByte(t, k + |m| - 1, m[|m| - 1])
  }

  lemma XorBytesNone(s: Words, k: nat)
    requires State(s) && k <= 200
    ensures XorBytes(s, k, []) == s
  {
  }

  lemma XorBytesLast(s: Words, k: nat, m: seq<int>, b: int)
    requires State(s) && k + |m| < 200 && Bytes(m) && 0 <= b < 256
    ensures Bytes(m + [b]) && XorBytes(s, k, m + [b]) == XorByte(XorBytes(s, k, m), k + |m|, b)
  {
    hide XorByte, Words64;
    assert (m + [b])[..|m|] == m;
  }

  lemma {:induction false} XorBytesConcat(s: Words, k: nat, m: seq<int>, n: seq<int>)
    requires State(s) && k + |m| + |n| <= 200 && Bytes(m) && Bytes(n)
    ensures Bytes(m + n) && XorBytes(s, k, m + n) == XorBytes(XorBytes(s, k, m), k + |m|, n)
  {
    hide XorByte;
    if n == [] {
      assert m + n == m;
    } else {
      var i := |n| - 1;
      assert (m + n)[..|m| + i] == m + n[..i];
      XorBytesConcat(s, k, m, n[..i]);
    }
  }

  /** Byte k of the state. */
  function StateByte(s: Words, k: nat): (b: nat)
    requires k / 8 < |s|
    ensures b < 256
  {
    ByteOf(s[k / 8], k % 8)
  }

  lemma XorByteBit(w: nat, b: nat, q: nat, p: nat, i: nat)
    requires b < 256 && q < 8 && p < 8 && i < 8
    ensures Bit(Xor(w, Shl(b, 8 * q)), 8 * p + i) == (Bit(w, 8 * p + i) != (p == q && Bit(b, i)))
  {
    hide Bit, Xor, Shl;
    XorBit(w, Shl(b, 8 * q), 8 * p + i);
    BitShl(b, 8 * q, 8 * p + i);
    if p > q {
      SmallPowers();
      BitHigh(b, 8, 8 * p + i - 8 * q);
    }
  }

  /** Xoring a byte changes that byte of the state and no other. */
  lemma {:induction false} XorByteAt(s: Words, k: nat, b: int, j: nat)
    requires State(s) && k < 200 && j < 200 && 0 <= b < 256
    ensures State(XorByte(s, k, b))
    ensures StateByte(XorByte(s, k, b), j) == if j == k then Xor(StateByte(s, k), b) else StateByte(s, j)
  {
    hide Bit, Xor, Shl, ByteOf;
    XorByteState(s, k, b);
    var t := XorByte(s, k, b);
    SmallPowers();
    var want := if j == k then Xor(StateByte(s, k), b) else StateByte(s, j);
    XorBound(StateByte(s, k), b, 8);
    if j / 8 == k / 8 {
      forall i | 0 <= i < 8
        ensures Bit(StateByte(t, j), i) == Bit(want, i)
      {
        ByteBit(t[j / 8], j % 8, i);
        ByteBit(s[j / 8], j % 8, i);
        XorByteBit(s[k / 8], b, k % 8, j % 8, i);
        XorBit(StateByte(s, k), b, i);
      }
      BitExt(StateByte(t, j), want, 8);
    }
  }

  // ---------- load64 ----------

  /** The value of the first n bytes, as load64 collects it. */
  function Load64(x: seq<int>, n: nat): (v: nat)
    requires Bytes(x) && n <= |x| && n <= 8
  {
    if n == 0 then 0 else Or(Load64(x, n - 1), Shl(x[n - 1], 8 * (n - 1)))
  }

  lemma Load64Bound(x: seq<int>, n: nat)
    requires Bytes(x) && n <= |x| && n <= 8
    ensures Load64(x, n) < Pow2(8 * n)
  {
    hide Or, Shl;
    if n > 0 {
      Load64Bound(x, n - 1);
      Pow2Mono(8 * (n - 1), 8 * n);
      TopByte(x[n - 1], n - 1);
      OrBound(Load64(x, n - 1), Shl(x[n - 1], 8 * (n - 1)), 8 * n);
    }
  }

  lemma TopByte(b: nat, q: nat)
    requires b < 256
    ensures Shl(b, 8 * q) < Pow2(8 * q + 8)
  {
    SmallPowers();
    Pow2Add(8, 8 * q);
    MulLe(Pow2(8 * q), b, 255);
  }

  /** Disjoint words: | is ^. */
  lemma OrIsXor(a: nat, b: nat, k: nat, w: nat)
    requires k <= w && a < Pow2(k) && Shl(b, k) < Pow2(w)
    ensures Or(a, Shl(b, k)) == Xor(a, Shl(b, k))
  {
    hide Bit, Or, Xor, Shl;
    Pow2Mono(k, w);
    OrBound(a, Shl(b, k), w);
    XorBound(a, Shl(b, k), w);
    forall i | 0 <= i < w
      ensures Bit(Or(a, Shl(b, k)), i) == Bit(Xor(a, Shl(b, k)), i)
    {
      OrBit(a, Shl(b, k), i);
      XorBit(a, Shl(b, k), i);
      BitShl(b, k, i);
      if i >= k {
        BitHigh(a, k, i);
      }
    }
    BitExt(Or(a, Shl(b, k)), Xor(a, Shl(b, k)), w);
  }

  /** Xoring the loaded word is xoring its bytes one by one. */
  lemma {:induction false} XorLoad(s: Words, i: nat, x: seq<int>, n: nat)
    requires State(s) && i < 25 && Bytes(x) && n <= |x| && n <= 8
    ensures XorBytes(s, 8 * i, x[..n]) == s[i := Xor(s[i], Load64(x, n))]
  {
    hide Or, Xor, Shl;
    if n == 0 {
      XorZero(s[i]);
    } else {
      XorLoad(s, i, x, n - 1);
      assert x[..n][..n - 1] == x[..n - 1];
      var k := 8 * i + (n - 1);
      assert k / 8 == i && k % 8 == n - 1;
      Load64Bound(x, n - 1);
      TopByte(x[n - 1], n - 1);
      OrIsXor(Load64(x, n - 1), x[n - 1], 8 * (n - 1), 8 * n);
      XorAssoc(s[i], Load64(x, n - 1), Shl(x[n - 1], 8 * (n - 1)));
    }
  }

  /** load64 */
  method LoadWord(x: array<nat>, base: nat) returns (v: nat)
    requires Bytes(x[..]) && base + 8 <= x.Length
    ensures Bytes(x[base..base + 8]) && v == Load64(x[base..base + 8], 8)
  {
    v := 0;
    for i := 0 to 8
      invariant v == Load64(x[base..base + 8], i)
    {
      v := Or(v, Shl(x[base + i], 8 * i));
    }
  }

  // ---------- the sponge ----------

  function ZeroState(): (s: Words)
    ensures State(s)
  {
    seq(25, _ => 0)
  }

  /** The state after the full blocks M. */
  ghost function Absorbed(f: Keccak, r: nat, M: seq<int>): (s: Words)
    requires Permutation(f) && Rate(r) && Bytes(M) && |M| % r == 0
    ensures State(s)
    decreases |M|
  {
    if |M| == 0 then ZeroState()
    else
      ShorterBlocks(|M|, r);
      f.permute(XorBytes(Absorbed(f, r, M[..|M| - r]), 0, M[|M| - r..]))
  }

  lemma ShorterBlocks(n: nat, r: nat)
    requires r > 0 && n > 0 && n % r == 0
    ensures n >= r && (n - r) % r == 0
  {
    DivBasics(n, r);
    DivUnique(n - r, r, n / r - 1, 0);
    if n < r {
      DivUnique(n, r, 0, n);
    }
  }

  /** The message bytes behind the last full block. */
  ghost function Rest(M: seq<int>, r: nat): (m: seq<int>)
    requires Rate(r) && Bytes(M)
    ensures |m| == |M| % r < r && Bytes(m)
  {
    FullBlocks(|M|, r);
    M[|M| - |M| % r..]
  }

  /** The state after the full blocks of M. */
  ghost function Base(f: Keccak, r: nat, M: seq<int>): (s: Words)
    requires Permutation(f) && Rate(r) && Bytes(M)
    ensures State(s)
  {
    FullBlocks(|M|, r);
    Absorbed(f, r, M[..|M| - |M| % r])
  }

  /** The state while message M is being absorbed: full blocks permuted, the rest xored in. */
  ghost function Partial(f: Keccak, r: nat, M: seq<int>): (s: Words)
    requires Permutation(f) && Rate(r) && Bytes(M)
    ensures State(s)
  {
    XorBytes(Base(f, r, M), 0, Rest(M, r))
  }

  lemma FullBlocks(n: nat, r: nat)
    requires r > 0
    ensures n % r < r && n % r <= n && (n - n % r) % r == 0
  {
    DivBasics(n, r);
    DivUnique(n - n % r, r, n / r, 0);
  }

  lemma AddBelow(n: nat, d: nat, r: nat)
    requires r > 0 && n % r + d < r
    ensures (n + d) % r == n % r + d
  {
    DivBasics(n, r);
    DivUnique(n + d, r, n / r, n % r + d);
  }

  lemma AddToBlock(n: nat, d: nat, r: nat)
    requires r > 0 && n % r + d == r
    ensures (n + d) % r == 0
  {
    DivBasics(n, r);
    DivUnique(n + d, r, n / r + 1, 0);
  }

  lemma RestMore(f: Keccak, r: nat, M: seq<int>, m: seq<int>)
    requires Permutation(f) && Rate(r) && Bytes(M) && Bytes(m) && |M| % r + |m| < r
    ensures |M + m| % r == |M| % r + |m| && Bytes(M + m)
    ensures Rest(M + m, r) == Rest(M, r) + m && Base(f, r, M + m) == Base(f, r, M)
  {
    hide Absorbed, Words64, Permutation;
    AddBelow(|M|, |m|, r);
    FullBlocks(|M|, r);
    var k := |M| % r;
    assert (M + m)[..|M + m| - (k + |m|)] == M[..|M| - k];
    assert (M + m)[|M + m| - (k + |m|)..] == M[|M| - k..] + m;
  }

  /** More bytes that do not complete the block. */
  lemma {:induction false} PartialMore(f: Keccak, r: nat, M: seq<int>, m: seq<int>)
    requires Permutation(f) && Rate(r) && Bytes(M) && Bytes(m) && |M| % r + |m| < r
    ensures |M + m| % r == |M| % r + |m| && Bytes(M + m)
    ensures Partial(f, r, M + m) == XorBytes(Partial(f, r, M), |M| % r, m)
  {
    hide XorBytes, Base, Rest, Words64, Permutation, Bytes;
    RestMore(f, r, M, m);
    XorBytesConcat(Base(f, r, M), 0, Rest(M, r), m);
  }

  lemma PartialIs(f: Keccak, r: nat, M: seq<int>)
    requires Permutation(f) && Rate(r) && Bytes(M)
    ensures Partial(f, r, M) == XorBytes(Base(f, r, M), 0, Rest(M, r))
  {
  }

  lemma BlockOf(f: Keccak, r: nat, M: seq<int>, m: seq<int>)
    requires Permutation(f) && Rate(r) && Bytes(M) && Bytes(m) && |M| % r + |m| == r
    ensures |M + m| % r == 0 && Bytes(M + m) && |M + m| >= r && (|M + m| - r) % r == 0
    ensures (M + m)[|M + m| - r..] == Rest(M, r) + m
    ensures Absorbed(f, r, (M + m)[..|M + m| - r]) == Base(f, r, M)
  {
    hide Absorbed, Words64, Permutation;
    AddToBlock(|M|, |m|, r);
    FullBlocks(|M|, r);
    var k := |M| % r;
    assert (M + m)[..|M + m| - r] == M[..|M| - k];
    assert (M + m)[|M + m| - r..] == M[|M| - k..] + m;
  }

  /** Bytes that complete the block, followed by the permutation. */
  lemma {:induction false} PartialBlock(f: Keccak, r: nat, M: seq<int>, m: seq<int>)
    requires Permutation(f) && Rate(r) && Bytes(M) && Bytes(m) && |M| % r + |m| == r
    ensures |M + m| % r == 0 && Bytes(M + m)
    ensures Partial(f, r, M + m) == f.permute(XorBytes(Partial(f, r, M), |M| % r, m))
  {
    hide XorBytes, Absorbed, Base, Rest, Words64, Bytes, Partial, Permutation;
    BlockOf(f, r, M, m);
    PartialIs(f, r, M);
    XorBytesConcat(Base(f, r, M), 0, Rest(M, r), m);
    PartialFull(f, r, M + m);
    AbsorbedStep(f, r, M + m);
  }

  lemma AbsorbedStep(f: Keccak, r: nat, N: seq<int>)
    requires Permutation(f) && Rate(r) && Bytes(N) && |N| % r == 0 && |N| > 0
    ensures |N| >= r && (|N| - r) % r == 0
    ensures Absorbed(f, r, N) == f.permute(XorBytes(Absorbed(f, r, N[..|N| - r]), 0, N[|N| - r..]))
  {
    hide XorBytes, Permutation, Bytes, Words64;
    ShorterBlocks(|N|, r);
  }

  lemma PartialFull(f: Keccak, r: nat, N: seq<int>)
    requires Permutation(f) && Rate(r) && Bytes(N) && |N| % r == 0
    ensures Partial(f, r, N) == Absorbed(f, r, N)
  {
    hide Absorbed;
    assert N[..|N| - 0] == N;
    assert N[|N| - 0..] == [];
  }

  // ---------- the incremental interface ----------

  /** s_inc holds the absorbed message M: 25 state words and, as word 26, the number of bytes of the open block. */
  ghost predicate Absorbing(s_inc: Words, f: Keccak, r: nat, M: seq<int>) {
    && Permutation(f) && Rate(r) && Bytes(M) && |s_inc| == 26
    && s_inc[..25] == Partial(f, r, M) && s_inc[25] == |M| % r
  }

  /** KeccakF1600_StatePermute */
  method Permute(s: array<nat>, f: Keccak)
    requires Permutation(f) && s.Length >= 25 && Words64(s[..25])
    modifies s
    ensures s[..25] == f.permute(old(s[..25])) && s[25..] == old(s[25..])
  {
    var t := f.permute(s[..25]);
    for i := 0 to 25
      invariant s[..i] == t[..i] && s[25..] == old(s[25..])
    {
      s[i] := t[i];
    }
  }

  /** keccak_inc_init */
  method IncInit(s_inc: array<nat>, ghost f: Keccak, ghost r: nat)
    requires s_inc.Length == 26 && Permutation(f) && Rate(r)
    modifies s_inc
    ensures Absorbing(s_inc[..], f, r, [])
  {
    for i := 0 to 25
      invariant forall k :: 0 <= k < i ==> s_inc[k] == 0
    {
      s_inc[i] := 0;
    }
    s_inc[25] := 0;
    DivUnique(0, r, 0, 0);
    assert s_inc[..][..25] == ZeroState();
  }

  /** The loops that xor message bytes into the state from byte pos on. */
  method XorIn(s_inc: array<nat>, m: array<nat>, off: nat, n: nat, pos: nat)
    requires s_inc != m && s_inc.Length >= 25 && Words64(s_inc[..25]) && pos + n <= 200
    requires Bytes(m[..]) && off + n <= m.Length
    modifies s_inc
    ensures Bytes(m[off..off + n]) && s_inc[..25] == XorBytes(old(s_inc[..25]), pos, m[off..off + n])
    ensures s_inc[25..] == old(s_inc[25..])
  {
    hide Xor, Shl, XorBytes, Words64;
    ghost var s := s_inc[..25];
    XorBytesNone(s, pos);
    assert m[off..off + 0] == [];
    for i := 0 to n
      invariant s_inc[..25] == XorBytes(s, pos, m[off..off + i]) && s_inc[25..] == old(s_inc[25..])
    {
      ghost var t := s_inc[..25];
      XorBytesLast(s, pos, m[off..off + i], m[off + i]);
      assert m[off..off + i] + [m[off + i]] == m[off..off + i + 1];
      s_inc[(pos + i) / 8] := Xor(s_inc[(pos + i) / 8], Shl(m[off + i], 8 * ((pos + i) % 8)));
      assert s_inc[..25] == XorByte(t, pos + i, m[off + i]);
    }
  }

  /** One round of the first loop of keccak_inc_absorb: n bytes complete the block. */
  method FinishBlock(s_inc: array<nat>, r: nat, m: array<nat>, off: nat, n: nat, f: Keccak, ghost N: seq<int>)
    requires s_inc != m && s_inc.Length == 26 && Absorbing(s_inc[..], f, r, N) && Bytes(m[..])
    requires off + n <= m.Length && s_inc[25] + n == r
    modifies s_inc
    ensures Absorbing(s_inc[..], f, r, N + m[off..off + n])
  {
    hide XorBytes, Partial, Bytes;
    AbsorbingState(s_inc[..], f, r, N);
    assert s_inc[..][..25] == s_inc[..25];
    XorIn(s_inc, m, off, n, s_inc[25]);
    PartialBlock(f, r, N, m[off..off + n]);
    s_inc[25] := 0;
    Permute(s_inc, f);
    assert s_inc[..][..25] == s_inc[..25];
    assert s_inc[25] == s_inc[25..][0];
  }

  /** The last loop of keccak_inc_absorb: n bytes that leave the block open. */
  method OpenBlock(s_inc: array<nat>, r: nat, m: array<nat>, off: nat, n: nat, f: Keccak, ghost N: seq<int>)
    requires s_inc != m && s_inc.Length == 26 && Absorbing(s_inc[..], f, r, N) && Bytes(m[..])
    requires off + n <= m.Length && s_inc[25] + n < r
    modifies s_inc
    ensures Absorbing(s_inc[..], f, r, N + m[off..off + n])
  {
    hide XorBytes, Partial, Bytes;
    AbsorbingState(s_inc[..], f, r, N);
    assert s_inc[..][..25] == s_inc[..25];
    ghost var pos := s_inc[25];
    XorIn(s_inc, m, off, n, s_inc[25]);
    assert s_inc[25] == s_inc[25..][0] == pos;
    PartialMore(f, r, N, m[off..off + n]);
    s_inc[25] := s_inc[25] + n;
    assert s_inc[..][..25] == s_inc[..25];
  }

  /** keccak_inc_absorb */
  method IncAbsorb(s_inc: array<nat>, r: nat, m: array<nat>, f: Keccak, ghost M: seq<int>)
    requires s_inc != m && s_inc.Length == 26 && Absorbing(s_inc[..], f, r, M) && Bytes(m[..])
    modifies s_inc
    ensures Absorbing(s_inc[..], f, r, M + m[..])
  {
    hide Absorbing, Bytes;
    var off: nat, mlen: nat := 0, m.Length;
    assert M + m[..0] == M;
    AbsorbingPos(s_inc[..], f, r, M);
    while mlen + s_inc[25] >= r
      invariant off + mlen == m.Length
      invariant Absorbing(s_inc[..], f, r, M + m[..off]) && 0 <= s_inc[25] < r
      decreases mlen
    {
      var n := r - s_inc[25];
      FinishBlock(s_inc, r, m, off, n, f, M + m[..off]);
      assert M + m[..off] + m[off..off + n] == M + m[..off + n];
      mlen := mlen - n;
      off := off + n;
      AbsorbingPos(s_inc[..], f, r, M + m[..off]);
    }
    OpenBlock(s_inc, r, m, off, mlen, f, M + m[..off]);
    assert M + m[..off] + m[off..off + mlen] == M + m[..];
  }

  lemma AbsorbingPos(s: Words, f: Keccak, r: nat, M: seq<int>)
    requires Absorbing(s, f, r, M)
    ensures |s| == 26 && 0 <= s[25] < r
  {
    FullBlocks(|M|, r);
  }

  lemma AbsorbingState(s: Words, f: Keccak, r: nat, M: seq<int>)
    requires Absorbing(s, f, r, M)
    ensures State(s[..25]) && Permutation(f) && Rate(r) && Bytes(M)
  {
  }

  // ---------- states are determined by their bytes ----------

  lemma {:induction false} StateExt(a: Words, b: Words)
    requires State(a) && State(b) && forall j :: 0 <= j < 200 ==> StateByte(a, j) == StateByte(b, j)
    ensures a == b
  {
    hide ByteOf, Bit;
    Pow2Values();
    forall w | 0 <= w < 25
      ensures a[w] == b[w]
    {
      forall x | 0 <= x < 64
        ensures Bit(a[w], x) == Bit(b[w], x)
      {
        var j := 8 * w + x / 8;
        assert j / 8 == w && j % 8 == x / 8;
        assert StateByte(a, j) == StateByte(b, j);
        ByteBit(a[w], x / 8, x % 8);
        ByteBit(b[w], x / 8, x % 8);
      }
      BitExt(a[w], b[w], 64);
    }
  }

  lemma {:induction false} XorBytesAt(s: Words, k: nat, m: seq<int>, j: nat)
    requires State(s) && k + |m| <= 200 && Bytes(m) && j < 200
    ensures StateByte(XorBytes(s, k, m), j) ==
            if k <= j < k + |m| then Xor(StateByte(s, j), m[j - k]) else StateByte(s, j)
  {
    hide XorByte, Xor, StateByte;
    if m != [] {
      var n := |m| - 1;
      XorBytesAt(s, k, m[..n], j);
      XorByteAt(XorBytes(s, k, m[..n]), k + n, m[n], j);
    }
  }

  // ---------- finalisation ----------

  /** The state after keccak_inc_finalize. */
  ghost function Finalized(f: Keccak, r: nat, M: seq<int>, p: nat): (s: Words)
    requires Permutation(f) && Rate(r) && Bytes(M) && p < 256
    ensures State(s)
  {
    FullBlocks(|M|, r);
    XorByteState(Partial(f, r, M), |M| % r, p);
    var t := XorByte(Partial(f, r, M), |M| % r, p);
    XorByteState(t, r - 1, 128);
    XorByte(t, r - 1, 128)
  }

  lemma FinalizedIs(f: Keccak, r: nat, M: seq<int>, p: nat)
    requires Permutation(f) && Rate(r) && Bytes(M) && p < 256
    ensures |M| % r < r
    ensures Finalized(f, r, M, p) == XorByte(XorByte(Partial(f, r, M), |M| % r, p), r - 1, 128)
  {
    hide XorByte, Partial, Words64;
    FullBlocks(|M|, r);
  }

  /** s_inc[k >> 3] ^= (uint64_t)b << (8 * (k & 7)) */
  method XorOneByte(s_inc: array<nat>, k: nat, b: nat)
    requires s_inc.Length == 26 && State(s_inc[..25]) && k < 200 && b < 256
    modifies s_inc
    ensures s_inc[..25] == XorByte(old(s_inc[..25]), k, b) && State(s_inc[..25]) && s_inc[25] == old(s_inc[25])
  {
    hide Xor, Shl, Words64;
    ghost var s := s_inc[..25];
    XorByteState(s, k, b);
    s_inc[k / 8] := Xor(s_inc[k / 8], Shl(b, 8 * (k % 8)));
    assert s_inc[..25] == XorByte(s, k, b);
  }

  /** keccak_inc_finalize */
  method IncFinalize(s_inc: array<nat>, r: nat, p: nat, f: Keccak, ghost M: seq<int>)
    requires s_inc.Length == 26 && Absorbing(s_inc[..], f, r, M) && p < 256
    modifies s_inc
    ensures s_inc[..25] == Finalized(f, r, M, p) && s_inc[25] == 0
  {
    hide XorByte, Partial, Words64, Bytes, Permutation, Finalized;
    AbsorbingPos(s_inc[..], f, r, M);
    AbsorbingState(s_inc[..], f, r, M);
    FinalizedIs(f, r, M, p);
    assert s_inc[..][..25] == s_inc[..25];
    XorOneByte(s_inc, s_inc[25], p);
    XorOneByte(s_inc, r - 1, 128);
    ghost var t := s_inc[..25];
    s_inc[25] := 0;
    assert s_inc[..25] == t;
  }

  /** The last block t of keccak_absorb: the rest of the message, p, zeros, and the top bit of the last byte set. */
  function LastBlock(rest: seq<int>, p: nat, r: nat): (t: seq<int>)
    requires |rest| < r && p < 256
    ensures |t| == r
  {
    var t := rest + [p] + seq(r - 1 - |rest|, _ => 0);
    if t[r - 1] >= 0 then t[r - 1 := Or(t[r - 1], 128)] else t
  }

  /** Byte j of the padding below the top bit. */
  function PadByte(rest: seq<int>, p: nat, j: nat): int {
    if j < |rest| then rest[j] else if j == |rest| then p else 0
  }

  lemma LastBlockBytes(rest: seq<int>, p: nat, r: nat)
    requires |rest| < r && p < 256 && Bytes(rest)
    ensures Bytes(LastBlock(rest, p, r))
  {
    hide Or;
    var t := rest + [p] + seq(r - 1 - |rest|, _ => 0);
    SmallPowers();
    OrBound(t[r - 1], 128, 8);
  }

  lemma LastBlockAt(rest: seq<int>, p: nat, r: nat, j: nat)
    requires |rest| < r && p < 256 && Bytes(rest) && j < r
    ensures 0 <= PadByte(rest, p, j) < 256
    ensures LastBlock(rest, p, r)[j] == if j == r - 1 then Or(PadByte(rest, p, j), 128) else PadByte(rest, p, j)
  {
    hide Or;
  }

  /** The state after keccak_absorb. */
  ghost function OneShot(f: Keccak, r: nat, M: seq<int>, p: nat): (s: Words)
    requires Permutation(f) && Rate(r) && Bytes(M) && p < 256
    ensures State(s)
  {
    LastBlockBytes(Rest(M, r), p, r);
    XorBytes(Base(f, r, M), 0, LastBlock(Rest(M, r), p, r))
  }

  lemma {:induction false} FinalizedByte(f: Keccak, r: nat, M: seq<int>, p: nat, j: nat)
    requires Permutation(f) && Rate(r) && Bytes(M) && p < 256 && j < 200
    ensures PadByte(Rest(M, r), p, j) >= 0
    ensures var b := Xor(StateByte(Base(f, r, M), j), PadByte(Rest(M, r), p, j));
            StateByte(Finalized(f, r, M, p), j) == if j == r - 1 then Xor(b, 128) else b
  {
    hide Xor, XorByte, XorBytes, StateByte, Base, Rest, Words64, Bytes, Permutation;
    var A, rest := Base(f, r, M), Rest(M, r);
    RestByte(rest, p, j);
    XorBytesAt(A, 0, rest, j);
    var P := XorBytes(A, 0, rest);
    XorByteAt(P, |rest|, p, j);
    XorByteAt(XorByte(P, |rest|, p), r - 1, 128, j);
    XorZero(StateByte(A, j));
  }

  lemma RestByte(rest: seq<int>, p: nat, j: nat)
    requires Bytes(rest) && p < 256
    ensures 0 <= PadByte(rest, p, j) < 256
  {
  }

  lemma {:induction false} OneShotByte(f: Keccak, r: nat, M: seq<int>, p: nat, j: nat)
    requires Permutation(f) && Rate(r) && Bytes(M) && p < 256 && j < 200
    ensures 0 <= PadByte(Rest(M, r), p, j) < 256
    ensures var b := PadByte(Rest(M, r), p, j);
            StateByte(OneShot(f, r, M, p), j) == Xor(StateByte(Base(f, r, M), j), if j == r - 1 then Or(b, 128) else b)
  {
    hide Xor, Or, XorBytes, StateByte, Base, Rest, LastBlock, Words64;
    var A, rest := Base(f, r, M), Rest(M, r);
    RestByte(rest, p, j);
    LastBlockBytes(rest, p, r);
    XorBytesAt(A, 0, LastBlock(rest, p, r), j);
    if j < r {
      LastBlockAt(rest, p, r, j);
    } else {
      XorZero(StateByte(A, j));
    }
  }

  lemma OrXor128(p: nat)
    requires p < 256
    ensures Or(p, 128) == Xor(p, 128) <==> p < 128
    ensures Or(0, 128) == 128
  {
    hide Bit, Or, Xor;
    SmallPowers();
    assert Pow2(7) == 128;
    if p < 128 {
      OrIsXor(p, 1, 7, 8);
    } else {
      OrBit(p, 128, 7);
      XorBit(p, 128, 7);
      BitIsShift(p, 7);
      BitIsShift(128, 7);
    }
    OrComm0();
  }

  lemma OrComm0()
    ensures Or(0, 128) == 128
  {
  }

  lemma {:induction false} SamePadding(x: nat, b: nat, p: nat)
    requires b < 256 && p < 256 && (b == p || b == 0) && (b == p ==> p < 128)
    ensures Xor(x, Or(b, 128)) == Xor(Xor(x, b), 128)
  {
    hide Xor, Or;
    OrXor128(b);
    XorAssoc(x, b, 128);
  }

  lemma {:induction false} PaddingsSame(f: Keccak, r: nat, M: seq<int>, p: nat)
    requires Permutation(f) && Rate(r) && Bytes(M) && p < 256 && (p < 128 || |M| % r != r - 1)
    ensures OneShot(f, r, M, p) == Finalized(f, r, M, p)
  {
    hide Xor, Or, StateByte, Base, Rest, OneShot, Finalized, Words64, Bytes, Permutation;
    var a, b := OneShot(f, r, M, p), Finalized(f, r, M, p);
    forall j | 0 <= j < 200
      ensures StateByte(a, j) == StateByte(b, j)
    {
      FinalizedByte(f, r, M, p, j);
      OneShotByte(f, r, M, p, j);
      if j == r - 1 {
        SamePadding(StateByte(Base(f, r, M), j), PadByte(Rest(M, r), p, j), p);
      }
    }
    StateExt(a, b);
  }

  lemma {:induction false} PaddingsDiffer(f: Keccak, r: nat, M: seq<int>, p: nat)
    requires Permutation(f) && Rate(r) && Bytes(M) && 128 <= p < 256 && |M| % r == r - 1
    ensures OneShot(f, r, M, p) != Finalized(f, r, M, p)
  {
    hide Xor, Or, StateByte, Base, Rest, OneShot, Finalized, Words64, Bytes, Permutation;
    FinalizedByte(f, r, M, p, r - 1);
    OneShotByte(f, r, M, p, r - 1);
    var x := StateByte(Base(f, r, M), r - 1);
    OrXor128(p);
    XorAssoc(x, p, 128);
    XorCancel(x, Or(p, 128));
    XorCancel(x, Xor(p, 128));
  }

  /** The two ways of padding agree exactly when p leaves the top bit free or the block is not one byte short. */
  lemma {:induction false} PaddingsAgree(f: Keccak, r: nat, M: seq<int>, p: nat)
    requires Permutation(f) && Rate(r) && Bytes(M) && p < 256
    ensures OneShot(f, r, M, p) == Finalized(f, r, M, p) <==> (p < 128 || |M| % r != r - 1)
  {
    hide OneShot, Finalized, Permutation, Bytes;
    if p < 128 || |M| % r != r - 1 {
      PaddingsSame(f, r, M, p);
    } else {
      PaddingsDiffer(f, r, M, p);
    }
  }

  // ---------- keccak_absorb ----------

  /** s[i] ^= load64(x + 8 * i), for i < r / 8. */
  method XorLoaded(s: array<nat>, x: array<nat>, off: nat, r: nat)
    requires s != x && s.Length == 25 && Words64(s[..]) && Rate(r) && off + r <= x.Length && Bytes(x[..])
    modifies s
    ensures Bytes(x[off..off + r]) && s[..] == XorBytes(old(s[..]), 0, x[off..off + r])
  {
    hide Xor, XorBytes, Load64;
    ghost var S := s[..];
    assert x[off..off + 8 * 0] == [];
    XorNone(S);
    for i := 0 to r / 8
      invariant s[..] == XorBytes(S, 0, x[off..off + 8 * i])
    {
      var v := LoadWord(x, off + 8 * i);
      ghost var part, word := x[off..off + 8 * i], x[off + 8 * i..off + 8 * i + 8];
      assert part + word == x[off..off + 8 * (i + 1)];
      XorBytesConcat(S, 0, part, word);
      XorLoad(s[..], i, word, 8);
      assert word[..8] == word;
      s[i] := Xor(s[i], v);
    }
    assert x[off..off + 8 * (r / 8)] == x[off..off + r];
  }

  lemma XorNone(S: Words)
    requires State(S)
    ensures XorBytes(S, 0, []) == S
  {
  }

  /** The block t of the end of keccak_absorb. */
  method FillLast(t: array<nat>, m: array<nat>, off: nat, mlen: nat, p: nat, r: nat)
    requires t != m && t.Length == 200 && Rate(r) && Bytes(m[..]) && off + mlen == m.Length && mlen < r && p < 256
    modifies t
    ensures t[..r] == LastBlock(m[off..], p, r) && t[r..] == old(t[r..])
  {
    hide Or;
    for i := 0 to r
      invariant t[r..] == old(t[r..])
      invariant forall k :: 0 <= k < i ==> t[k] == 0
    {
      t[i] := 0;
    }
    for i := 0 to mlen
      invariant t[r..] == old(t[r..])
      invariant forall k :: 0 <= k < r ==> t[k] == if k < i then m[off + k] else 0
    {
      t[i] := m[off + i];
    }
    t[mlen] := p;
    t[r - 1] := Or(t[r - 1], 128);
  }

  /** keccak_absorb */
  method AbsorbOnce(s: array<nat>, r: nat, m: array<nat>, p: nat, f: Keccak)
    requires s != m && s.Length == 25 && Rate(r) && Permutation(f) && Bytes(m[..]) && p < 256
    modifies s
    ensures s[..] == OneShot(f, r, m[..], p)
  {
    hide XorBytes, Absorbed, LastBlock, Permutation, Bytes;
    for i := 0 to 25
      invariant forall k :: 0 <= k < i ==> s[k] == 0
    {
      s[i] := 0;
    }
    var off: nat, mlen: nat := 0, m.Length;
    AbsorbedNone(f, r);
    BytesPrefix(m[..], 0);
    assert m[..0] == [] && s[..] == ZeroState();
    while mlen >= r
      invariant off + mlen == m.Length && off % r == 0 && Bytes(m[..off])
      invariant s[..] == Absorbed(f, r, m[..off])
      decreases mlen
    {
      XorLoaded(s, m, off, r);
      NextBlock(off, r);
      BytesPrefix(m[..], off + r);
      assert m[..][..off + r] == m[..off + r];
      AbsorbedStep(f, r, m[..off + r]);
      assert m[..off + r][..off] == m[..off] && m[..off + r][off..] == m[off..off + r];
      assert s[..25] == s[..];
      Permute(s, f);
      assert s[..25] == s[..];
      mlen := mlen - r;
      off := off + r;
    }
    RestLength(off, mlen, r);
    assert m[..][..off] == m[..off] && m[..][off..] == m[off..];
    var t := new nat[200](_ => 0);
    ZeroBytes(t[r..]);
    FillLast(t, m, off, mlen, p, r);
    BytesSuffix(m[..], off);
    LastBlockBytes(m[off..], p, r);
    LoadPadded(t, r);
    XorLoaded(s, t, 0, r);
    assert t[0..0 + r] == t[..r];
  }

  /** The bytes of t behind the rate are never read; they are zero here. */
  lemma LoadPadded(t: array<nat>, r: nat)
    requires Rate(r) && t.Length == 200 && Bytes(t[..r]) && Bytes(t[r..])
    ensures Bytes(t[..])
  {
  }

  lemma ZeroBytes(s: seq<int>)
    requires forall i :: 0 <= i < |s| ==> s[i] == 0
    ensures Bytes(s)
  {
  }

  lemma AbsorbedNone(f: Keccak, r: nat)
    requires Permutation(f) && Rate(r)
    ensures 0 % r == 0 && Absorbed(f, r, []) == ZeroState()
  {
    DivUnique(0, r, 0, 0);
  }

  lemma NextBlock(n: nat, r: nat)
    requires r > 0 && n % r == 0
    ensures (n + r) % r == 0
  {
    AddToBlock(n, r, r);
  }

  lemma RestLength(off: nat, mlen: nat, r: nat)
    requires r > 0 && off % r == 0 && mlen < r
    ensures (off + mlen) % r == mlen
  {
    AddBelow(off, mlen, r);
  }

  lemma BytesPrefix(m: seq<int>, n: nat)
    requires Bytes(m) && n <= |m|
    ensures Bytes(m[..n])
  {
  }

  lemma BytesSuffix(m: seq<int>, n: nat)
    requires Bytes(m) && n <= |m|
    ensures Bytes(m[n..])
  {
  }

  // ---------- squeezing ----------

  ghost function Iterate(f: Keccak, s: Words, n: nat): (t: Words)
    requires Permutation(f) && State(s)
    ensures State(t)
  {
    if n == 0 then s else f.permute(Iterate(f, s, n - 1))
  }

  /** Byte n of the output that belongs to the finalised state s. */
  ghost function StreamByte(f: Keccak, r: nat, s: Words, n: nat): (b: nat)
    requires Permutation(f) && Rate(r) && State(s)
    ensures b < 256
  {
    StreamIndex(n, r);
    StateByte(Iterate(f, s, n / r + 1), n % r)
  }

  lemma StreamIndex(n: nat, r: nat)
    requires r > 0
    ensures n / r >= 0 && 0 <= n % r < r
  {
    DivBasics(n, r);
  }

  /** Output bytes from..from+len. */
  ghost function Stream(f: Keccak, r: nat, s: Words, from: nat, len: nat): (o: seq<int>)
    requires Permutation(f) && Rate(r) && State(s)
    ensures |o| == len
  {
    seq(len, i requires 0 <= i < len => StreamByte(f, r, s, from + i))
  }

  lemma StreamConcat(f: Keccak, r: nat, s: Words, a: nat, b: nat, c: nat)
    requires Permutation(f) && Rate(r) && State(s)
    ensures Stream(f, r, s, a, b) + Stream(f, r, s, a + b, c) == Stream(f, r, s, a, b + c)
  {
    hide StreamByte, Permutation, Words64;
  }

  lemma StreamByteIs(f: Keccak, r: nat, s: Words, n: nat, c: nat, i: nat)
    requires Permutation(f) && Rate(r) && State(s) && n == c * r + i && i < r
    ensures StreamByte(f, r, s, n) == StateByte(Iterate(f, s, c + 1), i)
  {
    hide StateByte, Iterate, Permutation, Words64;
    DivUnique(n, r, c, i);
  }

  /** n bytes have been squeezed out of the finalised state s, in c blocks; word 26 counts the bytes still unread. */
  ghost predicate Squeezing(s_inc: Words, f: Keccak, r: nat, s: Words, n: nat, c: nat) {
    && Permutation(f) && Rate(r) && State(s) && |s_inc| == 26
    && s_inc[..25] == Iterate(f, s, c) && s_inc[25] < r && n + s_inc[25] == c * r
  }

  lemma SqueezeStart(s_inc: Words, f: Keccak, r: nat, s: Words)
    requires |s_inc| == 26 && s_inc[..25] == s && s_inc[25] == 0 && Permutation(f) && Rate(r) && State(s)
    ensures Squeezing(s_inc, f, r, s, 0, 0)
  {
    assert 0 * r == 0;
  }

  /** The loops that copy n bytes of the current block, from byte first on. */
  method CopyOut(h: array<nat>, off: nat, n: nat, s_inc: array<nat>, first: nat)
    requires h != s_inc && s_inc.Length == 26 && off + n <= h.Length && first + n <= 200
    modifies h
    ensures forall k :: 0 <= k < h.Length ==>
      h[k] == if off <= k < off + n then StateByte(s_inc[..25], first + (k - off)) else old(h[k])
  {
    hide ByteOf;
    for i := 0 to n
      invariant forall k :: 0 <= k < h.Length ==>
        h[k] == if off <= k < off + i then StateByte(s_inc[..25], first + (k - off)) else old(h[k])
    {
      h[off + i] := ByteOf(s_inc[(first + i) / 8], (first + i) % 8);
    }
  }

  lemma Copied(h: seq<nat>, off: nat, n: nat, f: Keccak, r: nat, s: Words, base: nat, c: nat, first: nat)
    requires Permutation(f) && Rate(r) && State(s) && off + n <= |h| && first + n <= r && base == c * r + first
    requires forall k :: off <= k < off + n ==> h[k] == StateByte(Iterate(f, s, c + 1), first + (k - off))
    ensures h[off..off + n] == Stream(f, r, s, base, n)
  {
    hide StateByte, Iterate, Permutation, Words64, StreamByte;
    forall i | 0 <= i < n
      ensures h[off..off + n][i] == Stream(f, r, s, base, n)[i]
    {
      StreamByteIs(f, r, s, base + i, c, first + i);
    }
  }

  /** The first loop of keccak_inc_squeeze: bytes of the block still unread. */
  method SqueezeUnread(h: array<nat>, outlen: nat, s_inc: array<nat>, r: nat, ghost f: Keccak, ghost s: Words,
                       ghost n: nat, ghost c: nat)
    returns (i: nat)
    requires h != s_inc && s_inc.Length == 26 && Squeezing(s_inc[..], f, r, s, n, c) && outlen <= h.Length
    modifies h, s_inc
    ensures i <= outlen && (i < outlen ==> s_inc[25] == 0)
    ensures Squeezing(s_inc[..], f, r, s, n + i, c) && h[..][..i] == Stream(f, r, s, n, i)
    ensures forall k :: outlen <= k < h.Length ==> h[k] == old(h[k])
  {
    hide StateByte, Iterate, Permutation, Words64, Stream;
    var pos := s_inc[25];
    i := if outlen < pos then outlen else pos;
    CopyOut(h, 0, i, s_inc, r - pos);
    assert s_inc[..][..25] == s_inc[..25];
    if i > 0 {
      BlockBefore(n, pos, c, r);
      Copied(h[..], 0, i, f, r, s, n, c - 1, r - pos);
      assert h[..][0..0 + i] == h[..][..i];
    } else {
      StreamNone(f, r, s, n);
      assert h[..][..i] == [];
    }
    ghost var t := s_inc[..25];
    s_inc[25] := pos - i;
    assert s_inc[..][..25] == t;
  }

  lemma BlockBefore(n: nat, pos: nat, c: nat, r: nat)
    requires 0 < pos < r && n + pos == c * r
    ensures c > 0 && n == (c - 1) * r + (r - pos)
  {
    assert c != 0 by {
      assert 0 * r == 0;
    }
    assert (c - 1) * r == c * r - r;
  }

  lemma StreamNone(f: Keccak, r: nat, s: Words, n: nat)
    requires Permutation(f) && Rate(r) && State(s)
    ensures Stream(f, r, s, n, 0) == []
  {
  }

  /** The first off bytes of h are bytes n..n+off of the stream. */
  ghost predicate Produced(h: seq<nat>, off: nat, f: Keccak, r: nat, s: Words, n: nat) {
    && Permutation(f) && Rate(r) && State(s) && off <= |h|
    && h[..off] == Stream(f, r, s, n, off)
  }

  lemma ProducedNext(before: seq<nat>, h: seq<nat>, off: nat, i: nat, f: Keccak, r: nat, s: Words, n: nat)
    requires Produced(before, off, f, r, s, n) && |h| == |before| && off + i <= |h| && h[..off] == before[..off]
    requires h[off..off + i] == Stream(f, r, s, n + off, i)
    ensures Produced(h, off + i, f, r, s, n)
  {
    hide Stream, Permutation, Words64;
    StreamConcat(f, r, s, n, off, i);
    assert h[..off] + h[off..off + i] == h[..off + i];
  }

  /** One round of the second loop: up to r bytes of a new block. */
  method SqueezeBlock(h: array<nat>, off: nat, outlen: nat, s_inc: array<nat>, r: nat, f: Keccak, ghost s: Words,
                      ghost n: nat, ghost c: nat)
    returns (i: nat)
    requires h != s_inc && s_inc.Length == 26 && Squeezing(s_inc[..], f, r, s, n + off, c) && s_inc[25] == 0
    requires 0 < outlen && off + outlen <= h.Length && Produced(h[..], off, f, r, s, n)
    modifies h, s_inc
    ensures 0 < i <= outlen && (i < outlen ==> s_inc[25] == 0)
    ensures Squeezing(s_inc[..], f, r, s, n + off + i, c + 1) && Produced(h[..], off + i, f, r, s, n)
  {
    hide StateByte, Permutation, Words64, Stream, Produced;
    ghost var before := h[..];
    assert s_inc[..][..25] == s_inc[..25];
    Permute(s_inc, f);
    i := if outlen < r then outlen else r;
    CopyOut(h, off, i, s_inc, 0);
    Copied(h[..], off, i, f, r, s, n + off, c, 0);
    ProducedNext(before, h[..], off, i, f, r, s, n);
    ghost var t := s_inc[..25];
    s_inc[25] := r - i;
    assert s_inc[..][..25] == t;
    assert (c + 1) * r == c * r + r;
  }

  /** keccak_inc_squeeze: the next size bytes of the stream, whatever was squeezed before. */
  method IncSqueeze(h: array<nat>, size: nat, s_inc: array<nat>, r: nat, f: Keccak, ghost s: Words, ghost n: nat,
      ghost c: nat)
    returns (ghost c': nat)
    requires h.Length == size && h != s_inc && s_inc.Length == 26 && Squeezing(s_inc[..], f, r, s, n, c)
    modifies h, s_inc
    ensures Squeezing(s_inc[..], f, r, s, n + size, c')
    ensures Produced(h[..], size, f, r, s, n)
  {
    hide Squeezing, Stream, Permutation, Words64, State, Rate, Produced;
    SqueezingParts(s_inc[..], f, r, s, n, c);
    var off := SqueezeUnread(h, size, s_inc, r, f, s, n, c);
    ProducedFirst(h[..], off, f, r, s, n);
    var outlen: nat := size - off;
    c' := c;
    while outlen > 0
      invariant off + outlen == size && (outlen > 0 ==> s_inc[25] == 0)
      invariant Squeezing(s_inc[..], f, r, s, n + off, c') && Produced(h[..], off, f, r, s, n)
      decreases outlen
    {
      var i := SqueezeBlock(h, off, outlen, s_inc, r, f, s, n, c');
      off := off + i;
      outlen := outlen - i;
      c' := c' + 1;
    }
  }

  lemma ProducedFirst(h: seq<nat>, off: nat, f: Keccak, r: nat, s: Words, n: nat)
    requires Permutation(f) && Rate(r) && State(s) && off <= |h| && h[..off] == Stream(f, r, s, n, off)
    ensures Produced(h, off, f, r, s, n)
  {
  }

  lemma ProducedAll(h: seq<nat>, f: Keccak, r: nat, s: Words, n: nat)
    requires Produced(h, |h|, f, r, s, n)
    ensures Permutation(f) && Rate(r) && State(s) && h == Stream(f, r, s, n, |h|)
  {
    assert h[..|h|] == h;
  }

  lemma SqueezingParts(s_inc: Words, f: Keccak, r: nat, s: Words, n: nat, c: nat)
    requires Squeezing(s_inc, f, r, s, n, c)
    ensures Permutation(f) && Rate(r) && State(s)
  {
  }

  /** The loop over store64. */
  method StoreBlock(h: array<nat>, off: nat, s: array<nat>, r: nat)
    requires h != s && s.Length == 25 && Rate(r) && off + r <= h.Length
    modifies h
    ensures forall k :: 0 <= k < h.Length ==>
      h[k] == if off <= k < off + r then StateByte(s[..], k - off) else old(h[k])
  {
    hide ByteOf;
    for i := 0 to r / 8
      invariant forall k :: 0 <= k < h.Length ==>
        h[k] == if off <= k < off + 8 * i then StateByte(s[..], k - off) else old(h[k])
    {
      for j := 0 to 8
        invariant forall k :: 0 <= k < h.Length ==>
          h[k] == if off <= k < off + 8 * i + j then StateByte(s[..], k - off) else old(h[k])
      {
        assert (8 * i + j) / 8 == i && (8 * i + j) % 8 == j;
        h[off + 8 * i + j] := ByteOf(s[i], j);
      }
    }
  }

  /** keccak_squeezeblocks, after c blocks of the stream of s0. */
  method SqueezeBlocks(h: array<nat>, nblocks: nat, s: array<nat>, r: nat, f: Keccak, ghost s0: Words, ghost c: nat)
    requires h != s && s.Length == 25 && Permutation(f) && Rate(r) && State(s0) && s[..] == Iterate(f, s0, c)
    requires h.Length == nblocks * r && 0 <= c * r
    modifies h, s
    ensures s[..] == Iterate(f, s0, c + nblocks)
    ensures h[..] == Stream(f, r, s0, c * r, h.Length)
  {
    hide Stream, Permutation, Words64, StateByte;
    var off: nat, left: nat := 0, nblocks;
    StreamNone(f, r, s0, c * r);
    ghost var b := 0;
    while left > 0
      invariant b + left == nblocks && off == b * r && off <= h.Length
      invariant s[..] == Iterate(f, s0, c + b) && h[..off] == Stream(f, r, s0, c * r, off)
      decreases left
    {
      BlockFits(b, nblocks, c, r);
      ghost var before := h[..off];
      assert s[..25] == s[..];
      Permute(s, f);
      assert s[..25] == s[..];
      StoreBlock(h, off, s, r);
      Copied(h[..], off, r, f, r, s0, c * r + off, c + b, 0);
      StreamConcat(f, r, s0, c * r, off, r);
      assert h[..off] == before;
      assert h[..][off..off + r] == h[off..off + r];
      assert h[..off] + h[off..off + r] == h[..off + r];
      off := off + r;
      left := left - 1;
      b := b + 1;
    }
    assert h[..off] == h[..];
  }

  lemma BlockFits(b: nat, nblocks: nat, c: nat, r: nat)
    requires b < nblocks
    ensures b * r + r <= nblocks * r && (b + 1) * r == b * r + r && c * r + b * r == (c + b) * r
  {
    MulLe(r, b + 1, nblocks);
    assert (b + 1) * r == b * r + r;
  }

  // ---------- what the states and the output are, byte by byte ----------

  /** Byte k of the state holds bits 8 * (k % 8) and up of word k / 8: little-endian lanes. */
  lemma StateBit(s: Words, k: nat, i: nat)
    requires k / 8 < |s| && i < 8
    ensures Bit(StateByte(s, k), i) == Bit(s[k / 8], 8 * (k % 8) + i)
  {
    hide Bit, ByteOf;
    ByteBit(s[k / 8], k % 8, i);
  }

  /** The sponge starts from zeros. */
  lemma ZeroByte(j: nat)
    requires j < 200
    ensures StateByte(ZeroState(), j) == 0
  {
    hide Bit, ByteOf;
    SmallPowers();
    forall i | 0 <= i < 8
      ensures Bit(StateByte(ZeroState(), j), i) == Bit(0, i)
    {
      ByteBit(0, j % 8, i);
      BitZero(8 * (j % 8) + i);
      BitZero(i);
    }
    BitExt(StateByte(ZeroState(), j), 0, 8);
  }

  /** Before the first permutation the state is the message, followed by zeros. */
  lemma {:induction false} FreshByte(f: Keccak, r: nat, M: seq<int>, j: nat)
    requires Permutation(f) && Rate(r) && Bytes(M) && |M| < r && j < 200
    ensures StateByte(Partial(f, r, M), j) == if j < |M| then M[j] else 0
  {
    hide XorBytes, StateByte, Xor, Words64, ZeroState, Partial, Absorbed, Base, Rest, Permutation;
    DivUnique(0, r, 0, 0);
    assert [] + M == M;
    SplitBlocks(f, r, [], M);
    PartialIs(f, r, M);
    XorBytesAt(ZeroState(), 0, M, j);
    ZeroByte(j);
    if j < |M| {
      XorZero(M[j]);
    }
  }

  /** A message of full blocks M and a rest. */
  lemma SplitBlocks(f: Keccak, r: nat, M: seq<int>, rest: seq<int>)
    requires Permutation(f) && Rate(r) && Bytes(M) && Bytes(rest) && |M| % r == 0 && |rest| < r
    ensures Bytes(M + rest) && |M + rest| % r == |rest|
    ensures Rest(M + rest, r) == rest && Base(f, r, M + rest) == Absorbed(f, r, M)
    ensures Absorbed(f, r, []) == ZeroState()
  {
    hide Words64, Permutation;
    AddBelow(|M|, |rest|, r);
    FullBlocks(|M + rest|, r);
    assert (M + rest)[..|M|] == M;
  }

  /** A full block is xored in, and then the state is permuted once. */
  lemma AbsorbedNext(f: Keccak, r: nat, M: seq<int>, b: seq<int>)
    requires Permutation(f) && Rate(r) && Bytes(M) && Bytes(b) && |M| % r == 0 && |b| == r
    ensures Bytes(M + b) && |M + b| % r == 0
    ensures Absorbed(f, r, M + b) == f.permute(XorBytes(Absorbed(f, r, M), 0, b))
  {
    hide XorBytes, Words64, Permutation;
    AddFull(|M|, r);
    assert (M + b)[..|M + b| - r] == M;
    assert (M + b)[|M + b| - r..] == b;
  }

  lemma AddFull(n: nat, r: nat)
    requires r > 0 && n % r == 0
    ensures (n + r) % r == 0
  {
    DivBasics(n, r);
    DivUnique(n + r, r, n / r + 1, 0);
  }

  /** Both interfaces pad the message M + rest alike when p < 128: behind the rest stands p, then zeros, and the top
      bit of the last byte is set (section 5.1 of FIPS 202). */
  lemma {:induction false} PaddedByte(f: Keccak, r: nat, M: seq<int>, rest: seq<int>, p: nat, j: nat)
    requires Permutation(f) && Rate(r) && Bytes(M) && Bytes(rest) && |M| % r == 0 && |rest| < r && p < 128 && j < 200
    ensures Bytes(M + rest) && 0 <= (if j < |rest| then rest[j] else 0)
    ensures var b := (if j < |rest| then rest[j] else if j == |rest| then p else 0);
            var c := Xor(StateByte(Absorbed(f, r, M), j), b);
            StateByte(OneShot(f, r, M + rest, p), j) == if j == r - 1 then Xor(c, 128) else c
  {
    hide XorByte, XorBytes, StateByte, Xor, Or, Words64, Absorbed, OneShot, Finalized, Permutation;
    SplitBlocks(f, r, M, rest);
    PaddingsAgree(f, r, M + rest, p);
    FinalizedByte(f, r, M + rest, p, j);
  }

  /** The first r bytes of output are those of the state permuted once. */
  lemma StreamFirst(f: Keccak, r: nat, s: Words, n: nat)
    requires Permutation(f) && Rate(r) && State(s) && n < r
    ensures State(f.permute(s)) && StreamByte(f, r, s, n) == StateByte(f.permute(s), n)
  {
    hide StateByte, Permutation, Words64;
    assert Iterate(f, s, 0) == s;
    StreamByteIs(f, r, s, n, 0, n);
    assert Iterate(f, s, 1) == f.permute(s);
  }

  /** After r bytes the output goes on as that of the permuted state. */
  lemma {:induction false} StreamNext(f: Keccak, r: nat, s: Words, n: nat)
    requires Permutation(f) && Rate(r) && State(s)
    ensures State(f.permute(s)) && StreamByte(f, r, s, n + r) == StreamByte(f, r, f.permute(s), n)
  {
    hide StateByte, Words64, Iterate, StreamByte, Permutation;
    var c, i := n / r, n % r;
    ByteIndex(n, r);
    IterateNext(f, s, 0);
    StreamByteIs(f, r, f.permute(s), n, c, i);
    StreamByteIs(f, r, s, n + r, c + 1, i);
    IterateNext(f, s, c + 1);
  }

  lemma ByteIndex(n: nat, r: nat)
    requires r > 0
    ensures n / r >= 0 && 0 <= n % r < r && n == (n / r) * r + n % r && n + r == (n / r + 1) * r + n % r
  {
    DivBasics(n, r);
    var c := n / r;
    assert r * c == c * r && (c + 1) * r == c * r + r;
  }

  lemma {:induction false} IterateNext(f: Keccak, s: Words, n: nat)
    requires Permutation(f) && State(s)
    ensures State(f.permute(s)) && Iterate(f, s, n + 1) == Iterate(f, f.permute(s), n)
  {
    hide Words64;
    assert Iterate(f, s, 0) == s;
    assert State(f.permute(s)) == State(Iterate(f, s, 1));
    if n > 0 {
      IterateNext(f, s, n - 1);
    }
  }

  // ---------- the two interfaces agree ----------

  function Total(lens: seq<nat>): nat {
    if lens == [] then 0 else Total(lens[..|lens| - 1]) + lens[|lens| - 1]
  }

  method AbsorbParts(parts: seq<seq<nat>>, s_inc: array<nat>, r: nat, f: Keccak)
    requires Permutation(f) && Rate(r) && s_inc.Length == 26 && forall i :: 0 <= i < |parts| ==> Bytes(parts[i])
    modifies s_inc
    ensures Absorbing(s_inc[..], f, r, Concat(parts))
  {
    hide Permutation, Words64, Bytes, Absorbing;
    IncInit(s_inc, f, r);
    assert parts[..0] == [];
    for i := 0 to |parts|
      invariant Absorbing(s_inc[..], f, r, Concat(parts[..i]))
    {
      var m := new nat[|parts[i]|](k requires 0 <= k < |parts[i]| => parts[i][k]);
      assert m[..] == parts[i];
      assert parts[..i + 1][..i] == parts[..i];
      IncAbsorb(s_inc, r, m, f, Concat(parts[..i]));
    }
    assert parts[..|parts|] == parts;
  }

  /** The outputs so far have the requested lengths and together are the first bytes of the stream. */
  ghost predicate Outputs(outs: seq<seq<nat>>, lens: seq<nat>, f: Keccak, r: nat, s: Words) {
    && |outs| == |lens| && (forall i :: 0 <= i < |outs| ==> |outs[i]| == lens[i])
    && Permutation(f) && Rate(r) && State(s) && Concat(outs) == Stream(f, r, s, 0, Total(lens))
  }

  lemma OutputsNext(outs: seq<seq<nat>>, lens: seq<nat>, h: seq<nat>, f: Keccak, r: nat, s: Words)
    requires Outputs(outs, lens, f, r, s) && h == Stream(f, r, s, Total(lens), |h|)
    ensures Outputs(outs + [h], lens + [|h|], f, r, s) && Total(lens + [|h|]) == Total(lens) + |h|
  {
    hide Stream, Permutation, Words64, Concat, Total;
    ConcatOne(outs, h);
    TotalOne(lens, |h|);
    StreamConcat(f, r, s, 0, Total(lens), |h|);
  }

  method SqueezeParts(lens: seq<nat>, s_inc: array<nat>, r: nat, f: Keccak, ghost s: Words)
    returns (outs: seq<seq<nat>>)
    requires s_inc.Length == 26 && Squeezing(s_inc[..], f, r, s, 0, 0)
    modifies s_inc
    ensures Outputs(outs, lens, f, r, s)
  {
    hide Outputs, Stream, Permutation, Words64, Squeezing, Total, State, Rate;
    SqueezingParts(s_inc[..], f, r, s, 0, 0);
    outs := [];
    OutputsNone(f, r, s);
    assert lens[..0] == [];
    ghost var c: nat := 0;
    for i := 0 to |lens|
      invariant Squeezing(s_inc[..], f, r, s, Total(lens[..i]), c)
      invariant Outputs(outs, lens[..i], f, r, s)
    {
      var h := new nat[lens[i]](_ => 0);
      c := IncSqueeze(h, lens[i], s_inc, r, f, s, Total(lens[..i]), c);
      ProducedAll(h[..], f, r, s, Total(lens[..i]));
      OutputsNext(outs, lens[..i], h[..], f, r, s);
      assert lens[..i] + [lens[i]] == lens[..i + 1];
      outs := outs + [h[..]];
    }
    assert lens[..|lens|] == lens;
  }

  lemma OutputsNone(f: Keccak, r: nat, s: Words)
    requires Permutation(f) && Rate(r) && State(s)
    ensures Outputs([], [], f, r, s) && Total([]) == 0
  {
    StreamNone(f, r, s, 0);
  }

  lemma TotalOne(lens: seq<nat>, n: nat)
    ensures Total(lens + [n]) == Total(lens) + n
  {
    assert (lens + [n])[..|lens|] == lens;
  }

  /** A client of the incremental interface: any split of the message and of the output gives the stream of the
      one-shot interface. The domain byte leaves the top bit free, as all those of fips202.c do; PaddingsAgree
      says what happens otherwise. */
  method Incremental(parts: seq<seq<nat>>, lens: seq<nat>, r: nat, p: nat, f: Keccak)
    returns (outs: seq<seq<nat>>)
    requires Permutation(f) && Rate(r) && p < 128 && forall i :: 0 <= i < |parts| ==> Bytes(parts[i])
    ensures |outs| == |lens| && forall i :: 0 <= i < |outs| ==> |outs[i]| == lens[i]
    ensures Bytes(Concat(parts)) && Concat(outs) == Stream(f, r, OneShot(f, r, Concat(parts), p), 0, Total(lens))
  {
    hide Stream, Permutation, Words64, Bytes, Absorbing, Squeezing, OneShot, Finalized, Concat, Total;
    var s_inc := new nat[26](_ => 0);
    AbsorbParts(parts, s_inc, r, f);
    ghost var M := Concat(parts);
    AbsorbingState(s_inc[..], f, r, M);
    IncFinalize(s_inc, r, p, f, M);
    PaddingsAgree(f, r, M, p);
    ghost var s := OneShot(f, r, M, p);
    assert s_inc[..][..25] == s_inc[..25];
    SqueezeStart(s_inc[..], f, r, s);
    outs := SqueezeParts(lens, s_inc, r, f, s);
  }
}
