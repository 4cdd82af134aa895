/** SHA-256 as a fold of a given compression function over padded blocks (FIPS 180-4, section 5.1.1), and sha2.c. */
module ShaPadding {
  import opened Bits
  import opened LittleEndian
  import opened Transpose

  /** The compression function and the initial hash value, which are given. */
  datatype Sha = Sha(compress: (seq<nat>, seq<int>) -> seq<nat>, iv: seq<nat>)

  ghost predicate EightWords(S: Sha) {
    |S.iv| == 8 && forall h, b :: |h| == 8 ==> |S.compress(h, b)| == 8
  }

  /** The chaining value after the blocks M. */
  ghost function Fold(S: Sha, M: seq<int>): (h: seq<nat>)
    requires |M| % 64 == 0
    ensures EightWords(S) ==> |h| == 8
    decreases |M|
  {
    if |M| == 0 then S.iv else S.compress(Fold(S, M[..|M| - 64]), M[|M| - 64..])
  }

  lemma FoldStep(S: Sha, M: seq<int>, b: seq<int>)
    requires |M| % 64 == 0 && |b| == 64
    ensures Fold(S, M + b) == S.compress(Fold(S, M), b)
  {
    assert (M + b)[..|M + b| - 64] == M;
    assert (M + b)[|M + b| - 64..] == b;
  }

  // ---------- padding ----------

  /** The length in bits, modulo 2^64, as eight big-endian bytes. */
  function LengthField(n: nat): (l: seq<int>)
    ensures |l| == 8 && forall i :: 0 <= i < 8 ==> 0 <= l[i] < 256
  {
    seq(8, i requires 0 <= i < 8 => ByteOf(8 * n % U64, 7 - i))
  }

  /** The number of zero bytes between 0x80 and the length: the smallest that fills the last block. */
  function ZeroCount(n: nat): (k: nat)
    ensures k < 64 && (n + 9 + k) % 64 == 0
  {
    (119 - n % 64) % 64
  }

  /** A one bit, zeros, and the length. */
  function Padding(n: nat): (p: seq<int>)
    ensures (n + |p|) % 64 == 0
  {
    [0x80] + seq(ZeroCount(n), i => 0) + LengthField(n)
  }

  function Pad(M: seq<int>): (r: seq<int>)
    ensures |r| % 64 == 0
  {
    M + Padding(|M|)
  }

  /** Eight words, most significant byte first. */
  function Digest(h: seq<nat>): (d: seq<int>)
    requires |h| == 8
    ensures |d| == 32
  {
    seq(32, i requires 0 <= i < 32 => ByteOf(h[i / 4], 3 - i % 4))
  }

  /** Byte k of word w holds bits 8 * (3-k) and up: big-endian. */
  lemma DigestBit(h: seq<nat>, w: nat, k: nat, i: nat)
    requires |h| == 8 && w < 8 && k < 4 && i < 8
    ensures 0 <= Digest(h)[4 * w + k] < 256 && Bit(Digest(h)[4 * w + k], i) == Bit(h[w], 8 * (3 - k) + i)
  {
    hide Bit, ByteOf;
    ByteBit(h[w], 3 - k, i);
    assert (4 * w + k) / 4 == w && (4 * w + k) % 4 == k;
  }

  ghost function Hash(S: Sha, M: seq<int>): (d: seq<int>)
    requires EightWords(S)
    ensures |d| == 32
  {
    Digest(Fold(S, Pad(M)))
  }

  /** SHA-256 as the standard defines it: the words of the last chaining value, big-endian. */
  lemma HashBit(S: Sha, M: seq<int>, w: nat, k: nat, i: nat)
    requires EightWords(S) && w < 8 && k < 4 && i < 8
    ensures 0 <= Hash(S, M)[4 * w + k] && Bit(Hash(S, M)[4 * w + k], i) == Bit(Fold(S, Pad(M))[w], 8 * (3 - k) + i)
  {
    hide Fold, Pad, Digest, Bit;
    DigestBit(Fold(S, Pad(M)), w, k, i);
  }

  lemma FoldNone(S: Sha)
    ensures Fold(S, []) == S.iv
  {
  }

  /** The length field holds the number of bits, modulo 2^64, big-endian. */
  lemma LengthBit(n: nat, k: nat, i: nat)
    requires k < 8 && i < 8
    ensures Bit(LengthField(n)[k], i) == Bit(8 * n % U64, 8 * (7 - k) + i)
  {
    hide Bit, ByteOf;
    ByteBit(8 * n % U64, 7 - k, i);
  }

  /** Section 5.1.1 of FIPS 180-4: the message, a one bit, the fewest zeros that fill the last block, the length. */
  lemma PadIs(M: seq<int>)
    ensures var P, n := Pad(M), |M|;
            && |P| % 64 == 0 && n + 9 <= |P| < n + 9 + 64
            && P[..n] == M && P[n] == 0x80 && P[|P| - 8..] == LengthField(n)
            && forall i :: n < i < |P| - 8 ==> P[i] == 0
  {
    hide LengthField;
  }

  // ---------- the padding code ----------

  /** (uint8_t)(bytes >> 53), ..., (uint8_t)(bytes >> 5), (uint8_t)(bytes << 3) */
  function CodeByte(bytes: nat, i: nat): (b: int)
    requires i < 8
    ensures 0 <= b < 256
  {
    if i < 7 then Shr(bytes, 53 - 8 * i) % 256 else Shl(bytes, 3) % 256
  }

  lemma CodeByteBit(bytes: nat, i: nat, k: nat)
    requires i < 8 && k < 8
    ensures Bit(CodeByte(bytes, i), k) == (53 - 8 * i + k >= 0 && Bit(bytes, 53 - 8 * i + k))
  {
    hide Bit, Shr, Shl;
    SmallPowers();
    if i < 7 {
      BitMod(Shr(bytes, 53 - 8 * i), 8, k);
      BitShr(bytes, 53 - 8 * i, k);
    } else {
      BitMod(Shl(bytes, 3), 8, k);
      BitShl(bytes, 3, k);
    }
  }

  lemma EightTimes(n: nat, p: nat)
    requires p < 64
    ensures Bit(8 * n % U64, p) == (p >= 3 && Bit(n, p - 3))
  {
    hide Bit;
    Pow2Values();
    assert Pow2(3) == 8 by { Pow2Add(1, 2); assert Pow2(2) == 4; }
    BitMod(8 * n, 64, p);
    assert Shl(n, 3) == 8 * n;
    BitShl(n, 3, p);
  }

  /** The eight shifted bytes are the length in bits. */
  lemma {:induction false} CodeLength(bytes: nat, i: nat)
    requires i < 8
    ensures CodeByte(bytes, i) == LengthField(bytes)[i]
  {
    hide Bit, ByteOf, CodeByte;
    SmallPowers();
    forall k | 0 <= k < 8
      ensures Bit(CodeByte(bytes, i), k) == Bit(LengthField(bytes)[i], k)
    {
      CodeByteBit(bytes, i, k);
      ByteBit(8 * bytes % U64, 7 - i, k);
      EightTimes(bytes, 8 * (7 - i) + k);
    }
    BitExt(CodeByte(bytes, i), LengthField(bytes)[i], 8);
  }

  /** Lengths that agree modulo 2^61 have the same field. */
  lemma LengthModulo(a: nat, b: nat)
    requires 8 * a % U64 == 8 * b % U64
    ensures LengthField(a) == LengthField(b)
  {
  }

  lemma {:induction false} LengthInjective(a: nat, b: nat)
    requires LengthField(a) == LengthField(b)
    ensures 8 * a % U64 == 8 * b % U64
  {
    hide Bit, ByteOf;
    Pow2Values();
    var x, y := 8 * a % U64, 8 * b % U64;
    forall p | 0 <= p < 64
      ensures Bit(x, p) == Bit(y, p)
    {
      ByteBit(x, p / 8, p % 8);
      ByteBit(y, p / 8, p % 8);
      assert LengthField(a)[7 - p / 8] == LengthField(b)[7 - p / 8];
    }
    BitExt(x, y, 64);
  }

  /** Where the length goes: the last eight bytes of a block of 64 or of two blocks. */
  function PaddedSize(inlen: nat): nat { if inlen < 56 then 64 else 128 }

  /** The block or blocks that the padding code completes, with the length field l. */
  function Tail(rest: seq<int>, l: seq<int>): (t: seq<int>)
    requires |rest| < 64 && |l| == 8
    ensures |t| == PaddedSize(|rest|)
  {
    rest + [0x80] + seq(PaddedSize(|rest|) - 9 - |rest|, i => 0) + l
  }

  lemma PadIsTail(full: seq<int>, rest: seq<int>)
    requires |full| % 64 == 0 && |rest| < 64
    ensures Pad(full + rest) == full + Tail(rest, LengthField(|full + rest|))
  {
    hide LengthField;
    assert |full + rest| % 64 == |rest|;
  }

  /** The loop that copies the rest of the message to padded. */
  method CopyRest(padded: array<int>, input: array<int>, from: nat, n: nat)
    requires padded != input && n <= padded.Length && from + n <= input.Length
    modifies padded
    ensures padded[0..0 + n] == input[from..from + n]
  {
    for i := 0 to n
      invariant forall k :: 0 <= k < i ==> padded[k] == input[from + k]
    {
      padded[i] := input[from + i];
    }
  }

  /** The two branches of the padding code, in place behind the inlen bytes that start at off. */
  method PadInPlace(mem: array<int>, off: nat, inlen: nat, bytes: nat)
    requires inlen < 64 && off + PaddedSize(inlen) <= mem.Length
    modifies mem
    ensures mem[off..off + PaddedSize(inlen)] == Tail(old(mem[off..off + inlen]), LengthField(bytes))
    ensures forall k :: 0 <= k < mem.Length && (k < off || k >= off + PaddedSize(inlen)) ==> mem[k] == old(mem[k])
  {
    hide CodeByte, LengthField;
    ghost var rest := mem[off..off + inlen];
    var end := PaddedSize(inlen);
    mem[off + inlen] := 0x80;
    for i := inlen + 1 to end - 8
      invariant forall k :: 0 <= k < mem.Length ==>
        mem[k] == if off + inlen < k < off + i then 0 else if k == off + inlen then 0x80 else old(mem[k])
    {
      mem[off + i] := 0;
    }
    for i := 0 to 8
      invariant forall k :: 0 <= k < mem.Length ==>
        mem[k] == if off + end - 8 <= k < off + end - 8 + i then LengthField(bytes)[k - (off + end - 8)]
                  else if off + inlen < k < off + end - 8 then 0 else if k == off + inlen then 0x80 else old(mem[k])
    {
      CodeLength(bytes, i);
      mem[off + end - 8 + i] := CodeByte(bytes, i);
    }
    TailAt(mem[off..off + end], rest, LengthField(bytes));
  }

  lemma TailAt(t: seq<int>, rest: seq<int>, l: seq<int>)
    requires |rest| < 64 && |l| == 8 && |t| == PaddedSize(|rest|)
    requires forall k :: 0 <= k < |rest| ==> t[k] == rest[k]
    requires t[|rest|] == 0x80 && forall k :: |rest| < k < |t| - 8 ==> t[k] == 0
    requires forall k :: |t| - 8 <= k < |t| ==> t[k] == l[k - (|t| - 8)]
    ensures t == Tail(rest, l)
  {
  }

  // ---------- the software reference, sha2.c ----------

  class Sha256Ctx {
    var h: seq<nat>
    var bytes: nat

    constructor (S: Sha)
      ensures h == S.iv && bytes == 0
    {
      h, bytes := S.iv, 0;
    }

    /** The full blocks M have been hashed. */
    ghost predicate Hashed(S: Sha, M: seq<int>)
      reads this
    {
      EightWords(S) && |M| % 64 == 0 && h == Fold(S, M) && Counted(bytes, |M|)
    }

    /** crypto_hashblocks_sha256: returns the number of bytes left. */
    method HashBlocks(S: Sha, mem: array<int>, off: nat, len: nat, ghost M: seq<int>) returns (left: nat)
      requires off + len <= mem.Length && |M| % 64 == 0 && h == Fold(S, M)
      modifies this`h
      ensures left == len % 64 && h == Fold(S, M + mem[off..off + (len - left)]) && (len - left) % 64 == 0
    {
      hide Fold;
      var done := 0;
      left := len;
      assert mem[off..off + 0] == [] && M + [] == M;
      while left >= 64
        invariant done + left == len && done % 64 == 0
        invariant h == Fold(S, M + mem[off..off + done])
      {
        ghost var b := mem[off + done..off + done + 64];
        FoldStep(S, M + mem[off..off + done], b);
        assert M + mem[off..off + done] + b == M + mem[off..off + (done + 64)];
        h := S.compress(h, mem[off + done..off + done + 64]);
        done := done + 64;
        left := left - 64;
      }
    }

    /** sha256_inc_blocks */
    method IncBlocks(S: Sha, mem: array<int>, off: nat, inblocks: nat, ghost M: seq<int>)
      requires Hashed(S, M) && off + 64 * inblocks <= mem.Length
      modifies this
      ensures Hashed(S, M + mem[off..off + 64 * inblocks])
    {
      hide Fold, EightWords, Counted;
      var n := 64 * inblocks;
      ghost var total := M + mem[off..off + n];
      BlocksTotal(|M|, bytes, n, inblocks);
      var left := HashBlocks(S, mem, off, n, M);
      assert M + mem[off..off + (n - left)] == total;
      bytes := (bytes + n) % U64;
    }

    /** sha256_inc_finalize: the hash of everything hashed before, followed by the inlen bytes at off. */
    method IncFinalize(S: Sha, mem: array<int>, off: nat, inlen: nat, ghost M: seq<int>) returns (out: seq<int>)
      requires Hashed(S, M) && off + inlen <= mem.Length
      modifies this
      ensures out == Hash(S, M + mem[off..off + inlen])
    {
      hide Fold, Pad, LengthField, Tail, Digest;
      SameTotal(|M|, inlen, bytes);
      var total := (bytes + inlen) % U64;
      var left := HashBlocks(S, mem, off, inlen, M);
      ghost var full := M + mem[off..off + (inlen - left)];
      JoinRest(M, mem[..], off, inlen, left);
      var padded := new int[128](_ => 0);
      CopyRest(padded, mem, off + (inlen - left), left);
      ghost var rest := padded[0..0 + left];
      PadInPlace(padded, 0, left, total);
      PadIsTail(full, rest);
      var none := HashBlocks(S, padded, 0, PaddedSize(left), full);
      out := Digest(h);
    }
  }

  lemma JoinRest(M: seq<int>, mem: seq<int>, off: nat, inlen: nat, left: nat)
    requires |M| % 64 == 0 && off + inlen <= |mem| && left <= inlen && (inlen - left) % 64 == 0
    ensures var full := M + mem[off..off + (inlen - left)];
            |full| % 64 == 0 && full + mem[off + (inlen - left)..off + inlen] == M + mem[off..off + inlen]
  {
    WholeSum(|M|, inlen - left);
    var full, first := M + mem[off..off + (inlen - left)], mem[off..off + (inlen - left)];
    assert full + mem[off + (inlen - left)..off + inlen] == M + (first + mem[off + (inlen - left)..off + inlen]);
    assert mem[off..off + (inlen - left)] + mem[off + (inlen - left)..off + inlen] == mem[off..off + inlen];
  }

  /** The 64-bit counter of hashed bytes. */
  predicate Counted(bytes: nat, n: nat) { bytes == n % U64 }

  lemma BlocksTotal(m: nat, bytes: nat, n: nat, k: nat)
    requires n == 64 * k && m % 64 == 0 && Counted(bytes, m)
    ensures n % 64 == 0 && (m + n) % 64 == 0 && Counted((bytes + n) % U64, m + n)
  {
    hide Counted;
    WholeSum(m, n);
    CountMore(m, bytes, n);
  }

  lemma CountMore(m: nat, bytes: nat, n: nat)
    requires Counted(bytes, m)
    ensures Counted((bytes + n) % U64, m + n)
  {
  }

  lemma WholeSum(a: nat, b: nat)
    requires a % 64 == 0 && b % 64 == 0
    ensures (a + b) % 64 == 0
  {
  }

  lemma TimesEight(m: nat, inlen: nat)
    ensures 8 * (m + inlen) % U64 == 8 * ((m % U64 + inlen) % U64) % U64
  {
    var r := m % U64 + inlen;
    EightMore(m, m % U64, m / U64, inlen, r % U64, r / U64);
    ModUnique(8 * (m + inlen), 8 * (r % U64), 8 * (m / U64) + 8 * (r / U64));
  }

  lemma EightMore(m: nat, r: nat, k: nat, n: nat, s: nat, l: nat)
    requires m == U64 * k + r && r + n == U64 * l + s
    ensures 8 * (m + n) == 8 * s + U64 * (8 * k + 8 * l)
  {
  }

  lemma ModUnique(a: int, b: int, k: int)
    requires a == b + U64 * k
    ensures a % U64 == b % U64
  {
  }

  lemma SameTotal(m: nat, inlen: nat, bytes: nat)
    requires bytes == m % U64
    ensures LengthField((bytes + inlen) % U64) == LengthField(m + inlen)
  {
    hide LengthField;
    TimesEight(m, inlen);
    LengthModulo((bytes + inlen) % U64, m + inlen);
  }
}
