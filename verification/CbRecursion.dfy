/** controlbits.c: cbrecursion on its shared scratch array. Words 0..n-1 of temp are the source's A,
    words n..2n-1 are B; every loop over x rewrites one of them, and every int32_sort composes or inverts. */
module CbRecursion {
  import opened Bits
  import opened Words
  import opened Sort
  import opened MergeExchange
  import opened Permutation
  import opened Network
  import opened PackedSort
  import opened ControlBits
  import opened OutBits

  // ---------- the loops over x ----------

  /** What a loop "for x: dst[x] = f(A[x], B[x], x)" leaves in dst. */
  function Mapped(a: seq<int>, b: seq<int>, f: (int, int, nat) -> int): (r: seq<int>)
    requires |a| == |b|
    ensures |r| == |a|
  {
    seq(|a|, x requires 0 <= x < |a| => f(a[x], b[x], x))
  }

  /** A: words 0..n-1 of the scratch array. */
  function A(temp: array<int>, n: nat): (r: seq<int>)
    requires 2 * n <= temp.Length
    reads temp
    ensures |r| == n
  {
    temp[..n]
  }

  /** B: words n..2n-1. */
  function B(temp: array<int>, n: nat): (r: seq<int>)
    requires 2 * n <= temp.Length
    reads temp
    ensures |r| == n
  {
    temp[n..n + n]
  }

  /** The words behind A and B, where callers keep their own data. */
  function Rest(temp: array<int>, n: nat): seq<int>
    requires 2 * n <= temp.Length
    reads temp
  {
    temp[2 * n..]
  }

  /** A loop over x that rewrites A (off = 0) or B (off = n). */
  method ForEachWord(temp: array<int>, n: nat, off: nat, f: (int, int, nat) -> int)
    requires 2 * n <= temp.Length && (off == 0 || off == n)
    modifies temp
    ensures temp[off..off + n] == Mapped(old(A(temp, n)), old(B(temp, n)), f)
    ensures OnlyChanges(temp, off, n)
  {
    ghost var a, b := A(temp, n), B(temp, n);
    var x := 0;
    while x < n
      invariant x <= n
      invariant OnlyChanges(temp, off, n)
      invariant forall k :: 0 <= k < x ==> temp[off + k] == f(a[k], b[k], k)
      invariant forall k :: x <= k < n ==> temp[k] == a[k] && temp[n + k] == b[k]
    {
      temp[off + x] := f(temp[x], temp[n + x], x);
      x := x + 1;
    }
  }

  method MapA(temp: array<int>, n: nat, f: (int, int, nat) -> int)
    requires 2 * n <= temp.Length
    modifies temp
    ensures A(temp, n) == Mapped(old(A(temp, n)), old(B(temp, n)), f)
    ensures B(temp, n) == old(B(temp, n)) && Rest(temp, n) == old(Rest(temp, n))
  {
    ghost var before := temp[..];
    ForEachWord(temp, n, 0, f);
    assert temp[0..0 + n] == temp[..n];
    Regions(before, temp[..], 0, n);
  }

  method MapB(temp: array<int>, n: nat, f: (int, int, nat) -> int)
    requires 2 * n <= temp.Length
    modifies temp
    ensures B(temp, n) == Mapped(old(A(temp, n)), old(B(temp, n)), f)
    ensures A(temp, n) == old(A(temp, n)) && Rest(temp, n) == old(Rest(temp, n))
  {
    ghost var before := temp[..];
    ForEachWord(temp, n, n, f);
    Regions(before, temp[..], n, n);
  }

  /** The words outside off..off+n are kept. */
  lemma Regions(before: seq<int>, after: seq<int>, off: nat, n: nat)
    requires |before| == |after| && 2 * n <= |before| && (off == 0 || off == n)
    requires after[..off] == before[..off] && after[off + n..] == before[off + n..]
    ensures off == 0 ==> after[n..n + n] == before[n..n + n]
    ensures off == n ==> after[..n] == before[..n]
    ensures after[2 * n..] == before[2 * n..]
  {
    if off == 0 {
      assert after[n..n + n] == after[n..][..n] && before[n..n + n] == before[n..][..n];
      assert after[2 * n..] == after[n..][n..] && before[2 * n..] == before[n..][n..];
    } else {
      assert after[2 * n..] == after[off + n..] && before[2 * n..] == before[off + n..];
    }
  }

  predicate Fits(n: nat, S: nat) {
    (S == 0x1_0000 && n <= 0x8000) || (S == 0x10_0000 && n <= 0x400)
  }

  lemma PackedRange(a: seq<int>, hi: seq<nat>, lo: seq<nat>, S: nat)
    requires Packed(a, hi, lo, S) && IsPerm(hi) && Fits(|hi|, S)
    ensures InRange(a, INT32_MIN, INT32_END)
  {
  }

  /** int32_sort on words that are packed under a permutation. */
  method SortA(temp: array<int>, n: nat, ghost hi: seq<nat>, ghost lo: seq<nat>, ghost S: nat)
    requires 2 * n <= temp.Length && |hi| == n && IsPerm(hi) && Fits(n, S)
    requires Packed(A(temp, n), hi, lo, S)
    modifies temp
    ensures Packed(A(temp, n), Identity(n), Permuted(hi, lo), S)
    ensures B(temp, n) == old(B(temp, n)) && Rest(temp, n) == old(Rest(temp, n))
  {
    hide Packed, Permuted, Sorted, InRange;
    ghost var before, a := temp[..], A(temp, n);
    assert temp[0..0 + n] == temp[..n];
    PackedRange(a, hi, lo, S);
    Int32Sort(temp, 0, n);
    assert temp[0..0 + n] == temp[..n];
    Regions(before, temp[..], 0, n);
    SortPermutes(a, A(temp, n), hi, lo, S);
  }

  method SortB(temp: array<int>, n: nat, ghost hi: seq<nat>, ghost lo: seq<nat>, ghost S: nat)
    requires 2 * n <= temp.Length && |hi| == n && IsPerm(hi) && Fits(n, S)
    requires Packed(B(temp, n), hi, lo, S)
    modifies temp
    ensures Packed(B(temp, n), Identity(n), Permuted(hi, lo), S)
    ensures A(temp, n) == old(A(temp, n)) && Rest(temp, n) == old(Rest(temp, n))
  {
    hide Packed, Permuted, Sorted, InRange;
    ghost var before, b := temp[..], B(temp, n);
    PackedRange(b, hi, lo, S);
    Int32Sort(temp, n, n);
    Regions(before, temp[..], n, n);
    SortPermutes(b, B(temp, n), hi, lo, S);
  }

  // ---------- int16 values inside the scratch array ----------

  function Int16At(mem: seq<int>, base: nat, x: nat): (v: nat)
    requires base + x / 2 < |mem|
    ensures v < 0x1_0000
  {
    HalfWord(mem[base + x / 2], x % 2)
  }

  /** The int16 array p starts at word base of mem. */
  ghost predicate View(mem: seq<int>, base: nat, p: seq<nat>) {
    && base + |p| / 2 <= |mem|
    && |p| % 2 == 0
    && forall x :: 0 <= x < |p| ==> Int16At(mem, base, x) == p[x]
  }

  /** The int16 array in little-endian order: two neighbours make up a word. */
  lemma Int16Pair(mem: seq<int>, base: nat, y: nat)
    requires base + y < |mem|
    ensures ToU32(mem[base + y]) == Int16At(mem, base, 2 * y) + 0x1_0000 * Int16At(mem, base, 2 * y + 1)
  {
    assert (2 * y) / 2 == y && (2 * y) % 2 == 0 && (2 * y + 1) / 2 == y && (2 * y + 1) % 2 == 1;
  }

  // ---------- pibar and its first powers ----------

  ghost function Partners(p: seq<nat>): (r: seq<nat>)
    ensures |r| == |p|
  {
    seq(|p|, x requires 0 <= x < |p| => X(p[x]))
  }

  ghost function OfPartners(p: seq<nat>): (r: seq<nat>)
    requires |p| % 2 == 0
    ensures |r| == |p|
  {
    seq(|p|, x requires 0 <= x < |p| => (XBound(x, |p|); p[X(x)]))
  }

  lemma PartnersPerm(p: seq<nat>)
    requires IsPerm(p) && |p| % 2 == 0
    ensures IsPerm(Partners(p))
  {
    var r := Partners(p);
    forall i | 0 <= i < |r|
      ensures r[i] < |r|
    {
      XBound(p[i], |p|);
    }
    forall i, j | 0 <= i < j < |r|
      ensures r[i] != r[j]
    {
      if X(p[i]) == X(p[j]) {
        XInjective(p[i], p[j]);
      }
    }
  }

  /** Sorting ((pi(x)^1) << 16) | pi(x^1) yields pibar. */
  lemma {:induction false} SortedPartners(p: seq<nat>)
    requires IsPerm(p) && |p| % 2 == 0 && IsPerm(Partners(p))
    ensures Permuted(Partners(p), OfPartners(p)) == PiBar(p)
  {
    var q := Permuted(Partners(p), OfPartners(p));
    forall y | 0 <= y < |p|
      ensures q[y] == PiBar(p)[y]
    {
      XBound(y, |p|);
      var x := IndexOf(p, X(y));
      assert X(p[x]) == y;
      PermutedAt(Partners(p), OfPartners(p), x);
      PiBarAt(p, x);
    }
  }

  /** Reads pi[x], an int16 stored in an array of words. */
  method ReadInt16(pi: array<int>, pb: nat, x: nat, ghost p: seq<nat>) returns (v: nat)
    requires View(pi[..], pb, p) && x < |p|
    ensures v == p[x]
  {
    assert Int16At(pi[..], pb, x) == p[x];
    v := HalfWord(pi[pb + x / 2], x % 2);
  }

  /** A[x] = ((pi[x] ^ 1) << 16) | pi[x ^ 1], where pi may lie in temp behind A and B. */
  method PackPartner(temp: array<int>, n: nat, x: nat, pi: array<int>, pb: nat, ghost p: seq<nat>)
    requires 2 * n <= temp.Length && x < n <= 0x4000 && |p| == n && IsPerm(p)
    requires View(pi[..], pb, p) && (pi == temp ==> pb >= 2 * n)
    modifies temp
    ensures temp[..] == old(temp[..])[x := Partners(p)[x] * 0x1_0000 + OfPartners(p)[x]]
    ensures View(pi[..], pb, p)
  {
    hide And32, Or32, Shl32, Xor32, HalfWord;
    XorOne(x);
    XBound(x, n);
    var u := ReadInt16(pi, pb, x, p);
    var v := ReadInt16(pi, pb, Xor(x, 1), p);
    PartnersWord(p, x);
    ghost var mem := pi[..];
    temp[x] := Or32(Shl32(Xor32(u, 1), 16), v);
    ViewFrame(mem, pi[..], pb, p, x);
  }

  /** The first loop of cbrecursion. */
  method PackPartners(temp: array<int>, n: nat, pi: array<int>, pb: nat, ghost p: seq<nat>)
    requires 2 * n <= temp.Length && n <= 0x4000 && |p| == n && IsPerm(p)
    requires View(pi[..], pb, p) && (pi == temp ==> pb >= 2 * n)
    modifies temp
    ensures Packed(A(temp, n), Partners(p), OfPartners(p), 0x1_0000)
    ensures Rest(temp, n) == old(Rest(temp, n))
    ensures View(pi[..], pb, p)
  {
    ghost var before := temp[..];
    var x := 0;
    while x < n
      invariant x <= n
      invariant OnlyChanges(temp, 0, n)
      invariant View(pi[..], pb, p)
      invariant forall k :: 0 <= k < x ==> temp[k] == Partners(p)[k] * 0x1_0000 + OfPartners(p)[k]
    {
      PackPartner(temp, n, x, pi, pb, p);
      x := x + 1;
    }
    Regions(before, temp[..], 0, n);
  }

  lemma PartnersWord(p: seq<nat>, x: nat)
    requires IsPerm(p) && |p| % 2 == 0 && |p| <= 0x4000 && x < |p|
    ensures X(x) < |p|
    ensures Or32(Shl32(Xor32(p[x], 1), 16), p[X(x)]) == Partners(p)[x] * 0x1_0000 + OfPartners(p)[x]
  {
    hide And32, Or32, Shl32, Shr32, Min32, Xor32;
    XBound(x, |p|);
    XBound(p[x], |p|);
    XorOne32(p[x]);
    Shift16(0, X(p[x]));
    Join16(X(p[x]), p[X(x)]);
  }

  lemma ViewFrame(before: seq<int>, after: seq<int>, base: nat, p: seq<nat>, k: nat)
    requires View(before, base, p) && |before| == |after|
    requires before == after || (k < base && forall i :: 0 <= i < |before| && i != k ==> before[i] == after[i])
    ensures View(after, base, p)
  {
    forall x | 0 <= x < |p|
      ensures Int16At(after, base, x) == p[x]
    {
      assert Int16At(before, base, x) == p[x];
    }
  }

  // ---------- inverting and composing by sorting ----------

  ghost function InvSeq(p: seq<nat>): (r: seq<nat>)
    requires IsPerm(p)
    ensures |r| == |p|
  {
    Permuted(p, Identity(|p|))
  }

  lemma InvSeqAt(p: seq<nat>, x: nat)
    requires IsPerm(p) && x < |p|
    ensures InvSeq(p)[p[x]] == x && InvSeq(p)[x] < |p| && p[InvSeq(p)[x]] == x
  {
    PermutedAt(p, Identity(|p|), x);
  }

  lemma InvSeqPerm(p: seq<nat>)
    requires IsPerm(p)
    ensures IsPerm(InvSeq(p))
  {
    var v := InvSeq(p);
    forall i | 0 <= i < |v|
      ensures v[i] < |v|
    {
      InvSeqAt(p, i);
    }
    forall i, j | 0 <= i < j < |v|
      ensures v[i] != v[j]
    {
      InvSeqAt(p, i);
      InvSeqAt(p, j);
    }
  }

  ghost function Compose(v: seq<nat>, p: seq<nat>): (r: seq<nat>)
    requires IsPerm(p) && |v| == |p|
    ensures |r| == |p|
  {
    seq(|p|, y requires 0 <= y < |p| => v[p[y]])
  }

  /** Sorting by the inverse of p composes with p. */
  lemma PermutedInverse(p: seq<nat>, v: seq<nat>)
    requires IsPerm(p) && |v| == |p| && IsPerm(InvSeq(p))
    ensures Permuted(InvSeq(p), v) == Compose(v, p)
  {
    forall y | 0 <= y < |p|
      ensures Permuted(InvSeq(p), v)[y] == v[p[y]]
    {
      InvSeqAt(p, y);
      PermutedAt(InvSeq(p), v, p[y]);
    }
  }

  ghost function PowSeq(q: seq<nat>, m: nat): (r: seq<nat>)
    requires IsPerm(q)
    ensures |r| == |q|
  {
    seq(|q|, x requires 0 <= x < |q| => Iter(q, m, x))
  }

  ghost function MinSeq(q: seq<nat>, m: nat): (r: seq<nat>)
    requires IsPerm(q) && m > 0
    ensures |r| == |q|
  {
    seq(|q|, x requires 0 <= x < |q| => MinIter(q, m, x))
  }

  lemma PowSeqPerm(q: seq<nat>, m: nat)
    requires IsPerm(q)
    ensures IsPerm(PowSeq(q, m))
  {
    var r := PowSeq(q, m);
    forall i, j | 0 <= i < j < |r|
      ensures r[i] != r[j]
    {
      if r[i] == r[j] {
        IterInjective(q, m, i, j);
      }
    }
  }

  lemma PowSeqDouble(q: seq<nat>, m: nat)
    requires IsPerm(q) && IsPerm(PowSeq(q, m))
    ensures Compose(PowSeq(q, m), PowSeq(q, m)) == PowSeq(q, 2 * m)
  {
    forall x | 0 <= x < |q|
      ensures Compose(PowSeq(q, m), PowSeq(q, m))[x] == PowSeq(q, 2 * m)[x]
    {
      IterAdd(q, m, m, x);
    }
  }

  function MinSeqOf(c: seq<nat>, d: seq<nat>): (r: seq<nat>)
    requires |c| == |d|
    ensures |r| == |c|
  {
    seq(|c|, x requires 0 <= x < |c| => if d[x] < c[x] then d[x] else c[x])
  }

  lemma MinSeqDouble(q: seq<nat>, m: nat)
    requires IsPerm(q) && m > 0 && IsPerm(PowSeq(q, m))
    ensures MinSeqOf(MinSeq(q, m), Compose(MinSeq(q, m), PowSeq(q, m))) == MinSeq(q, 2 * m)
  {
    forall x | 0 <= x < |q|
      ensures MinSeqOf(MinSeq(q, m), Compose(MinSeq(q, m), PowSeq(q, m)))[x] == MinSeq(q, 2 * m)[x]
    {
      MinIterAdd(q, m, m, x);
    }
  }

  // ---------- the word expressions of the loops ----------

  /** B[x] = ((A[x] & 0xffff) << 16) | min(A[x] & 0xffff, x) */
  function MinIndexWord(a: int, b: int, x: nat): int {
    Or32(Shl32(And32(a, 0xFFFF), 16), Min32(And32(a, 0xFFFF), x))
  }

  /** A[x] = (A[x] << 16) | x */
  function ValueIndexWord(a: int, b: int, x: nat): int {
    Or32(Shl32(a, 16), x)
  }

  /** A[x] = (A[x] << 16) + (B[x] >> 16) */
  function ValueKeyWord(a: int, b: int, x: nat): int {
    ToS32(Shl32(a, 16) + Shr32(b, 16))
  }

  lemma MinIndexPacked(a: seq<int>, b: seq<int>, q: seq<nat>)
    requires IsPerm(q) && |a| == |b| == |q| <= 0x4000 && Packed(a, Identity(|q|), q, 0x1_0000)
    ensures Packed(Mapped(a, b, MinIndexWord), q, MinSeq(q, 2), 0x1_0000)
  {
    hide MinIndexWord;
    forall x | 0 <= x < |q|
      ensures MinSeq(q, 2)[x] < 0x1_0000 && MinIndexWord(a[x], b[x], x) == q[x] * 0x1_0000 + MinSeq(q, 2)[x]
    {
      assert a[x] == x * 0x1_0000 + q[x];
      MinIndexAt(q[x], b[x], x);
      MinTwo(q, x);
    }
  }

  lemma MinTwo(q: seq<nat>, x: nat)
    requires IsPerm(q) && x < |q|
    ensures MinSeq(q, 2)[x] == if q[x] < x then q[x] else x
  {
    assert Iter(q, 1, x) == q[Iter(q, 0, x)];
    assert MinIter(q, 1, x) == x;
  }

  lemma MinIndexAt(v: nat, b: int, x: nat)
    requires v < 0x4000 && x < 0x4000
    ensures MinIndexWord(x * 0x1_0000 + v, b, x) == v * 0x1_0000 + if x < v then x else v
  {
    hide And32, Or32, Shl32, Shr32, Min32, Xor32;
    Low16(x, v);
    MinOf(v, x);
    Shift16(0, v);
    Join16(v, if x < v then x else v);
  }

  lemma ValueIndexPacked(a: seq<int>, b: seq<int>, q: seq<nat>)
    requires IsPerm(q) && |a| == |b| == |q| <= 0x4000 && Packed(a, Identity(|q|), q, 0x1_0000)
    ensures Packed(Mapped(a, b, ValueIndexWord), q, Identity(|q|), 0x1_0000)
  {
    hide And32, Or32, Shl32, Shr32;
    forall x | 0 <= x < |q|
      ensures ValueIndexWord(a[x], b[x], x) == q[x] * 0x1_0000 + x
    {
      Shift16(x, q[x]);
      Join16(q[x], x);
    }
  }

  lemma ValueKeyPacked(a: seq<int>, b: seq<int>, v: seq<nat>, q: seq<nat>, c: seq<nat>)
    requires IsPerm(q) && IsPerm(v) && |a| == |b| == |q| == |v| <= 0x4000
    requires Packed(a, Identity(|q|), v, 0x1_0000) && Packed(b, q, c, 0x1_0000)
    ensures Packed(Mapped(a, b, ValueKeyWord), v, q, 0x1_0000)
  {
    hide And32, Or32, Shl32, Shr32, ToS32, ToU32;
    forall x | 0 <= x < |q|
      ensures ValueKeyWord(a[x], b[x], x) == v[x] * 0x1_0000 + q[x]
    {
      Shift16(x, v[x]);
      Top16(q[x], c[x]);
      SmallWord(v[x] * 0x1_0000 + q[x]);
    }
  }

  /** From the permutation to the square of pibar in A, and to pibar with the minima over two steps in B. */
  method SquarePibar(temp: array<int>, n: nat, pi: array<int>, pb: nat, ghost p: seq<nat>, ghost q: seq<nat>)
    requires 2 * n <= temp.Length && n <= 0x4000 && |p| == n && IsPerm(p) && n % 2 == 0
    requires View(pi[..], pb, p) && (pi == temp ==> pb >= 2 * n)
    requires q == PiBar(p) && IsPerm(q)
    modifies temp
    ensures Rest(temp, n) == old(Rest(temp, n))
    ensures Packed(A(temp, n), Identity(n), PowSeq(q, 2), 0x1_0000)
    ensures Packed(B(temp, n), q, MinSeq(q, 2), 0x1_0000)
  {
    PackPartners(temp, n, pi, pb, p);
    PartnersPerm(p);
    SortA(temp, n, Partners(p), OfPartners(p), 0x1_0000);
    SortedPartners(p);
    MinAndSquare(temp, n, q);
  }

  method MinAndSquare(temp: array<int>, n: nat, ghost q: seq<nat>)
    requires 2 * n <= temp.Length && n <= 0x4000 && |q| == n && IsPerm(q)
    requires Packed(A(temp, n), Identity(n), q, 0x1_0000)
    modifies temp
    ensures Rest(temp, n) == old(Rest(temp, n))
    ensures Packed(A(temp, n), Identity(n), PowSeq(q, 2), 0x1_0000)
    ensures Packed(B(temp, n), q, MinSeq(q, 2), 0x1_0000)
  {
    hide Packed, Mapped, Permuted, InvSeq, PowSeq, MinSeq, Compose, MinIndexWord, ValueIndexWord, ValueKeyWord, IsPerm;
    ghost var a, b := A(temp, n), B(temp, n);
    MapB(temp, n, MinIndexWord);
    MinIndexPacked(a, b, q);
    b := B(temp, n);
    MapA(temp, n, ValueIndexWord);
    ValueIndexPacked(a, b, q);
    SortA(temp, n, q, Identity(n), 0x1_0000);
    InvSeqIs(q);
    InvSeqPerm(q);
    a := A(temp, n);
    MapA(temp, n, ValueKeyWord);
    ValueKeyPacked(a, b, InvSeq(q), q, MinSeq(q, 2));
    SortA(temp, n, InvSeq(q), q, 0x1_0000);
    PermutedInverse(q, q);
    PowTwo(q);
  }

  lemma InvSeqIs(p: seq<nat>)
    requires IsPerm(p)
    ensures InvSeq(p) == Permuted(p, Identity(|p|))
  {
  }

  lemma PowTwo(q: seq<nat>)
    requires IsPerm(q)
    ensures Compose(q, q) == PowSeq(q, 2)
  {
    PowOne(q);
    PowSeqDouble(q, 1);
  }

  lemma PowOne(q: seq<nat>)
    requires IsPerm(q)
    ensures PowSeq(q, 1) == q
  {
    forall x | 0 <= x < |q|
      ensures PowSeq(q, 1)[x] == q[x]
    {
      assert Iter(q, 1, x) == q[Iter(q, 0, x)];
    }
  }

  // ---------- the minima by doubling, for w at most 10 ----------

  /** B[x] = ((A[x] & 0xffff) << 10) | (B[x] & 0x3ff) */
  function Repack10Word(a: int, b: int, x: nat): int {
    Or32(Shl32(And32(a, 0xFFFF), 10), And32(b, 0x3FF))
  }

  /** A[x] = ((B[x] & ~0x3ff) << 6) | x */
  function KeyIndex10Word(a: int, b: int, x: nat): int {
    Or32(Shl32(And32(b, -0x400), 6), x)
  }

  /** A[x] = (A[x] << 20) | B[x] */
  function Above20Word(a: int, b: int, x: nat): int {
    Or32(Shl32(a, 20), b)
  }

  /** B[x] = min((A[x] & 0xffc00) | (B[x] & 0x3ff), A[x] & 0xfffff) */
  function Min10Word(a: int, b: int, x: nat): int {
    Min32(Or32(And32(a, 0xF_FC00), And32(b, 0x3FF)), And32(a, 0xF_FFFF))
  }

  lemma Repack10At(y: nat, p: nat, h: nat, c: nat)
    requires y < 0x400 && p < 0x400 && h < 0x400 && c < 0x400
    ensures Repack10Word(y * 0x1_0000 + p, h * 0x1_0000 + c, y) == p * 0x400 + c
  {
    hide And32, Or32, Shl32, Shr32, Min32, Xor32;
    Low16(y, p);
    assert h * 0x1_0000 + c == (h * 0x40) * 0x400 + c;
    Low10(h * 0x40, c);
    Shift10(p);
    Join10(p, c);
  }

  lemma KeyIndex10At(a: int, p: nat, c: nat, x: nat)
    requires p < 0x400 && c < 0x400 && x < 0x400
    ensures KeyIndex10Word(a, p * 0x400 + c, x) == p * 0x1_0000 + x
  {
    hide And32, Or32, Shl32, Shr32, Min32, Xor32;
    High10(p, c);
    Shift6(p);
    Join16(p, x);
  }

  lemma Above20At(y: nat, v: nat, p: nat, c: nat)
    requires y < 0x400 && v < 0x400 && p < 0x400 && c < 0x400
    ensures Above20Word(y * 0x1_0000 + v, p * 0x400 + c, y) == v * 0x10_0000 + (p * 0x400 + c)
  {
    hide And32, Or32, Shl32, Shr32, Min32, Xor32;
    Shift20(y, v);
    Join20(v, p * 0x400 + c);
  }

  lemma Min10At(y: nat, p: nat, d: nat, h: nat, c: nat)
    requires y < 0x400 && p < 0x400 && d < 0x400 && h < 0x400 && c < 0x400
    ensures Min10Word(y * 0x10_0000 + (p * 0x400 + d), h * 0x400 + c, y) == p * 0x400 + if d < c then d else c
  {
    hide And32, Or32, Shl32, Shr32, Min32, Xor32;
    Middle10(y, p, d);
    Low10(h, c);
    Join10(p, c);
    Low20(y, p * 0x400 + d);
    MinOf(p * 0x400 + c, p * 0x400 + d);
  }

  /** The word p * 2^10 + c as one value. */
  function Pair10(p: seq<nat>, c: seq<nat>): (r: seq<nat>)
    requires |p| == |c|
    ensures |r| == |p|
  {
    seq(|p|, x requires 0 <= x < |p| => p[x] * 0x400 + c[x])
  }

  lemma Repack10Packed(a: seq<int>, b: seq<int>, p: seq<nat>, h: seq<nat>, c: seq<nat>)
    requires IsPerm(p) && IsPerm(h) && |a| == |b| == |p| == |h| == |c| <= 0x400
    requires Packed(a, Identity(|p|), p, 0x1_0000) && Packed(b, h, c, 0x1_0000)
    requires forall x :: 0 <= x < |c| ==> c[x] < |c|
    ensures Packed(Mapped(a, b, Repack10Word), p, c, 0x400)
  {
    hide Repack10Word;
    forall x | 0 <= x < |p|
      ensures Repack10Word(a[x], b[x], x) == p[x] * 0x400 + c[x]
    {
      Repack10At(x, p[x], h[x], c[x]);
    }
  }

  lemma KeyIndex10Packed(a: seq<int>, b: seq<int>, p: seq<nat>, c: seq<nat>)
    requires IsPerm(p) && |a| == |b| == |p| == |c| <= 0x400 && Packed(b, p, c, 0x400)
    ensures Packed(Mapped(a, b, KeyIndex10Word), p, Identity(|p|), 0x1_0000)
  {
    hide KeyIndex10Word;
    forall x | 0 <= x < |p|
      ensures KeyIndex10Word(a[x], b[x], x) == p[x] * 0x1_0000 + x
    {
      KeyIndex10At(a[x], p[x], c[x], x);
    }
  }

  lemma Above20Packed(a: seq<int>, b: seq<int>, v: seq<nat>, p: seq<nat>, c: seq<nat>)
    requires IsPerm(p) && IsPerm(v) && |a| == |b| == |p| == |v| == |c| <= 0x400
    requires Packed(a, Identity(|p|), v, 0x1_0000) && Packed(b, p, c, 0x400)
    ensures Packed(Mapped(a, b, Above20Word), v, Pair10(p, c), 0x10_0000)
  {
    hide Above20Word;
    forall x | 0 <= x < |p|
      ensures Pair10(p, c)[x] < 0x10_0000
      ensures Above20Word(a[x], b[x], x) == v[x] * 0x10_0000 + Pair10(p, c)[x]
    {
      Above20At(x, v[x], p[x], c[x]);
    }
  }

  lemma Min10Packed(a: seq<int>, b: seq<int>, p: seq<nat>, c: seq<nat>)
    requires IsPerm(p) && |a| == |b| == |p| == |c| <= 0x400
    requires Packed(b, p, c, 0x400) && forall x :: 0 <= x < |c| ==> c[x] < |c|
    requires Packed(a, Identity(|p|), Compose(Pair10(p, c), p), 0x10_0000)
    ensures Packed(Mapped(a, b, Min10Word), Compose(p, p), MinSeqOf(c, Compose(c, p)), 0x400)
  {
    hide Min10Word;
    forall x | 0 <= x < |p|
      ensures MinSeqOf(c, Compose(c, p))[x] < 0x400
      ensures Min10Word(a[x], b[x], x) == Compose(p, p)[x] * 0x400 + MinSeqOf(c, Compose(c, p))[x]
    {
      Min10At(x, p[p[x]], c[p[x]], p[x], c[x]);
    }
  }

  /** One round of the loop over i for w <= 10. */
  method DoubleSmall(temp: array<int>, n: nat, ghost q: seq<nat>, ghost m: nat)
    requires 2 * n <= temp.Length && n <= 0x400 && |q| == n && IsPerm(q) && m > 0
    requires Packed(B(temp, n), PowSeq(q, m), MinSeq(q, m), 0x400)
    modifies temp
    ensures Rest(temp, n) == old(Rest(temp, n))
    ensures Packed(B(temp, n), PowSeq(q, 2 * m), MinSeq(q, 2 * m), 0x400)
  {
    hide Packed, Mapped, Permuted, InvSeq, PowSeq, MinSeq, Compose, Pair10, MinSeqOf, KeyIndex10Word, Above20Word,
        Min10Word;
    ghost var p, c := PowSeq(q, m), MinSeq(q, m);
    PowSeqPerm(q, m);
    InvSeqIs(p);
    InvSeqPerm(p);
    ghost var a, b := A(temp, n), B(temp, n);
    MapA(temp, n, KeyIndex10Word);
    KeyIndex10Packed(a, b, p, c);
    SortA(temp, n, p, Identity(n), 0x1_0000);
    a := A(temp, n);
    MapA(temp, n, Above20Word);
    Above20Packed(a, b, InvSeq(p), p, c);
    SortA(temp, n, InvSeq(p), Pair10(p, c), 0x10_0000);
    PermutedInverse(p, Pair10(p, c));
    a := A(temp, n);
    MapB(temp, n, Min10Word);
    MinSeqBelow(q, m);
    Min10Packed(a, b, p, c);
    PowSeqDouble(q, m);
    MinSeqDouble(q, m);
  }

  lemma MinSeqBelow(q: seq<nat>, m: nat)
    requires IsPerm(q) && m > 0
    ensures forall x :: 0 <= x < |q| ==> MinSeq(q, m)[x] < |q|
  {
  }

  /** b & 0x3FF */
  function Low10Word(a: int, b: int, x: nat): int { And32(b, 0x3FF) }

  lemma Low10Packed(a: seq<int>, b: seq<int>, p: seq<nat>, c: seq<nat>)
    requires IsPerm(p) && |a| == |b| == |p| == |c| <= 0x400 && Packed(b, p, c, 0x400)
    ensures Mapped(a, b, Low10Word) == c
  {
    hide And32;
    forall x | 0 <= x < |p|
      ensures Low10Word(a[x], b[x], x) == c[x]
    {
      Low10(p[x], c[x]);
    }
  }

  /** The branch for w <= 10. */
  method MinimaSmall(temp: array<int>, w: nat, n: nat, ghost q: seq<nat>)
    requires 2 * n <= temp.Length && 2 <= w <= 10 && n == Pow2(w) && |q| == n && IsPerm(q)
    requires Packed(A(temp, n), Identity(n), PowSeq(q, 2), 0x1_0000)
    requires Packed(B(temp, n), q, MinSeq(q, 2), 0x1_0000)
    modifies temp
    ensures Rest(temp, n) == old(Rest(temp, n))
    ensures B(temp, n) == MinSeq(q, n / 2)
  {
    hide Packed, Mapped, PowSeq, MinSeq, Repack10Word, And32, IsPerm;
    assert n <= 0x400 by { Pow2Values(); Pow2Mono(w, 10); }
    ghost var a, b := A(temp, n), B(temp, n);
    MapB(temp, n, Repack10Word);
    PowSeqPerm(q, 2);
    MinSeqBelow(q, 2);
    Repack10Packed(a, b, PowSeq(q, 2), q, MinSeq(q, 2));
    var i := 1;
    while i < w - 1
      invariant 1 <= i <= w - 1
      invariant Rest(temp, n) == old(Rest(temp, n))
      invariant Packed(B(temp, n), PowSeq(q, Pow2(i)), MinSeq(q, Pow2(i)), 0x400)
    {
      DoubleSmall(temp, n, q, Pow2(i));
      i := i + 1;
    }
    a, b := A(temp, n), B(temp, n);
    MapB(temp, n, Low10Word);
    PowSeqPerm(q, Pow2(i));
    Low10Packed(a, b, PowSeq(q, Pow2(i)), MinSeq(q, Pow2(i)));
  }

  // ---------- the minima by doubling, for w above 10 ----------

  /** b & 0xFFFF */
  function Low16Word(a: int, b: int, x: nat): int { And32(b, 0xFFFF) }

  /** B[x] = (A[x] << 16) | (B[x] & 0xffff), and the same expression stored to A. */
  function ValueLow16Word(a: int, b: int, x: nat): int {
    Or32(Shl32(a, 16), And32(b, 0xFFFF))
  }

  /** A[x] = (B[x] & ~0xffff) | x */
  function KeyIndex16Word(a: int, b: int, x: nat): int {
    Or32(And32(b, -0x1_0000), x)
  }

  /** B[x] = (A[x] & ~0xffff) | (B[x] >> 16) */
  function KeyKey16Word(a: int, b: int, x: nat): int {
    Or32(And32(a, -0x1_0000), Shr32(b, 16))
  }

  /** B[x] = (B[x] << 16) | (A[x] & 0xffff) */
  function OwnValueLow16Word(a: int, b: int, x: nat): int {
    Or32(Shl32(b, 16), And32(a, 0xFFFF))
  }

  /** B[x] = min(B[x], (B[x] & ~0xffff) | (A[x] & 0xffff)) */
  function Min16Word(a: int, b: int, x: nat): int {
    Min32(b, Or32(And32(b, -0x1_0000), And32(a, 0xFFFF)))
  }

  lemma ValueLow16Packed(a: seq<int>, b: seq<int>, v: seq<nat>, p: seq<nat>, c: seq<nat>)
    requires IsPerm(v) && IsPerm(p) && |a| == |b| == |v| == |p| == |c| <= 0x4000
    requires Packed(a, Identity(|v|), v, 0x1_0000) && Packed(b, p, c, 0x1_0000)
    ensures Packed(Mapped(a, b, ValueLow16Word), v, c, 0x1_0000)
  {
    hide And32, Or32, Shl32;
    forall x | 0 <= x < |v|
      ensures ValueLow16Word(a[x], b[x], x) == v[x] * 0x1_0000 + c[x]
    {
      Shift16(x, v[x]);
      Low16(p[x], c[x]);
      Join16(v[x], c[x]);
    }
  }

  lemma KeyIndex16Packed(a: seq<int>, b: seq<int>, p: seq<nat>, c: seq<nat>)
    requires IsPerm(p) && |a| == |b| == |p| == |c| <= 0x4000 && Packed(b, p, c, 0x1_0000)
    ensures Packed(Mapped(a, b, KeyIndex16Word), p, Identity(|p|), 0x1_0000)
  {
    hide And32, Or32;
    forall x | 0 <= x < |p|
      ensures KeyIndex16Word(a[x], b[x], x) == p[x] * 0x1_0000 + x
    {
      High16(p[x], c[x]);
      Join16(p[x], x);
    }
  }

  lemma KeyKey16Packed(a: seq<int>, b: seq<int>, v: seq<nat>, d: seq<nat>, p: seq<nat>, c: seq<nat>)
    requires IsPerm(v) && IsPerm(p) && |a| == |b| == |v| == |d| == |p| == |c| <= 0x4000
    requires Packed(a, v, d, 0x1_0000) && Packed(b, p, c, 0x1_0000)
    ensures Packed(Mapped(a, b, KeyKey16Word), v, p, 0x1_0000)
  {
    hide And32, Or32, Shr32;
    forall x | 0 <= x < |v|
      ensures KeyKey16Word(a[x], b[x], x) == v[x] * 0x1_0000 + p[x]
    {
      High16(v[x], d[x]);
      Top16(p[x], c[x]);
      Join16(v[x], p[x]);
    }
  }

  lemma OwnValueLow16Packed(a: seq<int>, b: seq<int>, v: seq<nat>, p: seq<nat>, c: seq<nat>)
    requires IsPerm(v) && IsPerm(p) && |a| == |b| == |v| == |p| == |c| <= 0x4000
    requires Packed(a, v, c, 0x1_0000) && Packed(b, Identity(|p|), p, 0x1_0000)
    ensures Packed(Mapped(a, b, OwnValueLow16Word), p, c, 0x1_0000)
  {
    hide And32, Or32, Shl32;
    forall x | 0 <= x < |v|
      ensures OwnValueLow16Word(a[x], b[x], x) == p[x] * 0x1_0000 + c[x]
    {
      Shift16(x, p[x]);
      Low16(v[x], c[x]);
      Join16(p[x], c[x]);
    }
  }

  lemma Min16At(y: nat, d: nat, p: nat, c: nat)
    requires y < 0x4000 && d < 0x1_0000 && p < 0x4000 && c < 0x1_0000
    ensures Min16Word(y * 0x1_0000 + d, p * 0x1_0000 + c, y) == p * 0x1_0000 + if d < c then d else c
  {
    hide And32, Or32, Min32;
    Low16(y, d);
    High16(p, c);
    Join16(p, d);
    MinOf(p * 0x1_0000 + c, p * 0x1_0000 + d);
  }

  lemma Min16Packed(a: seq<int>, b: seq<int>, p: seq<nat>, c: seq<nat>, d: seq<nat>)
    requires IsPerm(p) && |a| == |b| == |p| == |c| == |d| <= 0x4000
    requires Packed(a, Identity(|p|), d, 0x1_0000) && Packed(b, p, c, 0x1_0000)
    ensures Packed(Mapped(a, b, Min16Word), p, MinSeqOf(c, d), 0x1_0000)
  {
    hide Min16Word;
    forall x | 0 <= x < |p|
      ensures Min16Word(a[x], b[x], x) == p[x] * 0x1_0000 + MinSeqOf(c, d)[x]
    {
      Min16At(x, d[x], p[x], c[x]);
    }
  }

  lemma Low16Packed(a: seq<int>, b: seq<int>, p: seq<nat>, c: seq<nat>)
    requires IsPerm(p) && |a| == |b| == |p| == |c| <= 0x4000 && Packed(b, p, c, 0x1_0000)
    ensures Mapped(a, b, Low16Word) == c
  {
    hide And32;
    forall x | 0 <= x < |p|
      ensures Low16Word(a[x], b[x], x) == c[x]
    {
      Low16(p[x], c[x]);
    }
  }

  /** The part of the loop body that squares p in B and keeps the minima. */
  method SquareInB(temp: array<int>, n: nat, ghost p: seq<nat>, ghost c: seq<nat>)
    requires 2 * n <= temp.Length && n <= 0x4000 && |p| == |c| == n && IsPerm(p)
    requires Packed(A(temp, n), InvSeq(p), c, 0x1_0000) && Packed(B(temp, n), p, c, 0x1_0000)
    modifies temp
    ensures A(temp, n) == old(A(temp, n)) && Rest(temp, n) == old(Rest(temp, n))
    ensures Packed(B(temp, n), Compose(p, p), c, 0x1_0000)
  {
    hide Packed, Mapped, Permuted, InvSeq, Compose, KeyKey16Word, OwnValueLow16Word, IsPerm;
    InvSeqPerm(p);
    ghost var a, b := A(temp, n), B(temp, n);
    MapB(temp, n, KeyKey16Word);
    KeyKey16Packed(a, b, InvSeq(p), c, p, c);
    SortB(temp, n, InvSeq(p), p, 0x1_0000);
    PermutedInverse(p, p);
    b := B(temp, n);
    MapB(temp, n, OwnValueLow16Word);
    ComposePerm(p, p);
    OwnValueLow16Packed(a, b, InvSeq(p), Compose(p, p), c);
  }

  lemma ComposePerm(v: seq<nat>, p: seq<nat>)
    requires IsPerm(p) && IsPerm(v) && |v| == |p|
    ensures IsPerm(Compose(v, p))
  {
    var r := Compose(v, p);
    forall i, j | 0 <= i < j < |r|
      ensures r[i] != r[j]
    {
      assert p[i] != p[j];
    }
  }

  /** One round of the loop over i for w > 10; the last round does not square p any more. */
  method DoubleLarge(temp: array<int>, n: nat, more: bool, ghost q: seq<nat>, ghost m: nat)
    requires 2 * n <= temp.Length && n <= 0x4000 && |q| == n && IsPerm(q) && m > 0
    requires Packed(B(temp, n), PowSeq(q, m), MinSeq(q, m), 0x1_0000)
    modifies temp
    ensures Rest(temp, n) == old(Rest(temp, n))
    ensures Packed(B(temp, n), PowSeq(q, if more then 2 * m else m), MinSeq(q, 2 * m), 0x1_0000)
  {
    hide Packed, Mapped, Permuted, InvSeq, PowSeq, MinSeq, Compose, MinSeqOf, KeyIndex16Word, ValueLow16Word,
        Min16Word, IsPerm;
    ghost var p, c := PowSeq(q, m), MinSeq(q, m);
    PowSeqPerm(q, m);
    PowSeqPerm(q, 2 * m);
    InvSeqIs(p);
    InvSeqPerm(p);
    ghost var a, b := A(temp, n), B(temp, n);
    MapA(temp, n, KeyIndex16Word);
    KeyIndex16Packed(a, b, p, c);
    SortA(temp, n, p, Identity(n), 0x1_0000);
    a := A(temp, n);
    MapA(temp, n, ValueLow16Word);
    ValueLow16Packed(a, b, InvSeq(p), p, c);
    if more {
      SquareInB(temp, n, p, c);
      PowSeqDouble(q, m);
    }
    SortA(temp, n, InvSeq(p), c, 0x1_0000);
    PermutedInverse(p, c);
    a, b := A(temp, n), B(temp, n);
    MapB(temp, n, Min16Word);
    Min16Packed(a, b, PowSeq(q, if more then 2 * m else m), c, Compose(c, p));
    MinSeqDouble(q, m);
  }

  /** The branch for w > 10. */
  method MinimaLarge(temp: array<int>, w: nat, n: nat, ghost q: seq<nat>)
    requires 2 * n <= temp.Length && 10 < w <= 14 && n == Pow2(w) <= 0x4000 && |q| == n && IsPerm(q)
    requires Packed(A(temp, n), Identity(n), PowSeq(q, 2), 0x1_0000)
    requires Packed(B(temp, n), q, MinSeq(q, 2), 0x1_0000)
    modifies temp
    ensures Rest(temp, n) == old(Rest(temp, n))
    ensures B(temp, n) == MinSeq(q, n / 2)
  {
    hide Packed, Mapped, PowSeq, MinSeq, ValueLow16Word, Low16Word, IsPerm;
    ghost var a, b := A(temp, n), B(temp, n);
    MapB(temp, n, ValueLow16Word);
    PowSeqPerm(q, 2);
    ValueLow16Packed(a, b, PowSeq(q, 2), q, MinSeq(q, 2));
    var i := 1;
    ghost var m := 2;
    while i < w - 1
      invariant 1 <= i <= w - 1
      invariant m > 0 && (i < w - 1 ==> m == Pow2(i))
      invariant Rest(temp, n) == old(Rest(temp, n))
      invariant Packed(B(temp, n), PowSeq(q, m), MinSeq(q, Pow2(i)), 0x1_0000)
    {
      DoubleLarge(temp, n, i < w - 2, q, m);
      m := if i < w - 2 then 2 * m else m;
      i := i + 1;
    }
    SizeFacts(w, n);
    assert Pow2(i) == n / 2;
    a, b := A(temp, n), B(temp, n);
    MapB(temp, n, Low16Word);
    PowSeqPerm(q, m);
    Low16Packed(a, b, PowSeq(q, m), MinSeq(q, Pow2(i)));
  }

  /** B ends up holding the cycle minima of pibar. */
  method Minima(temp: array<int>, w: nat, n: nat, pi: array<int>, pb: nat, ghost p: seq<nat>)
    requires 2 * n <= temp.Length && 2 <= w <= 14 && n == Pow2(w) <= 0x4000 && |p| == n && IsPerm(p)
    requires View(pi[..], pb, p) && (pi == temp ==> pb >= 2 * n)
    modifies temp
    ensures Rest(temp, n) == old(Rest(temp, n))
    ensures B(temp, n) == CycleMins(p)
  {
    hide Packed, PowSeq, MinSeq, PiBar, View, CycleMin, IsPerm;
    ghost var q := PiBar(p);
    PiBarPerm(p);
    SquarePibar(temp, n, pi, pb, p, q);
    if w <= 10 {
      MinimaSmall(temp, w, n, q);
    } else {
      MinimaLarge(temp, w, n, q);
    }
    MinSeqIsCycleMins(p);
  }

  lemma PiBarPerm(p: seq<nat>)
    requires IsPerm(p) && |p| % 2 == 0
    ensures IsPerm(PiBar(p)) && |PiBar(p)| == |p|
  {
    PiBarMirrored(p);
  }

  lemma MinSeqIsCycleMins(p: seq<nat>)
    requires IsPerm(p) && |p| % 2 == 0 && |p| > 0 && IsPerm(PiBar(p))
    ensures MinSeq(PiBar(p), |p| / 2) == CycleMins(p)
  {
    PiBarMirrored(p);
  }

  /** The last of len positions pos, pos+step, ... exists in size bytes. */
  predicate FitsOut(pos: nat, step: nat, len: int, size: nat) {
    len > 0 ==> pos + step * (len - 1) < 8 * size
  }

  // ---------- the outer layers ----------

  /** A[x] = (pi[x] << 16) + x */
  method PackPi(temp: array<int>, n: nat, x: nat, pi: array<int>, pb: nat, ghost p: seq<nat>)
    requires 2 * n <= temp.Length && x < n <= 0x4000 && |p| == n && IsPerm(p)
    requires View(pi[..], pb, p) && (pi == temp ==> pb >= 2 * n)
    modifies temp
    ensures temp[..] == old(temp[..])[x := p[x] * 0x1_0000 + x]
    ensures View(pi[..], pb, p)
  {
    var u := ReadInt16(pi, pb, x, p);
    Shift16(0, u);
    SmallWord(u * 0x1_0000 + x);
    ghost var mem := pi[..];
    temp[x] := ToS32(Shl32(u, 16) + x);
    ViewFrame(mem, pi[..], pb, p, x);
  }

  /** A becomes pi^-1, by sorting (pi << 16) + id. */
  method InvertPi(temp: array<int>, n: nat, pi: array<int>, pb: nat, ghost p: seq<nat>)
    requires 2 * n <= temp.Length && n <= 0x4000 && |p| == n && IsPerm(p)
    requires View(pi[..], pb, p) && (pi == temp ==> pb >= 2 * n)
    modifies temp
    ensures B(temp, n) == old(B(temp, n)) && Rest(temp, n) == old(Rest(temp, n))
    ensures Packed(A(temp, n), Identity(n), InvSeq(p), 0x1_0000)
  {
    ghost var before := temp[..];
    var x := 0;
    while x < n
      invariant x <= n
      invariant OnlyChanges(temp, 0, n)
      invariant View(pi[..], pb, p)
      invariant forall k :: 0 <= k < x ==> temp[k] == p[k] * 0x1_0000 + k
    {
      PackPi(temp, n, x, pi, pb, p);
      x := x + 1;
    }
    Regions(before, temp[..], 0, n);
    assert Packed(A(temp, n), p, Identity(n), 0x1_0000);
    SortA(temp, n, p, Identity(n), 0x1_0000);
    InvSeqIs(p);
  }

  ghost function FSeq(c: seq<nat>): (r: seq<nat>)
    requires |c| % 2 == 0
    ensures |r| == |c|
  {
    seq(|c|, x requires 0 <= x < |c| => F(c, x))
  }

  /** F[x], F[x+1] for an even x from the bit f, and the words (a << 16) | F. */
  lemma FPair(c: seq<nat>, x: nat, a0: int, a1: int, v0: nat, v1: nat)
    requires |c| % 2 == 0 && x % 2 == 0 && x + 1 < |c| <= 0x4000 && c[x] < 0x4000
    requires v0 < 0x4000 && v1 < 0x4000 && a0 == x * 0x1_0000 + v0 && a1 == (x + 1) * 0x1_0000 + v1
    ensures And32(c[x], 1) == c[x] % 2
    ensures Or32(Shl32(a0, 16), x + c[x] % 2) == v0 * 0x1_0000 + F(c, x)
    ensures Or32(Shl32(a1, 16), Xor32(x + c[x] % 2, 1)) == v1 * 0x1_0000 + F(c, x + 1)
  {
    hide And32, Or32, Shl32, Xor32;
    LowBit(c[x]);
    Shift16(x, v0);
    Shift16(x + 1, v1);
    XorOne32(x + c[x] % 2);
    Join16(v0, F(c, x));
    Join16(v1, F(c, x + 1));
    assert (x + 1) - (x + 1) % 2 == x;
  }

  lemma LowBit(v: nat)
    requires v < 0x8000_0000
    ensures And32(v, 1) == v % 2
  {
    assert Pow2(1) == 2;
    LowField(v, 1, 2, 1);
  }

  ghost predicate FirstDone(b: seq<int>, v: seq<nat>, c: seq<nat>, k: nat)
    requires |b| == |v| == |c| && |c| % 2 == 0 && k <= |c|
  {
    && (forall x :: 0 <= x < k ==> b[x] == v[x] * 0x1_0000 + F(c, x))
    && (forall x :: k <= x < |c| ==> b[x] == c[x])
  }

  /** One round of the loop over j: reads c[2j], writes B[2j], B[2j+1] and one control bit. */
  method FirstLayerStep(out: array<int>, pos: nat, temp: array<int>, n: nat, j: nat, ghost c: seq<nat>,
      ghost v: seq<nat>)
    requires 2 * n <= temp.Length && n <= 0x4000 && out != temp && |c| == |v| == n && n % 2 == 0 && 2 * j + 1 < n
    requires IsPerm(v) && forall x :: 0 <= x < n ==> c[x] < n
    requires Packed(A(temp, n), Identity(n), v, 0x1_0000) && FirstDone(B(temp, n), v, c, 2 * j)
    requires Bytes(out[..]) && pos < 8 * out.Length
    modifies temp, out
    ensures A(temp, n) == old(A(temp, n)) && Rest(temp, n) == old(Rest(temp, n))
    ensures FirstDone(B(temp, n), v, c, 2 * j + 2)
    ensures Toggled(old(out[..]), out[..], [FBits(c)[j]], pos, 1)
  {
    hide And32, Or32, Shl32, Xor32, F, Toggled, FBits, Bytes;
    var x := 2 * j;
    ghost var b := B(temp, n);
    assert temp[n + x] == b[x] == c[x];
    assert temp[x] == A(temp, n)[x] && temp[x + 1] == A(temp, n)[x + 1];
    FPair(c, x, temp[x], temp[x + 1], v[x], v[x + 1]);
    FBit(c, j);
    var f := And32(temp[n + x], 1);
    var Fx := x + f;
    var Fx1 := Xor32(Fx, 1);
    XorOut(out, pos, f);
    StoreB(temp, n, x, Or32(Shl32(temp[x], 16), Fx), Or32(Shl32(temp[x + 1], 16), Fx1));
    FirstDoneNext(b, v, c, x);
  }

  lemma FBit(c: seq<nat>, j: nat)
    requires |c| % 2 == 0 && 2 * j + 1 < |c|
    ensures FBits(c)[j] == (c[2 * j] % 2 == 1)
  {
  }

  lemma FirstDoneNext(b: seq<int>, v: seq<nat>, c: seq<nat>, x: nat)
    requires |b| == |v| == |c| && |c| % 2 == 0 && x + 1 < |c| && FirstDone(b, v, c, x)
    ensures FirstDone(b[x := v[x] * 0x1_0000 + F(c, x)][x + 1 := v[x + 1] * 0x1_0000 + F(c, x + 1)], v, c, x + 2)
  {
  }

  /** B[x] = w0, B[x+1] = w1 */
  method StoreB(temp: array<int>, n: nat, x: nat, w0: int, w1: int)
    requires 2 * n <= temp.Length && x + 1 < n
    modifies temp
    ensures A(temp, n) == old(A(temp, n)) && Rest(temp, n) == old(Rest(temp, n))
    ensures B(temp, n) == old(B(temp, n))[x := w0][x + 1 := w1]
  {
    temp[n + x] := w0;
    temp[n + x + 1] := w1;
  }

  lemma FirstDoneAll(b: seq<int>, v: seq<nat>, c: seq<nat>)
    requires |b| == |v| == |c| <= 0x8000 && |c| % 2 == 0 && FirstDone(b, v, c, |c|)
    ensures Packed(b, v, FSeq(c), 0x1_0000)
  {
  }

  /** The loop over j: writes the first layer and leaves (pi^-1 << 16) + F in B. */
  method WriteFirstLayer(out: array<int>, pos0: nat, step: nat, temp: array<int>, n: nat, ghost c: seq<nat>,
      ghost v: seq<nat>)
    returns (pos: nat)
    requires 2 * n <= temp.Length && 0 < n <= 0x4000 && out != temp && |c| == |v| == n && n % 2 == 0
    requires IsPerm(v) && forall x :: 0 <= x < n ==> c[x] < n
    requires Packed(A(temp, n), Identity(n), v, 0x1_0000) && B(temp, n) == c
    requires Bytes(out[..]) && step > 0 && FitsOut(pos0, step, n / 2, out.Length)
    modifies temp, out
    ensures A(temp, n) == old(A(temp, n)) && Rest(temp, n) == old(Rest(temp, n))
    ensures Packed(B(temp, n), v, FSeq(c), 0x1_0000)
    ensures pos == pos0 + step * (n / 2)
    ensures Toggled(old(out[..]), out[..], FBits(c), pos0, step)
  {
    hide Toggled, FBits, F;
    ghost var s0, f := out[..], FBits(c);
    var j := 0;
    pos := pos0;
    ToggleNone(s0, pos0, step);
    while j < n / 2
      invariant j <= n / 2 && pos == pos0 + step * j
      invariant A(temp, n) == old(A(temp, n)) && Rest(temp, n) == old(Rest(temp, n))
      invariant FirstDone(B(temp, n), v, c, 2 * j)
      invariant Bytes(out[..]) && Toggled(s0, out[..], f[..j], pos0, step)
    {
      MulLe(step, 0, j);
      MulLe(step, j, n / 2 - 1);
      ghost var s1 := out[..];
      FirstLayerStep(out, pos, temp, n, j, c, v);
      ToggledBytes(s1, out[..], [f[j]], pos, 1);
      ToggleNext(s0, s1, out[..], f, j, pos0, step);
      pos := pos + step;
      j := j + 1;
    }
    assert f[..j] == f;
    FirstDoneAll(B(temp, n), v, c);
  }

  ghost function LSeq(p: seq<nat>, c: seq<nat>): (r: seq<nat>)
    requires IsPerm(p) && |c| == |p| && |p| % 2 == 0
    ensures |r| == |p|
  {
    seq(|p|, y requires 0 <= y < |p| => L(p, c, y))
  }

  lemma LSeqPerm(p: seq<nat>, c: seq<nat>)
    requires IsPerm(p) && |c| == |p| && |p| % 2 == 0
    ensures IsPerm(LSeq(p, c))
  {
    var r := LSeq(p, c);
    forall i, j | 0 <= i < j < |r|
      ensures r[i] != r[j]
    {
      LTwice(p, c, i);
      LTwice(p, c, j);
    }
  }

  /** L[y], L[y+1] for an even y from F(pi(y)), and the words (L << 16) | F(pi). */
  lemma LPair(p: seq<nat>, c: seq<nat>, y: nat, b0: int, b1: int)
    requires IsPerm(p) && |c| == |p| && |p| % 2 == 0 && y % 2 == 0 && y + 1 < |p| <= 0x4000
    requires b0 == y * 0x1_0000 + F(c, p[y]) && b1 == (y + 1) * 0x1_0000 + F(c, p[y + 1])
    ensures And32(b0, 1) == F(c, p[y]) % 2
    ensures Or32(Shl32(y + F(c, p[y]) % 2, 16), And32(b0, 0xFFFF)) == L(p, c, y) * 0x1_0000 + F(c, p[y])
    ensures Or32(Shl32(Xor32(y + F(c, p[y]) % 2, 1), 16), And32(b1, 0xFFFF)) == L(p, c, y + 1) * 0x1_0000 + F(c, p[y
        + 1])
  {
    hide And32, Or32, Shl32, Xor32, F;
    var g0, g1 := F(c, p[y]), F(c, p[y + 1]);
    LowBit(b0);
    assert b0 % 2 == g0 % 2;
    Low16(y, g0);
    Low16(y + 1, g1);
    assert (y + 1) - (y + 1) % 2 == y;
    XorOne32(y + g0 % 2);
    Shift16(0, L(p, c, y));
    Shift16(0, L(p, c, y + 1));
    Join16(L(p, c, y), g0);
    Join16(L(p, c, y + 1), g1);
  }

  /** A[y] = w0, A[y+1] = w1 */
  method StoreA(temp: array<int>, n: nat, y: nat, w0: int, w1: int)
    requires 2 * n <= temp.Length && y + 1 < n
    modifies temp
    ensures B(temp, n) == old(B(temp, n)) && Rest(temp, n) == old(Rest(temp, n))
    ensures A(temp, n) == old(A(temp, n))[y := w0][y + 1 := w1]
  {
    temp[y] := w0;
    temp[y + 1] := w1;
  }

  /** F(pi(y)) for every y. */
  ghost function FPi(p: seq<nat>, c: seq<nat>): (r: seq<nat>)
    requires IsPerm(p) && |c| == |p| && |p| % 2 == 0
    ensures |r| == |p|
  {
    seq(|p|, y requires 0 <= y < |p| => F(c, p[y]))
  }

  ghost predicate LastDone(a: seq<int>, p: seq<nat>, c: seq<nat>, k: nat)
    requires IsPerm(p) && |a| == |p| == |c| && |p| % 2 == 0 && k <= |p|
  {
    forall y :: 0 <= y < k ==> a[y] == LSeq(p, c)[y] * 0x1_0000 + FPi(p, c)[y]
  }

  lemma LastDoneNext(a: seq<int>, p: seq<nat>, c: seq<nat>, y: nat)
    requires IsPerm(p) && |a| == |p| == |c| && |p| % 2 == 0 && y + 1 < |p| && LastDone(a, p, c, y)
    ensures LastDone(a[y := L(p, c, y) * 0x1_0000 + F(c, p[y])][y + 1 := L(p, c, y + 1) * 0x1_0000 + F(c, p[y + 1])],
        p, c, y + 2)
  {
    hide L, F;
  }

  lemma LastDoneAll(a: seq<int>, p: seq<nat>, c: seq<nat>)
    requires IsPerm(p) && |a| == |p| == |c| <= 0x4000 && |p| % 2 == 0 && LastDone(a, p, c, |p|)
    ensures Packed(a, LSeq(p, c), FPi(p, c), 0x1_0000)
  {
    hide L, F;
  }

  lemma LBit(p: seq<nat>, c: seq<nat>, k: nat)
    requires IsPerm(p) && |c| == |p| && |p| % 2 == 0 && 2 * k + 1 < |p|
    ensures LBits(p, c)[k] == (F(c, p[2 * k]) % 2 == 1)
  {
  }

  /** One round of the loop over k: reads F(pi(2k)), writes A[2k], A[2k+1] and one control bit. */
  method LastLayerStep(out: array<int>, pos: nat, temp: array<int>, n: nat, k: nat, ghost p: seq<nat>,
      ghost c: seq<nat>)
    requires 2 * n <= temp.Length && n <= 0x4000 && out != temp && |c| == |p| == n && n % 2 == 0 && 2 * k + 1 < n
    requires IsPerm(p)
    requires Packed(B(temp, n), Identity(n), FPi(p, c), 0x1_0000) && LastDone(A(temp, n), p, c, 2 * k)
    requires Bytes(out[..]) && pos < 8 * out.Length
    modifies temp, out
    ensures B(temp, n) == old(B(temp, n)) && Rest(temp, n) == old(Rest(temp, n))
    ensures LastDone(A(temp, n), p, c, 2 * k + 2)
    ensures Toggled(old(out[..]), out[..], [LBits(p, c)[k]], pos, 1)
  {
    hide And32, Or32, Shl32, Xor32, F, L, Toggled, LBits, Bytes, IsPerm, LastDone;
    var y := 2 * k;
    ghost var a := A(temp, n);
    assert temp[n + y] == B(temp, n)[y] && temp[n + y + 1] == B(temp, n)[y + 1];
    LPair(p, c, y, temp[n + y], temp[n + y + 1]);
    LBit(p, c, k);
    var l := And32(temp[n + y], 1);
    var Ly := y + l;
    var Ly1 := Xor32(Ly, 1);
    XorOut(out, pos, l);
    StoreA(temp, n, y, Or32(Shl32(Ly, 16), And32(temp[n + y], 0xFFFF)), Or32(Shl32(Ly1, 16), And32(temp[n + y + 1],
      0xFFFF)));
    LastDoneNext(a, p, c, y);
  }

  /** The loop over k: writes the last layer and leaves (L << 16) + F(pi) in A. */
  method WriteLastLayer(out: array<int>, pos0: nat, step: nat, temp: array<int>, n: nat, ghost p: seq<nat>,
      ghost c: seq<nat>)
    returns (pos: nat)
    requires 2 * n <= temp.Length && 0 < n <= 0x4000 && out != temp && |c| == |p| == n && n % 2 == 0
    requires IsPerm(p) && Packed(B(temp, n), Identity(n), FPi(p, c), 0x1_0000)
    requires Bytes(out[..]) && step > 0 && FitsOut(pos0, step, n / 2, out.Length)
    modifies temp, out
    ensures Rest(temp, n) == old(Rest(temp, n))
    ensures Packed(A(temp, n), LSeq(p, c), FPi(p, c), 0x1_0000)
    ensures pos == pos0 + step * (n / 2)
    ensures Toggled(old(out[..]), out[..], LBits(p, c), pos0, step)
  {
    hide Toggled, LBits, F, L, IsPerm, Packed, LSeq, FPi;
    ghost var s0, l := out[..], LBits(p, c);
    var k := 0;
    pos := pos0;
    ToggleNone(s0, pos0, step);
    while k < n / 2
      invariant k <= n / 2 && pos == pos0 + step * k
      invariant B(temp, n) == old(B(temp, n)) && Rest(temp, n) == old(Rest(temp, n))
      invariant LastDone(A(temp, n), p, c, 2 * k)
      invariant Bytes(out[..]) && Toggled(s0, out[..], l[..k], pos0, step)
    {
      MulLe(step, 0, k);
      MulLe(step, k, n / 2 - 1);
      ghost var s1 := out[..];
      LastLayerStep(out, pos, temp, n, k, p, c);
      ToggledBytes(s1, out[..], [l[k]], pos, 1);
      ToggleNext(s0, s1, out[..], l, k, pos0, step);
      pos := pos + step;
      k := k + 1;
    }
    assert l[..k] == l;
    LastDoneAll(A(temp, n), p, c);
  }

  /** Sorting (pi^-1 << 16) + F yields F o pi. */
  lemma SortedFirst(p: seq<nat>, c: seq<nat>)
    requires IsPerm(p) && |c| == |p| && |p| % 2 == 0 && IsPerm(InvSeq(p))
    ensures Permuted(InvSeq(p), FSeq(c)) == FPi(p, c)
  {
    PermutedInverse(p, FSeq(c));
  }

  ghost function MSeq(p: seq<nat>, c: seq<nat>): (r: seq<nat>)
    requires IsPerm(p) && |c| == |p| && |p| % 2 == 0
    ensures |r| == |p|
  {
    seq(|p|, y requires 0 <= y < |p| => M(p, c, y))
  }

  /** Sorting (L << 16) + F(pi) yields M. */
  lemma SortedLast(p: seq<nat>, c: seq<nat>)
    requires IsPerm(p) && |c| == |p| && |p| % 2 == 0 && IsPerm(LSeq(p, c))
    ensures Permuted(LSeq(p, c), FPi(p, c)) == MSeq(p, c)
  {
    hide L, F;
    var q := Permuted(LSeq(p, c), FPi(p, c));
    forall y | 0 <= y < |p|
      ensures q[y] == M(p, c, y)
    {
      LTwice(p, c, y);
      PermutedAt(LSeq(p, c), FPi(p, c), L(p, c, y));
    }
  }

  // ---------- the middle permutation in the upper part of the scratch array ----------

  /** The first k int16 values from word base on. */
  function Halves(mem: seq<int>, base: nat, k: nat): (r: seq<nat>)
    requires base + (k + 1) / 2 <= |mem|
    ensures |r| == k
  {
    seq(k, x requires 0 <= x < k => Int16At(mem, base, x))
  }

  /** q[x] = v: one int16 store into a word of temp. */
  method WriteInt16(temp: array<int>, base: nat, k: nat, x: nat, v: nat)
    requires base + (k + 1) / 2 <= temp.Length && x < k && v < 0x1_0000
    modifies temp
    ensures forall i :: 0 <= i < temp.Length && (i < base || i >= base + (k + 1) / 2) ==> temp[i] == old(temp[i])
    ensures Halves(temp[..], base, k) == old(Halves(temp[..], base, k))[x := v]
  {
    ghost var before := temp[..];
    temp[base + x / 2] := SetHalf(temp[base + x / 2], x % 2, v);
    forall y | 0 <= y < k
      ensures Int16At(temp[..], base, y) == if y == x then v else Int16At(before, base, y)
    {
      SetHalfAt(before[base + x / 2], x % 2, v, y % 2);
    }
  }

  /** (A[x] & 0xffff) >> 1 */
  lemma HalfValue(x: nat, m: nat)
    requires x < 0x4000 && m < 0x4000
    ensures Shr32(And32(x * 0x1_0000 + m, 0xFFFF), 1) == m / 2
  {
    hide And32;
    Low16(x, m);
    assert Pow2(1) == 2;
  }

  ghost predicate HalvesDone(q: seq<nat>, p: seq<nat>, c: seq<nat>, j: nat)
    requires Splits(p, c) && |q| == |p| && j <= |p| / 2
  {
    && (forall x :: 0 <= x < j ==> q[x] == MHalf(p, c, 0)[x])
    && (forall x :: 0 <= x < j ==> q[|p| / 2 + x] == MHalf(p, c, 1)[x])
  }

  lemma HalvesNext(q: seq<nat>, p: seq<nat>, c: seq<nat>, j: nat)
    requires Splits(p, c) && |q| == |p| && j < |p| / 2 && HalvesDone(q, p, c, j)
    ensures HalvesDone(q[j := MHalf(p, c, 0)[j]][|p| / 2 + j := MHalf(p, c, 1)[j]], p, c, j + 1)
  {
    hide Splits, MHalf;
  }

  lemma HalvesView(mem: seq<int>, n: nat, p: seq<nat>, c: seq<nat>)
    requires Splits(p, c) && |p| == n && n % 4 == 0 && 2 * n <= |mem|
    requires HalvesDone(Halves(mem, n + n / 4, n), p, c, n / 2)
    ensures View(mem, n + n / 4, MHalf(p, c, 0)) && View(mem, n + n / 2, MHalf(p, c, 1))
  {
    hide M, HalfWord, SplitAt, Int16At;
    var q := Halves(mem, n + n / 4, n);
    forall x | 0 <= x < n / 2
      ensures Int16At(mem, n + n / 4, x) == MHalf(p, c, 0)[x]
      ensures Int16At(mem, n + n / 2, x) == MHalf(p, c, 1)[x]
    {
      assert Int16At(mem, n + n / 4, x) == q[x];
      Int16Shift(mem, n + n / 4, n / 4, x);
      assert q[n / 2 + x] == Int16At(mem, n + n / 4, n / 2 + x);
    }
  }

  /** The last loop: the two halves of M, as one int16 array that starts n/4 words behind A. */
  method StoreHalves(temp: array<int>, n: nat, ghost p: seq<nat>, ghost c: seq<nat>)
    requires 2 * n <= temp.Length && 4 <= n <= 0x4000 && n % 4 == 0 && |c| == |p| == n && Splits(p, c)
    requires Packed(A(temp, n), Identity(n), MSeq(p, c), 0x1_0000)
    modifies temp
    ensures Rest(temp, n) == old(Rest(temp, n))
    ensures View(temp[..], n + n / 4, MHalf(p, c, 0)) && View(temp[..], n + n / 2, MHalf(p, c, 1))
  {
    hide Packed, M, Halves, HalvesDone, Splits, MHalf;
    ghost var a := A(temp, n);
    var j := 0;
    assert HalvesDone(Halves(temp[..], n + n / 4, n), p, c, 0) by { HalvesNone(Halves(temp[..], n + n / 4, n), p, c); }
    while j < n / 2
      invariant j <= n / 2
      invariant A(temp, n) == a && Rest(temp, n) == old(Rest(temp, n))
      invariant HalvesDone(Halves(temp[..], n + n / 4, n), p, c, j)
    {
      HalvesNext(Halves(temp[..], n + n / 4, n), p, c, j);
      StoreHalfPair(temp, n, j, p, c);
      j := j + 1;
    }
    HalvesView(temp[..], n, p, c);
  }

  lemma HalvesNone(q: seq<nat>, p: seq<nat>, c: seq<nat>)
    requires Splits(p, c) && |q| == |p|
    ensures HalvesDone(q, p, c, 0)
  {
  }

  lemma Int16Shift(mem: seq<int>, base: nat, k: nat, x: nat)
    requires base + k + x / 2 < |mem|
    ensures Int16At(mem, base + k, x) == Int16At(mem, base, x + 2 * k)
  {
  }

  lemma StoredM(a: seq<int>, p: seq<nat>, c: seq<nat>, j: nat, e: nat)
    requires Splits(p, c) && |a| == |p| <= 0x4000 && j < |p| / 2 && e < 2
    requires Packed(a, Identity(|p|), MSeq(p, c), 0x1_0000)
    ensures MHalf(p, c, e)[j] < |p| / 2
    ensures Shr32(And32(a[2 * j + e], 0xFFFF), 1) == MHalf(p, c, e)[j]
  {
    hide And32, Shr32, M;
    HalfValue(2 * j + e, M(p, c, 2 * j + e));
    MHalfValue(p, c, e, j);
  }

  /** q[j] = (A[2j] & 0xffff) >> 1; q[j + n/2] = (A[2j+1] & 0xffff) >> 1 */
  method StoreHalfPair(temp: array<int>, n: nat, j: nat, ghost p: seq<nat>, ghost c: seq<nat>)
    requires 2 * n <= temp.Length && 4 <= n <= 0x4000 && n % 4 == 0 && |c| == |p| == n && Splits(p, c) && j < n / 2
    requires Packed(A(temp, n), Identity(n), MSeq(p, c), 0x1_0000)
    modifies temp
    ensures A(temp, n) == old(A(temp, n)) && Rest(temp, n) == old(Rest(temp, n))
    ensures Halves(temp[..], n + n / 4, n) ==
            old(Halves(temp[..], n + n / 4, n))[j := MHalf(p, c, 0)[j]][n / 2 + j := MHalf(p, c, 1)[j]]
  {
    hide Packed, M, MSeq, And32, Shr32, Splits, MHalf, Halves;
    ghost var a := A(temp, n);
    var q := n + n / 4;
    StoredM(a, p, c, j, 0);
    StoredM(a, p, c, j, 1);
    assert temp[2 * j] == a[2 * j + 0];
    WriteInt16(temp, q, n, j, Shr32(And32(temp[2 * j], 0xFFFF), 1));
    assert A(temp, n) == a;
    assert temp[2 * j + 1] == a[2 * j + 1];
    WriteInt16(temp, q, n, n / 2 + j, Shr32(And32(temp[2 * j + 1], 0xFFFF), 1));
    assert A(temp, n) == a;
  }

  // ---------- the recursion ----------

  /** The flat control bits of one level. */
  lemma {:induction false} FlatControl(p: seq<nat>, c: seq<nat>, w: nat)
    requires IsPerm(p) && w > 1 && |p| == Pow2(w) && c == CycleMins(p)
    ensures Splits(p, c) && IsPerm(MHalf(p, c, 0)) && IsPerm(MHalf(p, c, 1))
    ensures |Flat(Control(MHalf(p, c, 0), w - 1))| == |Flat(Control(MHalf(p, c, 1), w - 1))|
    ensures |Flat(Control(MHalf(p, c, 0), w - 1))| == (2 * w - 3) * Pow2(w - 2)
    ensures Flat(Control(p, w)) ==
            FBits(c) + Interleave(Flat(Control(MHalf(p, c, 0), w - 1)), Flat(Control(MHalf(p, c, 1), w - 1)))
              + LBits(p, c)
  {
    hide Control, Flat, Assemble, Interleave, IsPerm, Splits, MHalf, FBits, LBits, CycleMins;
    ControlUnfold(p, w);
    var a, b := Control(MHalf(p, c, 0), w - 1), Control(MHalf(p, c, 1), w - 1);
    FlatLength(a, Pow2(w - 2));
    FlatAssemble(FBits(c), a, b, LBits(p, c), w);
  }

  lemma FlatAssemble(f: seq<bool>, a: seq<seq<bool>>, b: seq<seq<bool>>, l: seq<bool>, w: nat)
    requires w > 1 && |f| == |l| == Pow2(w - 1) && IsControl(a, w - 1) && IsControl(b, w - 1)
    ensures |Flat(a)| == |Flat(b)|
    ensures Flat(Assemble(f, a, b, l, w)) == f + Interleave(Flat(a), Flat(b)) + l
  {
    FlatMiddle(a, b);
    FlatConcat([f] + Middle(a, b), [l]);
    FlatConcat([f], Middle(a, b));
    FlatOne(f);
    FlatOne(l);
  }

  lemma FlatOne(l: seq<bool>)
    ensures Flat([l]) == l
  {
    assert [l][1..] == [];
  }

  lemma {:induction false} FlatMiddle(a: seq<seq<bool>>, b: seq<seq<bool>>)
    requires |a| == |b| && forall t :: 0 <= t < |a| ==> |a[t]| == |b[t]|
    ensures |Flat(a)| == |Flat(b)|
    ensures Flat(Middle(a, b)) == Interleave(Flat(a), Flat(b))
  {
    if a != [] {
      FlatMiddle(a[1..], b[1..]);
      assert Middle(a, b)[1..] == Middle(a[1..], b[1..]);
      InterleaveConcat(a[0], b[0], Flat(a[1..]), Flat(b[1..]));
    }
  }

  lemma InterleaveConcat(u: seq<bool>, v: seq<bool>, u': seq<bool>, v': seq<bool>)
    requires |u| == |v| && |u'| == |v'|
    ensures Interleave(u + u', v + v') == Interleave(u, v) + Interleave(u', v')
  {
  }

  /** The loops up to the first layer: F o pi is left in B. */
  method UpToFirstLayer(out: array<int>, pos: nat, step: nat, pi: array<int>, pb: nat, w: nat, n: nat, temp: array<int>,
                        ghost p: seq<nat>, ghost c: seq<nat>)
    returns (next: nat)
    requires 2 * n <= temp.Length && 2 <= w <= 14 && n == Pow2(w) && 4 <= n <= 0x4000 && |p| == n && IsPerm(p)
    requires View(pi[..], pb, p) && (pi == temp ==> pb >= 2 * n) && out != temp && out != pi
    requires c == CycleMins(p)
    requires Bytes(out[..]) && step > 0 && FitsOut(pos, step, n / 2, out.Length)
    modifies temp, out
    ensures Rest(temp, n) == old(Rest(temp, n))
    ensures Packed(B(temp, n), Identity(n), FPi(p, c), 0x1_0000)
    ensures next == pos + step * (n / 2)
    ensures Toggled(old(out[..]), out[..], FBits(c), pos, step)
  {
    hide Packed, View, IsPerm, CycleMins, InvSeq, FSeq, FPi, FBits, Toggled, Bytes, Permuted, FitsOut;
    ghost var mem := pi[..];
    Minima(temp, w, n, pi, pb, p);
    ViewKept(mem, pi[..], pb, p, n, pi == temp);
    InvertPi(temp, n, pi, pb, p);
    InvSeqPerm(p);
    CycleMinsBelow(p, c);
    next := WriteFirstLayer(out, pos, step, temp, n, c, InvSeq(p));
    SortB(temp, n, InvSeq(p), FSeq(c), 0x1_0000);
    SortedFirst(p, c);
  }

  /** The loops from the last layer on: the two halves of the middle permutation are left behind A. */
  method FromLastLayer(out: array<int>, pos: nat, step: nat, n: nat, temp: array<int>, ghost p: seq<nat>,
      ghost c: seq<nat>)
    returns (next: nat)
    requires 2 * n <= temp.Length && 4 <= n <= 0x4000 && n % 4 == 0 && |p| == n && IsPerm(p) && out != temp
    requires |c| == n && Splits(p, c)
    requires Packed(B(temp, n), Identity(n), FPi(p, c), 0x1_0000)
    requires Bytes(out[..]) && step > 0 && FitsOut(pos, step, n / 2, out.Length)
    modifies temp, out
    ensures Rest(temp, n) == old(Rest(temp, n))
    ensures View(temp[..], n + n / 4, MHalf(p, c, 0)) && View(temp[..], n + n / 2, MHalf(p, c, 1))
    ensures next == pos + step * (n / 2)
    ensures Toggled(old(out[..]), out[..], LBits(p, c), pos, step)
  {
    hide Packed, View, IsPerm, SplitAt, FPi, LSeq, MSeq, MHalf, LBits, Toggled, Bytes, Permuted, FitsOut;
    next := WriteLastLayer(out, pos, step, temp, n, p, c);
    LSeqPerm(p, c);
    SortA(temp, n, LSeq(p, c), FPi(p, c), 0x1_0000);
    SortedLast(p, c);
    StoreHalves(temp, n, p, c);
  }

  lemma CycleMinsBelow(p: seq<nat>, c: seq<nat>)
    requires IsPerm(p) && |p| % 2 == 0 && c == CycleMins(p)
    ensures forall x :: 0 <= x < |c| ==> c[x] < |p|
  {
    PiBarMirrored(p);
  }

  /** pi survives when it lies elsewhere or behind A and B. */
  lemma ViewKept(before: seq<int>, after: seq<int>, pb: nat, p: seq<nat>, n: nat, shared: bool)
    requires View(before, pb, p) && |before| == |after| && (shared ==> pb >= 2 * n && 2 * n <= |before|)
    requires if shared then before[2 * n..] == after[2 * n..] else before == after
    ensures View(after, pb, p)
  {
    hide HalfWord;
    forall x | 0 <= x < |p|
      ensures Int16At(after, pb, x) == p[x]
    {
      assert Int16At(before, pb, x) == p[x];
      if shared {
        assert before[pb + x / 2] == before[2 * n..][pb + x / 2 - 2 * n];
        assert after[pb + x / 2] == after[2 * n..][pb + x / 2 - 2 * n];
      }
    }
  }

  /** cbrecursion xors the control bits of the permutation into the positions pos, pos+step, ...,
      each of the (2w-1)n/2 positions once and no other, and changes nothing behind A and B. */
  method CbRecursion(out: array<int>, pos: nat, step: nat, pi: array<int>, pb: nat, w: nat, n: nat, temp: array<int>,
                     ghost p: seq<nat>)
    requires 2 * n <= temp.Length && 1 <= w <= 14 && n == Pow2(w) && |p| == n && IsPerm(p)
    requires View(pi[..], pb, p) && (pi == temp ==> pb >= 2 * n) && out != temp && out != pi
    requires Bytes(out[..]) && step > 0 && FitsOut(pos, step, (2 * w - 1) * (n / 2), out.Length)
    modifies temp, out
    ensures Rest(temp, n) == old(Rest(temp, n))
    ensures Toggled(old(out[..]), out[..], Flat(Control(p, w)), pos, step)
    decreases w, 1
  {
    if w == 1 {
      var v := ReadInt16(pi, pb, 0, p);
      XorOut(out, pos, v);
      BaseCase(old(out[..]), out[..], p, pos, step);
    } else {
      hide View, Splits, CycleMins, MHalf, FBits, LBits, Toggled, Control, Flat, Interleave, Bytes, IsPerm, Packed,
          FPi, FitsOut;
      ghost var c := CycleMins(p);
      SizeFacts(w, n);
      FlatControl(p, c, w);
      var posL := Positions(pos, step, w, n / 2, out.Length);
      ghost var s0 := out[..];
      var next := UpToFirstLayer(out, pos, step, pi, pb, w, n, temp, p, c);
      ghost var s1 := out[..];
      ToggledBytes(s0, s1, FBits(c), pos, step);
      var last := FromLastLayer(out, posL, step, n, temp, p, c);
      ghost var s2 := out[..];
      ToggledBytes(s1, s2, LBits(p, c), posL, step);
      ghost var s3 := CallTwice(out, next, step, w, n, temp, MHalf(p, c, 0), MHalf(p, c, 1));
      TogglePartsControl(s0, s1, s2, s3, out[..], p, c, w, pos, step, next, posL);
    }
  }

  /** The two recursive calls: the second half of q is still intact after the first call. */
  method CallTwice(out: array<int>, next: nat, step: nat, w: nat, n: nat, temp: array<int>,
                   ghost q0: seq<nat>, ghost q1: seq<nat>)
    returns (ghost s3: seq<int>)
    requires 2 * n <= temp.Length && 2 <= w <= 14 && n == Pow2(w) && n % 4 == 0 && n / 2 == Pow2(w - 1) && out != temp
    requires |q0| == |q1| == n / 2 && IsPerm(q0) && IsPerm(q1)
    requires View(temp[..], n + n / 4, q0) && View(temp[..], n + n / 2, q1)
    requires Bytes(out[..]) && step > 0
    requires FitsOut(next, step * 2, (2 * (w - 1) - 1) * (n / 2 / 2), out.Length)
    requires FitsOut(next + step, step * 2, (2 * (w - 1) - 1) * (n / 2 / 2), out.Length)
    modifies temp, out
    ensures Rest(temp, n) == old(Rest(temp, n))
    ensures Toggled(old(out[..]), s3, Flat(Control(q0, w - 1)), next, step * 2)
    ensures Toggled(s3, out[..], Flat(Control(q1, w - 1)), next + step, step * 2)
    decreases w, 0
  {
    hide View, Toggled, Control, Flat, Bytes, IsPerm, FitsOut;
    ghost var s2, m2 := out[..], temp[..];
    CbRecursion(out, next, step * 2, temp, n + n / 4, w - 1, n / 2, temp, q0);
    s3 := out[..];
    ToggledBytes(s2, s3, Flat(Control(q0, w - 1)), next, step * 2);
    ViewKept(m2, temp[..], n + n / 2, q1, n / 2, true);
    CbRecursion(out, next + step, step * 2, temp, n + n / 2, w - 1, n / 2, temp, q1);
    assert Rest(temp, n) == Rest(temp, n / 2)[n..] == m2[n..][n..] == m2[2 * n..];
  }

  lemma {:induction false} TogglePartsControl(s0: seq<int>, s1: seq<int>, s2: seq<int>, s3: seq<int>, s4: seq<int>,
      p: seq<nat>, c: seq<nat>,
                                              w: nat, pos: nat, step: nat, posM: nat, posL: nat)
    requires IsPerm(p) && w > 1 && |p| == Pow2(w) && c == CycleMins(p) && step > 0 && |p| % 4 == 0
    requires IsPerm(MHalf(p, c, 0)) && IsPerm(MHalf(p, c, 1))
    requires posM == pos + step * (|p| / 2) && posL == pos + step * ((2 * w - 2) * (|p| / 2))
    requires Toggled(s0, s1, FBits(c), pos, step) && Toggled(s1, s2, LBits(p, c), posL, step)
    requires Toggled(s2, s3, Flat(Control(MHalf(p, c, 0), w - 1)), posM, step * 2)
    requires Toggled(s3, s4, Flat(Control(MHalf(p, c, 1), w - 1)), posM + step, step * 2)
    ensures Toggled(s0, s4, Flat(Control(p, w)), pos, step)
  {
    hide Splits, CycleMins, MHalf, FBits, LBits, Toggled, Control, Flat, Interleave, IsPerm;
    var a, b := Flat(Control(MHalf(p, c, 0), w - 1)), Flat(Control(MHalf(p, c, 1), w - 1));
    FlatControl(p, c, w);
    PartPositions(step, w, |p| / 2);
    ToggleParts(s0, s1, s2, s3, s4, FBits(c), a, b, LBits(p, c), pos, step, posM, posL);
  }

  lemma PartPositions(step: nat, w: nat, h: nat)
    requires w >= 2 && h % 2 == 0
    ensures step * h + step * (2 * ((2 * w - 3) * (h / 2))) == step * ((2 * w - 2) * h)
  {
    var k, g := 2 * w - 3, h / 2;
    assert (k + 1) * h == k * h + h;
    assert k * h == 2 * (k * g);
    assert step * h + step * (2 * (k * g)) == step * (h + 2 * (k * g));
  }

  lemma BaseCase(s0: seq<int>, s1: seq<int>, p: seq<nat>, pos: nat, step: nat)
    requires step > 0 && IsPerm(p) && |p| == 2 == Pow2(1) && Toggled(s0, s1, [p[0] == 1], pos, 1)
    ensures Toggled(s0, s1, Flat(Control(p, 1)), pos, step)
  {
    FlatOne([p[0] == 1]);
    assert Control(p, 1) == [[p[0] == 1]];
    forall P | 0 <= P < 8 * |s0|
      ensures OutBit(s1, P) == (OutBit(s0, P) != Prog([p[0] == 1], pos, step, P))
    {
      IndexIs(pos, 1, P);
      IndexIs(pos, step, P);
      OutBits.IndexAt(pos, step, 0);
      OutBits.IndexAt(pos, 1, 0);
    }
  }

  lemma SizeFacts(w: nat, n: nat)
    requires 2 <= w <= 14 && n == Pow2(w)
    ensures n % 4 == 0 && 4 <= n <= 0x4000 && n / 2 == Pow2(w - 1) && n / 4 == Pow2(w - 2)
  {
    hide Pow2;
    assert Pow2(14) == 0x4000 && Pow2(2) == 4 by { FewPowers(); }
    Pow2Mono(w, 14);
    Pow2Mono(2, w);
    Quarter(w);
    Quarters(n, Pow2(w - 2));
  }

  lemma Quarters(n: nat, k: nat)
    requires n == 4 * k
    ensures n % 4 == 0 && n / 2 == 2 * k && n / 4 == k
  {
  }

  lemma FewPowers()
    ensures Pow2(14) == 0x4000 && Pow2(2) == 4
  {
    SmallPowers();
    Pow2Add(8, 6);
  }

  lemma Quarter(w: nat)
    requires w >= 2
    ensures Pow2(w) == 2 * Pow2(w - 1) && Pow2(w - 1) == 2 * Pow2(w - 2)
  {
  }

  /** The start of the last layer, as the source computes it, and the bounds of all parts. */
  method Positions(pos: nat, step: nat, w: nat, h: nat, ghost size: nat) returns (posL: nat)
    requires w >= 2 && step > 0 && h >= 2 && h % 2 == 0 && FitsOut(pos, step, (2 * w - 1) * h, size)
    ensures posL == pos + step * ((2 * w - 2) * h)
    ensures FitsOut(pos, step, h, size) && FitsOut(posL, step, h, size)
    ensures 0 <= step * h
    ensures FitsOut(pos + step * h, step * 2, (2 * (w - 1) - 1) * (h / 2), size)
    ensures FitsOut(pos + step * h + step, step * 2, (2 * (w - 1) - 1) * (h / 2), size)
  {
    ghost var k, g := 2 * w - 3, h / 2;
    ghost var len := (2 * w - 1) * h;
    LengthFacts(k, h, g);
    StepFacts(step, k, h);
    posL := pos;
    posL := posL + step * h;
    posL := posL + (2 * w - 3) * step * h;
    EndFits(pos, step, h, len, step * (h - 1));
    EndFits(pos, step, k * h + 2 * h, len, step * (k * h + h) + step * (h - 1));
    EndFits(pos, step, h + 2 * (k * g) - 1, len, step * h + (step * 2) * (k * g - 1));
    EndFits(pos, step, h + 2 * (k * g), len, step * h + step + (step * 2) * (k * g - 1));
  }

  lemma LengthFacts(k: nat, h: nat, g: nat)
    requires h == 2 * g && g >= 1 && k >= 1
    ensures (k + 2) * h == k * h + 2 * h && (k + 1) * h == k * h + h && k * h == 2 * (k * g) && k * g >= 1
  {
    assert (k + 2) * h == k * h + 2 * h;
    assert (k + 1) * h == k * h + h;
    MulLe(g, 1, k);
  }

  lemma StepFacts(step: nat, k: nat, h: nat)
    ensures step * h >= 0 && k * h >= 0 && step * (k * h + h) >= 0
    ensures k * step * h == step * (k * h)
    ensures step * (k * h + h) == step * (k * h) + step * h
  {
    MulLe(step, 0, h);
    MulLe(h, 0, k);
    MulLe(step, 0, k * h + h);
    assert k * step * h == step * (k * h);
  }

  lemma EndFits(pos: nat, step: nat, m: nat, len: nat, v: int)
    requires 1 <= m <= len && v == step * (m - 1)
    ensures v <= step * (len - 1)
  {
    MulLe(step, m - 1, len - 1);
  }
}
