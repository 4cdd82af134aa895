/** The public key (pk_gen.c), the ciphertext (syndrome in encrypt.c) and the word that decrypt.c forms from it. */
module Syndrome {
  import opened Bits
  import opened OutBits
  import opened BitMatrix
  import opened Elimination
  import opened Support

  /** Bytes per public-key row: (8*width - n + 7) / 8, for n rows of width bytes. */
  function RowBytes(n: nat, width: nat): int { (8 * width - n + 7) / 8 }

  // ---------- the public key ----------

  /** pk holds, row after row, the bytes of each matrix row from byte n/8 on. */
  ghost predicate KeyHolds(pk: seq<int>, mat: seq<seq<int>>, width: nat, k: nat) {
    && ByteMat(mat, width) && |mat| <= 8 * width && k <= |mat|
    && |pk| >= |mat| * RowBytes(|mat|, width)
    && forall i, j :: 0 <= i < k && 0 <= j < RowBytes(|mat|, width) ==> KeyByte(pk, mat, width, i, j)
  }

  ghost predicate KeyByte(pk: seq<int>, mat: seq<seq<int>>, width: nat, i: nat, j: nat)
    requires ByteMat(mat, width) && |mat| <= 8 * width && i < |mat|
  {
    var b := i * RowBytes(|mat|, width) + j;
    0 <= b < |pk| && |mat| / 8 + j < width && pk[b] == mat[i][|mat| / 8 + j]
  }

  lemma KeyOffset(n: nat, width: nat, i: nat)
    requires i < n <= 8 * width
    ensures var b := RowBytes(n, width); b >= 0 && n / 8 + b == width && 0 <= i * b && i * b + b == (i + 1) * b <= n * b
  {
    var b := RowBytes(n, width);
    MulLe(b, 0, i);
    MulLe(b, i + 1, n);
    assert (i + 1) * b == i * b + b;
  }

  /** The loop over memcpy. */
  method StoreKey(pk: array<int>, mat: array<seq<int>>, ghost width: nat)
    requires ByteMat(mat[..], width) && 0 < mat.Length <= 8 * width
    requires pk.Length >= mat.Length * RowBytes(mat.Length, width)
    modifies pk
    ensures KeyHolds(pk[..], mat[..], width, mat.Length)
  {
    hide KeyByte, Bytes, RowBytes;
    var n, b := mat.Length, RowBytes(mat.Length, |mat[0]|);
    KeyOffset(n, width, 0);
    for i := 0 to n
      invariant KeyHolds(pk[..], mat[..], width, i)
    {
      KeyOffset(n, width, i);
      ghost var was := pk[..];
      for c := 0 to b
        invariant forall x :: 0 <= x < pk.Length ==>
          pk[x] == if i * b <= x < i * b + c then mat[i][n / 8 + (x - i * b)] else was[x]
      {
        pk[i * b + c] := mat[i][n / 8 + c];
      }
      KeyRowStored(was, pk[..], mat[..], width, i);
    }
  }

  /** Byte j of key row i is byte n/8 + j of matrix row i. */
  lemma KeyHoldsAt(pk: seq<int>, mat: seq<seq<int>>, width: nat, i: nat, j: nat)
    requires KeyHolds(pk, mat, width, |mat|) && i < |mat| && j < RowBytes(|mat|, width)
    ensures var x := i * RowBytes(|mat|, width) + j;
            0 <= x < |pk| && |mat| / 8 + j < |mat[i]| == width && pk[x] == mat[i][|mat| / 8 + j]
  {
    hide RowBytes, Bytes;
    assert KeyByte(pk, mat, width, i, j);
  }

  /** A row of n identity bits and 8 * RowBytes key bits. */
  lemma RowBytesIs(n: nat, width: nat)
    requires n % 8 == 0 && n <= 8 * width
    ensures n + 8 * RowBytes(n, width) == 8 * width
  {
  }

  lemma KeyRowStored(was: seq<int>, pk: seq<int>, mat: seq<seq<int>>, width: nat, i: nat)
    requires KeyHolds(was, mat, width, i) && i < |mat| && |pk| == |was|
    requires RowBytes(|mat|, width) >= 0 && 0 <= i * RowBytes(|mat|, width) && |mat| / 8 + RowBytes(|mat|,
        width) == width
    requires i * RowBytes(|mat|, width) + RowBytes(|mat|, width) <= |pk|
    requires forall x :: 0 <= x < |pk| ==> pk[x] == var s := i * RowBytes(|mat|, width);
      if s <= x < s + RowBytes(|mat|, width) then mat[i][|mat| / 8 + (x - s)] else was[x]
    ensures KeyHolds(pk, mat, width, i + 1)
  {
    hide RowBytes, Bytes;
    var b := RowBytes(|mat|, width);
    forall r, j | 0 <= r < i + 1 && 0 <= j < b
      ensures KeyByte(pk, mat, width, r, j)
    {
      if r < i {
        assert KeyByte(was, mat, width, r, j);
        MulLe(b, r + 1, i);
        assert (r + 1) * b == r * b + b;
      }
    }
  }

  lemma SameMatrix(a: seq<seq<int>>, b: seq<seq<int>>, width: nat)
    requires ByteMat(a, width) && ByteMat(b, width) && |a| == |b| && MatBits(a, width) == MatBits(b, width)
    ensures a == b
  {
    hide RowBits;
    forall r | 0 <= r < |a|
      ensures a[r] == b[r]
    {
      assert MatBits(a, width)[r] == MatBits(b, width)[r];
      RowBitsEqual(a[r], b[r]);
    }
  }

  /** Whatever carried out the elimination of M (the loops of pk_gen or the pipeline of Versat_pk_gen), the
      reduced matrix and the public key are the same. */
  lemma {:induction false} SameKey(a: seq<seq<int>>, b: seq<seq<int>>, pka: seq<int>, pkb: seq<int>,
                                   M: seq<seq<bool>>, width: nat)
    requires Eliminated(a, M, |M|, width) && Eliminated(b, M, |M|, width)
    requires KeyHolds(pka, a, width, |M|) && KeyHolds(pkb, b, width, |M|)
    requires |pka| == |pkb| == |M| * RowBytes(|M|, width)
    ensures a == b && pka == pkb
  {
    hide MatBits, RowBytes, KeyByte, Elim;
    SameMatrix(a, b, width);
    var w := RowBytes(|M|, width);
    forall x | 0 <= x < |pka|
      ensures pka[x] == pkb[x]
    {
      KeyOffset(|M|, width, 0);
      DivBasics(x, w);
      var i, j := x / w, x % w;
      if i >= |M| {
        MulLe(w, |M|, i);
      }
      assert KeyByte(pka, a, width, i, j) && KeyByte(pkb, b, width, i, j);
      SameByte(pka, pkb, a, width, i, j);
      assert i * w + j == x;
    }
  }

  lemma SameByte(pka: seq<int>, pkb: seq<int>, m: seq<seq<int>>, width: nat, i: nat, j: nat)
    requires ByteMat(m, width) && |m| <= 8 * width && i < |m| && KeyByte(pka, m, width, i, j) && KeyByte(pkb, m,
        width, i, j)
    ensures var x := i * RowBytes(|m|, width) + j; 0 <= x < |pka| && x < |pkb| && pka[x] == pkb[x]
  {
  }

  // ---------- the rows that syndrome rebuilds ----------

  /** Row i: the unit bit i in the first n/8 bytes, the public key bytes behind. */
  ghost function KeyRow(pk: seq<int>, n: nat, width: nat, i: nat): (r: seq<bool>)
    requires n % 8 == 0 && i < n <= 8 * width && Bytes(pk) && |pk| >= n * RowBytes(n, width)
    ensures |r| == 8 * width
  {
    KeyOffset(n, width, i);
    seq(8 * width, P requires 0 <= P < 8 * width =>
      if P < n then P == i else OutBit(pk, 8 * (i * RowBytes(n, width)) + (P - n)))
  }

  ghost function KeyMatrix(pk: seq<int>, n: nat, width: nat): (r: seq<seq<bool>>)
    requires n % 8 == 0 && n <= 8 * width && Bytes(pk) && |pk| >= n * RowBytes(n, width)
    ensures |r| == n && IsMat(r, 8 * width)
  {
    seq(n, i requires 0 <= i < n => KeyRow(pk, n, width, i))
  }

  lemma KeyRowBit(pk: seq<int>, n: nat, width: nat, i: nat, s: nat, P: nat)
    requires n % 8 == 0 && i < n <= P < 8 * width && Bytes(pk) && |pk| >= n * RowBytes(n, width)
    requires s == i * RowBytes(n, width)
    ensures s + (P / 8 - n / 8) < |pk| && 0 <= pk[s + (P / 8 - n / 8)]
    ensures KeyRow(pk, n, width, i)[P] == Bit(pk[s + (P / 8 - n / 8)], P % 8)
  {
    hide Bit, RowBytes;
    KeyOffset(n, width, i);
    assert KeyRow(pk, n, width, i)[P] == OutBit(pk, 8 * s + (P - n));
    assert (8 * s + (P - n)) / 8 == s + (P / 8 - n / 8) && (8 * s + (P - n)) % 8 == P % 8;
  }

  /** From the key of a systematic matrix, encryption rebuilds exactly that matrix. */
  lemma {:induction false} KeyMatrixIs(pk: seq<int>, mat: seq<seq<int>>, width: nat)
    requires |mat| % 8 == 0 && Bytes(pk) && KeyHolds(pk, mat, width, |mat|)
    requires Reduced(MatBits(mat, width), |mat|)
    ensures KeyMatrix(pk, |mat|, width) == MatBits(mat, width)
  {
    hide Bit, KeyByte, RowBytes;
    var n := |mat|;
    forall i | 0 <= i < n
      ensures KeyMatrix(pk, n, width)[i] == MatBits(mat, width)[i]
    {
      KeyOffset(n, width, i);
      forall P | 0 <= P < 8 * width
        ensures KeyRow(pk, n, width, i)[P] == RowBits(mat[i])[P]
      {
        if P < n {
          assert MatBits(mat, width)[i][P] == (i == P);
        } else {
          KeyBit(pk, mat, width, i, P);
        }
      }
    }
  }

  lemma KeyBit(pk: seq<int>, mat: seq<seq<int>>, width: nat, i: nat, P: nat)
    requires |mat| % 8 == 0 && Bytes(pk) && KeyHolds(pk, mat, width, |mat|) && i < |mat| <= P < 8 * width
    requires RowBytes(|mat|, width) >= 0 && 0 <= i * RowBytes(|mat|, width) && |mat| / 8 + RowBytes(|mat|,
        width) == width
    ensures KeyRow(pk, |mat|, width, i)[P] == RowBits(mat[i])[P]
  {
    hide Bit, RowBytes;
    var n, s, j := |mat|, i * RowBytes(|mat|, width), P / 8 - |mat| / 8;
    assert KeyByte(pk, mat, width, i, j);
    KeyRowBit(pk, n, width, i, s, P);
  }

  // ---------- parities ----------

  /** The exclusive or of all bits. */
  function Parity(x: nat): bool {
    x > 0 && (x % 2 == 1) != Parity(x / 2)
  }

  lemma ParityXor(a: nat, b: nat)
    ensures Parity(Xor(a, b)) == (Parity(a) != Parity(b))
    decreases a + b
  {
    if a > 0 {
      assert Xor(a, b) / 2 == Xor(a / 2, b / 2);
      ParityXor(a / 2, b / 2);
    }
  }

  /** The xor of the bits below k, for a word below 2^k. */
  function BitsXor(x: nat, k: nat): bool {
    k > 0 && BitsXor(x, k - 1) != Bit(x, k - 1)
  }

  lemma BitsXorHalf(x: nat, k: nat)
    requires k > 0
    ensures BitsXor(x, k) == (Bit(x, 0) != BitsXor(x / 2, k - 1))
  {
    if k > 1 {
      BitsXorHalf(x, k - 1);
    }
  }

  lemma ParityBits(x: nat, k: nat)
    requires x < Pow2(k)
    ensures Parity(x) == BitsXor(x, k)
  {
    if k > 0 {
      BitsXorHalf(x, k);
      ParityBits(x / 2, k - 1);
    }
  }

  /** b ^= b >> 4; b ^= b >> 2; b ^= b >> 1; b &= 1 */
  function Fold(b: nat): nat {
    var b4 := Xor(b, Shr(b, 4));
    var b2 := Xor(b4, Shr(b4, 2));
    var b1 := Xor(b2, Shr(b2, 1));
    b1 % 2
  }

  lemma FoldParity(b: nat)
    requires b < 256
    ensures Fold(b) == B2N(Parity(b))
  {
    hide Xor, Shr, Bit, BitsXor, Parity;
    var b4 := Xor(b, Shr(b, 4));
    var b2 := Xor(b4, Shr(b4, 2));
    var b1 := Xor(b2, Shr(b2, 1));
    SmallPowers();
    ParityBits(b, 8);
    EightBits(b);
    FoldBit(b2, 1, 0);
    FoldBit(b4, 2, 0);
    FoldBit(b4, 2, 1);
    FoldBit(b, 4, 0);
    FoldBit(b, 4, 1);
    FoldBit(b, 4, 2);
    FoldBit(b, 4, 3);
    assert Bit(b1, 0) == (b1 % 2 == 1) by { BitIsShift(b1, 0); DivUnique(b1, 1, b1, 0); }
  }

  lemma FoldBit(x: nat, k: nat, i: nat)
    ensures Bit(Xor(x, Shr(x, k)), i) == (Bit(x, i) != Bit(x, i + k))
  {
    XorBit(x, Shr(x, k), i);
    BitShr(x, k, i);
  }

  lemma EightBits(b: nat)
    ensures BitsXor(b, 8) ==
      (((Bit(b, 0) != Bit(b, 4)) != (Bit(b, 2) != Bit(b, 6))) != ((Bit(b, 1) != Bit(b, 5)) != (Bit(b, 3) != Bit(b, 7))))
  {
    hide Bit;
    assert BitsXor(b, 1) == Bit(b, 0);
    assert BitsXor(b, 2) == (Bit(b, 0) != Bit(b, 1));
    assert BitsXor(b, 4) == ((BitsXor(b, 2) != Bit(b, 2)) != Bit(b, 3));
    assert BitsXor(b, 6) == ((BitsXor(b, 4) != Bit(b, 4)) != Bit(b, 5));
    assert BitsXor(b, 8) == ((BitsXor(b, 6) != Bit(b, 6)) != Bit(b, 7));
  }

  /** One byte of the product: the parity of row[j] & e[j]. */
  lemma {:induction false} ByteDot(row: seq<int>, e: seq<int>, j: nat, k: nat)
    requires Bytes(row) && Bytes(e) && |row| == |e| && j < |row| && k <= 8
    ensures Dot(RowBits(row), RowBits(e), 8 * j + k) ==
            (Dot(RowBits(row), RowBits(e), 8 * j) != BitsXor(And(row[j], e[j]), k))
  {
    hide Bit;
    if k > 0 {
      ByteDot(row, e, j, k - 1);
      AndBit(row[j], e[j], k - 1);
      assert (8 * j + k - 1) / 8 == j && (8 * j + k - 1) % 8 == k - 1;
      assert 8 * j + (k - 1) == 8 * j + k - 1;
    }
  }

  /** The loop over b ^= row[j] & e[j], and the folding. */
  method RowProduct(row: array<int>, e: array<int>) returns (b: nat)
    requires row.Length == e.Length && Bytes(row[..]) && Bytes(e[..])
    ensures b == B2N(Dot(RowBits(row[..]), RowBits(e[..]), 8 * e.Length))
  {
    hide Dot, RowBits, Parity, Bit, BitsXor, Fold;
    var j := 0;
    b := 0;
    SmallPowers();
    DotZero(RowBits(row[..]), RowBits(e[..]));
    while j < e.Length
      invariant j <= e.Length && b < 256 && Parity(b) == Dot(RowBits(row[..]), RowBits(e[..]), 8 * j)
    {
      var x := And(row[j], e[j]);
      AndBound(row[j], e[j]);
      XorBound(b, x, 8);
      ParityXor(b, x);
      ParityBits(x, 8);
      ByteDot(row[..], e[..], j, 8);
      b := Xor(b, x);
      j := j + 1;
    }
    FoldParity(b);
    b := Fold(b);
  }

  lemma DotZero(a: seq<bool>, v: seq<bool>)
    ensures Dot(a, v, 0) == Parity(0)
  {
  }

  // ---------- syndrome ----------

  /** The first i bits of s are the products of the rows of K with e, the others are zero. */
  ghost predicate Products(s: seq<int>, K: seq<seq<bool>>, e: seq<bool>, i: nat)
  {
    && Bytes(s) && IsMat(K, |e|) && i <= |K| <= 8 * |s|
    && forall x :: 0 <= x < 8 * |s| ==> OutBit(s, x) == (x < i && Dot(K[x], e, |e|))
  }

  lemma ProductsStart(s: seq<int>, K: seq<seq<bool>>, e: seq<bool>)
    requires IsMat(K, |e|) && |K| <= 8 * |s| && forall j :: 0 <= j < |s| ==> s[j] == 0
    ensures Products(s, K, e, 0)
  {
    hide Bit, Dot;
    forall x | 0 <= x < 8 * |s|
      ensures !OutBit(s, x)
    {
      BitZero(x % 8);
    }
  }

  /** s[i / 8] |= b << (i % 8) */
  lemma ProductsNext(s: seq<int>, K: seq<seq<bool>>, e: seq<bool>, i: nat, b: nat)
    requires Products(s, K, e, i) && i < |K| && b == B2N(Dot(K[i], e, |e|))
    ensures Products(s[i / 8 := Or(s[i / 8], Shl(b, i % 8))], K, e, i + 1)
  {
    hide Bit, Or, Shl, Dot;
    var t := s[i / 8 := Or(s[i / 8], Shl(b, i % 8))];
    SetBit(s[i / 8], b, i % 8, 0);
    forall x | 0 <= x < 8 * |s|
      ensures OutBit(t, x) == (x < i + 1 && Dot(K[x], e, |e|))
    {
      if x / 8 == i / 8 {
        SetBit(s[i / 8], b, i % 8, x % 8);
        assert (x % 8 == i % 8) == (x == i);
      }
      assert OutBit(s, x) == (x < i && Dot(K[x], e, |e|));
    }
  }

  /** Rebuilding row i. */
  method BuildRow(row: array<int>, pk: array<int>, n: nat, i: nat)
    requires row != pk && n % 8 == 0 && i < n <= 8 * row.Length && Bytes(pk[..])
    requires pk.Length >= n * RowBytes(n, row.Length)
    modifies row
    ensures Bytes(row[..]) && RowBits(row[..]) == KeyRow(pk[..], n, row.Length, i)
  {
    hide Or, Shl, Bit, RowBytes;
    var width, b := row.Length, RowBytes(n, row.Length);
    KeyOffset(n, width, i);
    for j := 0 to width
      invariant forall k :: 0 <= k < j ==> row[k] == 0
    {
      row[j] := 0;
    }
    for j := 0 to b
      invariant forall k :: 0 <= k < width ==> row[k] == if width - b <= k < width - b + j then pk[i * b
          + (k - (width - b))] else 0
    {
      row[width - b + j] := pk[i * b + j];
    }
    ghost var was := row[..];
    SetBit(0, 1, i % 8, 0);
    row[i / 8] := Or(row[i / 8], Shl(1, i % 8));
    forall P | 0 <= P < 8 * width
      ensures RowBits(row[..])[P] == KeyRow(pk[..], n, width, i)[P]
    {
      RowBitBuilt(was, row[..], pk[..], n, width, i, P);
    }
  }

  lemma RowBitBuilt(was: seq<int>, row: seq<int>, pk: seq<int>, n: nat, width: nat, i: nat, P: nat)
    requires n % 8 == 0 && i < n <= 8 * width && Bytes(pk) && |pk| >= n * RowBytes(n, width)
    requires |was| == |row| == width && Bytes(row) && P < 8 * width
    requires RowBytes(n, width) >= 0 && n / 8 + RowBytes(n, width) == width
    requires 0 <= i * RowBytes(n, width) && i * RowBytes(n, width) + RowBytes(n, width) <= |pk|
    requires forall k :: 0 <= k < width ==>
      was[k] == if n / 8 <= k then pk[i * RowBytes(n, width) + (k - n / 8)] else 0
    requires row == was[i / 8 := Or(0, Shl(1, i % 8))]
    ensures RowBits(row)[P] == KeyRow(pk, n, width, i)[P]
  {
    hide Or, Shl, Bit, RowBytes;
    BitZero(P % 8);
    var s := i * RowBytes(n, width);
    if P < n {
      if P / 8 == i / 8 {
        SetBit(0, 1, i % 8, P % 8);
        assert (P % 8 == i % 8) == (P == i);
      }
    } else {
      KeyRowBit(pk, n, width, i, s, P);
    }
  }

  /** syndrome: the n products of the rebuilt rows with e. */
  method Syndrome(s: array<int>, pk: array<int>, e: array<int>, n: nat)
    requires s != pk && s != e && n % 8 == 0 && n <= 8 * e.Length && Bytes(pk[..]) && Bytes(e[..])
    requires pk.Length >= n * RowBytes(n, e.Length) && s.Length == (n + 7) / 8
    modifies s
    ensures Bytes(s[..]) && RowBits(s[..]) == Times(KeyMatrix(pk[..], n, e.Length), RowBits(e[..]))
  {
    hide RowBits, KeyMatrix, Dot, Bytes, Or, Shl, RowBytes, Products;
    var row := new int[e.Length];
    ghost var K, v := KeyMatrix(pk[..], n, e.Length), RowBits(e[..]);
    for i := 0 to s.Length
      invariant forall k :: 0 <= k < i ==> s[k] == 0
    {
      s[i] := 0;
    }
    ProductsStart(s[..], K, v);
    for i := 0 to n
      invariant Products(s[..], K, v, i)
    {
      BuildRow(row, pk, n, i);
      KeyMatrixAt(pk[..], n, e.Length, i);
      var b := RowProduct(row, e);
      ProductsNext(s[..], K, v, i, b);
      ProductByte(s[..], K, v, i);
      s[i / 8] := Or(s[i / 8], Shl(b, i % 8));
    }
    ProductsAll(s[..], K, v);
  }

  lemma ProductByte(s: seq<int>, K: seq<seq<bool>>, e: seq<bool>, i: nat)
    requires Products(s, K, e, i) && i < |K|
    ensures 0 <= s[i / 8] < 256
  {
  }

  lemma KeyMatrixAt(pk: seq<int>, n: nat, width: nat, i: nat)
    requires n % 8 == 0 && i < n <= 8 * width && Bytes(pk) && |pk| >= n * RowBytes(n, width)
    ensures KeyMatrix(pk, n, width)[i] == KeyRow(pk, n, width, i)
  {
  }

  lemma ProductsAll(s: seq<int>, K: seq<seq<bool>>, e: seq<bool>)
    requires Products(s, K, e, |K|) && |K| == 8 * |s|
    ensures Bytes(s) && RowBits(s) == Times(K, e)
  {
    hide Dot, Bit;
    assert |RowBits(s)| == |K|;
    forall x | 0 <= x < |K|
      ensures RowBits(s)[x] == Times(K, e)[x]
    {
      assert OutBit(s, x) == Dot(K[x], e, |e|);
    }
  }

  // ---------- decryption ----------

  /** The first two loops of decrypt: the ciphertext followed by zero bytes. */
  method ZeroExtend(r: array<int>, c: array<int>)
    requires r != c && c.Length <= r.Length && Bytes(c[..])
    modifies r
    ensures Bytes(r[..]) && RowBits(r[..]) == Padded(RowBits(c[..]), 8 * r.Length)
  {
    hide Bit;
    for i := 0 to c.Length
      invariant forall k :: 0 <= k < i ==> r[k] == c[k]
    {
      r[i] := c[i];
    }
    for i := c.Length to r.Length
      invariant forall k :: 0 <= k < i ==> r[k] == if k < c.Length then c[k] else 0
    {
      r[i] := 0;
    }
    forall P | 0 <= P < 8 * r.Length
      ensures RowBits(r[..])[P] == Padded(RowBits(c[..]), 8 * r.Length)[P]
    {
      BitZero(P % 8);
    }
  }

  /** Key generation, encryption and decryption agree on the code: when the elimination of H succeeds with the
      rows mat, pk holds them, c is the ciphertext of e under pk and r is c extended by zeros, then H maps e
      and r to the same vector. */
  lemma {:induction false} SameCode(H: seq<seq<bool>>, mat: seq<seq<int>>, pk: seq<int>, e: seq<int>, c: seq<int>,
                                    r: seq<int>, width: nat)
    requires Eliminated(mat, H, |H|, width) && |H| % 8 == 0
    requires Bytes(pk) && KeyHolds(pk, mat, width, |mat|)
    requires Bytes(e) && |e| == width && Bytes(c) && Bytes(r) && |r| == width && 8 * |c| == |H|
    requires RowBits(c) == Times(KeyMatrix(pk, |mat|, width), RowBits(e))
    requires RowBits(r) == Padded(RowBits(c), 8 * width)
    ensures Times(H, RowBits(r)) == Times(H, RowBits(e))
  {
    hide Elim, Dot, RowBits, MatBits, KeyMatrix, Padded, KeyHolds, Bytes, Reduced;
    ElimReduced(H, |H|, 8 * width);
    KeyMatrixIs(pk, mat, width);
    SameSyndrome(H, RowBits(e));
  }
}
