/** bitrev of util.c and support_gen of benes.c. */
module Support {
  import opened Bits
  import opened Network
  import opened Permutation
  import opened ControlBits
  import opened OutBits
  import opened Transpose
  import opened ControlBitsCheck
  import opened BitSlicedBenes
  import opened BenesOnBytes

  // ---------- bitrev ----------

  /** One line of bitrev: exchange neighbouring groups of d bits. */
  function SwapGroups(a: nat, d: nat, low: nat, high: nat): nat {
    Or(Shl(And(a, low), d), Shr(And(a, high), d))
  }

  function BitRev(a: nat): nat {
    var a1 := SwapGroups(a, 8, 0x00FF, 0xFF00);
    var a2 := SwapGroups(a1, 4, 0x0F0F, 0xF0F0);
    var a3 := SwapGroups(a2, 2, 0x3333, 0xCCCC);
    var a4 := SwapGroups(a3, 1, 0x5555, 0xAAAA);
    Shr(a4, 4)
  }

  function Flip(i: nat, d: nat): int
    requires d > 0
  {
    if LowHalf(i, d) then i + d else i - d
  }

  /** Below 16, low selects the lower group of each pair and high the upper one. */
  ghost predicate GroupMasks(low: nat, high: nat, d: nat)
    requires d > 0
  {
    && low < 0x1_0000 && high < 0x1_0000
    && forall i :: 0 <= i < 16 ==> Bit(low, i) == LowHalf(i, d) && Bit(high, i) == !LowHalf(i, d)
  }

  lemma PatternMasks(d: nat, e: nat, low: nat, high: nat)
    requires d > 0 && d * Pow2(e + 1) == 16
    requires low == Pattern(d, e) < 0x1_0000 && high == Shl(low, d) < 0x1_0000
    ensures GroupMasks(low, high, d)
  {
    hide Bit, Pattern, Pow2, Shl;
    forall i | 0 <= i < 16
      ensures Bit(low, i) == LowHalf(i, d) && Bit(high, i) == !LowHalf(i, d)
    {
      PatternBit(d, e, i);
      BitShl(low, d, i);
      if i >= d {
        PatternBit(d, e, i - d);
        NextGroup(i, d);
      } else {
        DivUnique(i, d, 0, i);
      }
    }
  }

  lemma NextGroup(i: nat, d: nat)
    requires 0 < d <= i
    ensures LowHalf(i, d) == !LowHalf(i - d, d)
  {
    DivBasics(i, d);
    DivUnique(i - d, d, i / d - 1, i % d);
  }

  lemma Masks16()
    ensures GroupMasks(0x00FF, 0xFF00, 8) && GroupMasks(0x0F0F, 0xF0F0, 4)
    ensures GroupMasks(0x3333, 0xCCCC, 2) && GroupMasks(0x5555, 0xAAAA, 1)
  {
    hide Bit, LowHalf, GroupMasks;
    Patterns16();
    PatternMasks(8, 0, 0x00FF, 0xFF00);
    PatternMasks(4, 1, 0x0F0F, 0xF0F0);
    PatternMasks(2, 2, 0x3333, 0xCCCC);
    PatternMasks(1, 3, 0x5555, 0xAAAA);
  }

  lemma Patterns16()
    ensures Pattern(8, 0) == 0xFF && Pattern(4, 1) == 0x0F0F && Pattern(2, 2) == 0x3333 && Pattern(1, 3) == 0x5555
    ensures Pow2(1) == 2 && Pow2(2) == 4 && Pow2(3) == 8 && Pow2(4) == 16 && Pow2(8) == 256
  {
    assert Pow2(8) == 256 && Pow2(4) == 16;
    assert Pattern(4, 0) == 15 && Pattern(2, 0) == 3 && Pattern(1, 0) == 1;
    assert Pattern(2, 1) == 0x33 && Pattern(1, 1) == 5 && Pattern(1, 2) == 0x55;
  }

  lemma {:induction false} SwapGroupsBit(a: nat, d: nat, low: nat, high: nat, i: nat)
    requires d > 0 && d <= 8 && GroupMasks(low, high, d) && a < 0x1_0000 && i < 16
    requires forall k :: 0 <= k < 16 ==> 0 <= Flip(k, d) < 16
    ensures Bit(SwapGroups(a, d, low, high), i) == Bit(a, Flip(i, d))
  {
    hide Bit, And, Or, Shl, Shr, LowHalf;
    OrBit(Shl(And(a, low), d), Shr(And(a, high), d), i);
    BitShl(And(a, low), d, i);
    BitShr(And(a, high), d, i);
    AndBit(a, high, i + d);
    if i >= d {
      AndBit(a, low, i - d);
      NextGroup(i, d);
    }
    NextGroup(i + d, d);
    if i + d >= 16 {
      Pow2Values();
      BitHigh(a, 16, i + d);
      assert Flip(i, d) < 16;
    }
  }

  lemma SwapGroupsBound(a: nat, d: nat, low: nat, high: nat)
    requires a < 0x1_0000 && high < 0x1_0000 && Shl(low, d) < 0x1_0000
    ensures SwapGroups(a, d, low, high) < 0x1_0000
  {
    Pow2Values();
    AndBound(a, low);
    AndBound(a, high);
    MulLe(Pow2(d), And(a, low), low);
    OrBound(Shl(And(a, low), d), Shr(And(a, high), d), 16);
  }

  lemma Flips(i: nat)
    requires i < 16
    ensures 0 <= Flip(i, 8) < 16 && 0 <= Flip(i, 4) < 16 && 0 <= Flip(i, 2) < 16 && 0 <= Flip(i, 1) < 16
    ensures var j := Flip(i, 1); var k := Flip(j, 2); var l := Flip(k, 4); Flip(l, 8) == 15 - i
  {
    hide Flip;
    var a, b, c, e := i / 8, i / 4 % 2, i / 2 % 2, i % 2;
    assert i == 8 * a + 4 * b + 2 * c + e;
    FlipDigits(a, b, c, e);
    FlipDigits(a, b, c, 1 - e);
    FlipDigits(a, b, 1 - c, 1 - e);
    FlipDigits(a, 1 - b, 1 - c, 1 - e);
  }

  /** Each flip changes one binary digit. */
  lemma FlipDigits(a: nat, b: nat, c: nat, e: nat)
    requires a < 2 && b < 2 && c < 2 && e < 2
    ensures var i := 8 * a + 4 * b + 2 * c + e;
            && Flip(i, 1) == 8 * a + 4 * b + 2 * c + (1 - e) && Flip(i, 2) == 8 * a + 4 * b + 2 * (1 - c) + e
            && Flip(i, 4) == 8 * a + 4 * (1 - b) + 2 * c + e && Flip(i, 8) == 8 * (1 - a) + 4 * b + 2 * c + e
  {
  }

  lemma Swaps(a: nat)
    requires a < 0x1_0000
    ensures SwapGroups(a, 8, 0x00FF, 0xFF00) < 0x1_0000 && SwapGroups(a, 4, 0x0F0F, 0xF0F0) < 0x1_0000
    ensures SwapGroups(a, 2, 0x3333, 0xCCCC) < 0x1_0000 && SwapGroups(a, 1, 0x5555, 0xAAAA) < 0x1_0000
  {
    hide SwapGroups;
    Patterns16();
    SwapGroupsBound(a, 8, 0x00FF, 0xFF00);
    SwapGroupsBound(a, 4, 0x0F0F, 0xF0F0);
    SwapGroupsBound(a, 2, 0x3333, 0xCCCC);
    SwapGroupsBound(a, 1, 0x5555, 0xAAAA);
  }

  /** bitrev reverses the twelve bits of a field element. */
  lemma {:induction false} BitRevBit(a: nat, i: nat)
    requires a < 4096 && i < 12
    ensures BitRev(a) < 4096 && Bit(BitRev(a), i) == Bit(a, 11 - i)
  {
    hide Bit, SwapGroups, Flip, Shr, GroupMasks;
    var a1 := SwapGroups(a, 8, 0x00FF, 0xFF00);
    Swaps(a);
    var a2 := SwapGroups(a1, 4, 0x0F0F, 0xF0F0);
    Swaps(a1);
    var a3 := SwapGroups(a2, 2, 0x3333, 0xCCCC);
    Swaps(a2);
    var a4 := SwapGroups(a3, 1, 0x5555, 0xAAAA);
    Swaps(a3);
    Masks16();
    forall k | 0 <= k < 16
      ensures 0 <= Flip(k, 8) < 16 && 0 <= Flip(k, 4) < 16 && 0 <= Flip(k, 2) < 16 && 0 <= Flip(k, 1) < 16
    {
      Flips(k);
    }
    Flips(i + 4);
    var j := Flip(i + 4, 1);
    var k := Flip(j, 2);
    var l := Flip(k, 4);
    SwapGroupsBit(a3, 1, 0x5555, 0xAAAA, i + 4);
    SwapGroupsBit(a2, 2, 0x3333, 0xCCCC, j);
    SwapGroupsBit(a1, 4, 0x0F0F, 0xF0F0, k);
    SwapGroupsBit(a, 8, 0x00FF, 0xFF00, l);
    BitShr(a4, 4, i);
    ShrFour(a4);
  }

  lemma ShrFour(a: nat)
    requires a < 0x1_0000
    ensures Shr(a, 4) < 4096
  {
    SmallPowers();
  }

  /** Distinct positions give distinct support elements, because bitrev undoes itself. */
  lemma {:induction false} BitRevTwice(a: nat)
    requires a < 4096
    ensures BitRev(a) < 4096 && BitRev(BitRev(a)) == a
  {
    hide Bit, BitRev;
    BitRevBit(a, 0);
    BitRevBit(BitRev(a), 0);
    forall i | 0 <= i < 12
      ensures Bit(BitRev(BitRev(a)), i) == Bit(a, i)
    {
      BitRevBit(BitRev(a), i);
      BitRevBit(a, 11 - i);
    }
    Pow2Values();
    BitExt(BitRev(BitRev(a)), a, 12);
  }

  // ---------- the twelve bit rows ----------

  /** Row j of L. */
  ghost function Row(L: seq<int>, j: nat): (r: seq<bool>)
    requires Bytes(L) && |L| == 6144 && j < 12
    ensures |r| == 4096
  {
    BitsFrom(L, 512 * j, 4096)
  }

  /** Bit j of bitrev, over all positions. */
  ghost function RevRow(j: nat): (r: seq<bool>)
    ensures |r| == 4096
  {
    seq(4096, x requires 0 <= x < 4096 => Bit(BitRev(x), j))
  }

  /** The rows hold the bits of bitrev(x) for all x before (i, j), in the order of the filling loop. */
  ghost predicate Filled(L: seq<int>, i: nat, j: nat) {
    && Bytes(L) && |L| == 6144
    && forall k, x :: 0 <= k < 12 && 0 <= x < 4096 ==> FilledAt(L, i, j, k, x)
  }

  ghost predicate FilledAt(L: seq<int>, i: nat, j: nat, k: nat, x: nat)
    requires Bytes(L) && |L| == 6144 && k < 12 && x < 4096
  {
    OutBit(L, 4096 * k + x) == ((x < i || (x == i && k < j)) && Bit(BitRev(x), k))
  }

  lemma FillStart(L: seq<int>)
    requires |L| == 6144 && forall y :: 0 <= y < 6144 ==> L[y] == 0
    ensures Filled(L, 0, 0)
  {
    hide BitRev, Bit;
    forall k, x | 0 <= k < 12 && 0 <= x < 4096
      ensures FilledAt(L, 0, 0, k, x)
    {
      BitZero((4096 * k + x) % 8);
    }
  }

  lemma FillRow(L: seq<int>, i: nat)
    requires Filled(L, i, 12)
    ensures Filled(L, i + 1, 0)
  {
    hide BitRev, OutBit;
    var next := i + 1;
    forall k, x | 0 <= k < 12 && 0 <= x < 4096
      ensures FilledAt(L, next, 0, k, x)
    {
      assert FilledAt(L, i, 12, k, x);
    }
  }

  lemma FillEnd(L: seq<int>, j: nat)
    requires Filled(L, 4096, 0) && j < 12
    ensures Row(L, j) == RevRow(j)
  {
    hide BitRev, OutBit;
    forall x | 0 <= x < 4096
      ensures Row(L, j)[x] == RevRow(j)[x]
    {
      assert FilledAt(L, 4096, 0, j, x);
    }
  }

  /** b |= v << k */
  lemma SetBit(b: nat, v: nat, k: nat, m: nat)
    requires b < 256 && v < 2 && k < 8
    ensures Or(b, Shl(v, k)) < 256 && Bit(Or(b, Shl(v, k)), m) == (Bit(b, m) || (m == k && v == 1))
  {
    hide Bit, Or, Shl;
    OrBit(b, Shl(v, k), m);
    BitShl(v, k, m);
    OneBit(v, k);
    OrBound(b, Shl(v, k), 8);
    if m > k {
      BitHigh(v, 1, m - k);
    }
    assert Bit(v, 0) == (v == 1);
  }

  lemma OneBit(v: nat, k: nat)
    requires v < 2 && k < 8
    ensures Shl(v, k) < Pow2(8) == 256 && v < Pow2(1) && Bit(v, 0) == (v == 1)
  {
    SmallPowers();
    Pow2Mono(k, 7);
    MulLe(Pow2(k), v, 1);
  }

  lemma {:induction false} FillStep(before: seq<int>, after: seq<int>, i: nat, j: nat, y: nat, v: nat)
    requires Filled(before, i, j) && i < 4096 && j < 12 && y == 512 * j + i / 8
    requires v == B2N(Bit(BitRev(i), j)) && after == before[y := Or(before[y], Shl(v, i % 8))]
    ensures Filled(after, i, j + 1)
  {
    hide BitRev, Bit, Or, Shl;
    SetBit(before[y], v, i % 8, 0);
    var next := j + 1;
    forall k, x | 0 <= k < 12 && 0 <= x < 4096
      ensures FilledAt(after, i, next, k, x)
    {
      assert FilledAt(before, i, j, k, x);
      assert (4096 * k + x) / 8 == 512 * k + x / 8 && (4096 * k + x) % 8 == x % 8;
      if 512 * k + x / 8 == y {
        assert k == j;
        SetBit(before[y], v, i % 8, x % 8);
      }
    }
  }

  /** The two filling loops of support_gen. */
  method FillRows(L: array<int>)
    requires L.Length == 6144
    modifies L
    ensures Filled(L[..], 4096, 0)
  {
    hide Filled, BitRev, Bit, Or, Shl;
    for y := 0 to 6144
      invariant forall z :: 0 <= z < y ==> L[z] == 0
    {
      L[y] := 0;
    }
    FillStart(L[..]);
    for i := 0 to 4096
      invariant Filled(L[..], i, 0)
    {
      BitRevBit(i, 0);
      var a := BitRev(i);
      for j := 0 to 12
        invariant Filled(L[..], i, j)
      {
        var y := 512 * j + i / 8;
        BitIsShift(a, j);
        DivBasics(a, Pow2(j));
        var v := a / Pow2(j) % 2;
        FilledByte(L[..], i, j, y);
        ghost var before := L[..];
        L[y] := Or(L[y], Shl(v, i % 8));
        FillStep(before, L[..], i, j, y, v);
      }
      FillRow(L[..], i);
    }
  }

  lemma FilledByte(L: seq<int>, i: nat, j: nat, y: nat)
    requires Filled(L, i, j) && y < 6144
    ensures |L| == 6144 && 0 <= L[y] < 256
  {
  }

  // ---------- the network on the rows ----------

  /** The source position of each position under the network of the control bits c. */
  ghost function Sigma(c: seq<int>): (r: seq<nat>)
    requires Bytes(c) && |c| >= 5888
    ensures |r| == 4096
  {
    Sizes12();
    Benes(Identity(4096), CheckLayers(c, 12), 12)
  }

  lemma RunMoves(c: seq<int>, p: seq<bool>, x: nat)
    requires Bytes(c) && |c| >= 5888 && |p| == 4096 && x < 4096
    ensures Sigma(c)[x] < 4096 && Run(p, c, false, 23)[x] == p[Sigma(c)[x]]
  {
    hide Net, Pow2, CheckLayers;
    Sizes12();
    BenesMoves(p, CheckLayers(c, 12), 12, x);
  }

  /** The first j rows have been permuted. */
  ghost predicate Permuted12(L: seq<int>, c: seq<int>, j: nat) {
    && Bytes(L) && |L| == 6144 && Bytes(c) && |c| >= 5888
    && forall k :: 0 <= k < 12 ==> Row(L, k) == if k < j then Run(RevRow(k), c, false, 23) else RevRow(k)
  }

  lemma RowKept(before: seq<int>, after: seq<int>, j: nat, k: nat)
    requires Bytes(before) && Bytes(after) && |before| == |after| == 6144 && j < 12 && k < 12 && k != j
    requires forall y :: 0 <= y < 6144 && (y < 512 * j || y >= 512 * j + 512) ==> after[y] == before[y]
    ensures Row(after, k) == Row(before, k)
  {
    hide Bit;
    forall x | 0 <= x < 4096
      ensures Row(after, k)[x] == Row(before, k)[x]
    {
      var y := 512 * k + x / 8;
      assert (4096 * k + x) / 8 == y && (y < 512 * j || y >= 512 * j + 512);
      assert after[y] == before[y];
      BitsFromAt(before, 512 * k, 4096, x);
      BitsFromAt(after, 512 * k, 4096, x);
    }
  }

  /** The loop over apply_benes. */
  method PermuteRows(L: array<int>, c: array<int>)
    requires L != c && L.Length == 6144 && Filled(L[..], 4096, 0) && Bytes(c[..]) && c.Length >= 5888
    modifies L
    ensures Permuted12(L[..], c[..], 12)
  {
    hide Row, RevRow, Run, Filled, Bytes, BitsFrom;
    assert Bytes(L[..]) by { FilledBytes(L[..]); }
    forall k | 0 <= k < 12
      ensures Row(L[..], k) == RevRow(k)
    {
      FillEnd(L[..], k);
    }
    for j := 0 to 12
      invariant Permuted12(L[..], c[..], j)
    {
      ghost var before := L[..];
      RowIs(before, j);
      ApplyBenes(L, 512 * j, c, false);
      RowIs(L[..], j);
      forall k | 0 <= k < 12 && k != j
        ensures Row(L[..], k) == Row(before, k)
      {
        RowKept(before, L[..], j, k);
      }
    }
  }

  lemma RowIs(L: seq<int>, j: nat)
    requires Bytes(L) && |L| == 6144 && j < 12
    ensures Row(L, j) == BitsFrom(L, 512 * j, 4096)
  {
  }

  lemma FilledBytes(L: seq<int>)
    requires Filled(L, 4096, 0)
    ensures Bytes(L)
  {
  }

  // ---------- reading the support ----------

  /** s[i] holds the bits from j upwards. */
  ghost predicate HighBits(v: int, a: nat, j: nat) {
    0 <= v < Pow2(12 - (if j <= 12 then j else 12)) && forall b :: 0 <= b < 12 - j ==> Bit(v, b) == Bit(a, b + j)
  }

  lemma DoubleOr(v: nat, bit: nat)
    requires bit < 2
    ensures Or(Shl(v, 1), bit) == 2 * v + bit
  {
    SmallPowers();
    OrIsAdd(v, bit, 1);
  }

  /** v = (v << 1) | bit */
  lemma ShiftIn(v: nat, a: nat, j: nat, bit: nat)
    requires 0 < j <= 12 && HighBits(v, a, j) && bit == B2N(Bit(a, j - 1))
    ensures HighBits(Or(Shl(v, 1), bit), a, j - 1)
  {
    hide Or, Shl;
    var r := Or(Shl(v, 1), bit);
    DoubleOr(v, bit);
    forall b | 0 <= b < 12 - (j - 1)
      ensures Bit(r, b) == Bit(a, b + (j - 1))
    {
      if b > 0 {
        assert r / 2 == v;
        assert Bit(v, b - 1) == Bit(a, b - 1 + j);
      }
    }
  }

  /** The inner loop over j for position i. */
  method ReadElement(L: array<int>, c: array<int>, i: nat) returns (s: int)
    requires Permuted12(L[..], c[..], 12) && i < 4096
    ensures Sigma(c[..])[i] < 4096 && s == BitRev(Sigma(c[..])[i])
  {
    hide Row, RevRow, Run, Bytes, BitsFrom, Bit, Or, Shl, HighBits, BitRev, Sigma;
    ghost var x := Sigma(c[..])[i];
    RunMoves(c[..], RevRow(0), i);
    BitRevBit(x, 0);
    ReadStart(BitRev(x));
    s := 0;
    var j := 11;
    while j >= 0
      invariant -1 <= j <= 11 && HighBits(s, BitRev(x), j + 1)
    {
      RunMoves(c[..], RevRow(j), i);
      RowBit(L[..], c[..], i, j, x);
      var b: nat := L[512 * j + i / 8];
      BitIsShift(b, i % 8);
      DivBasics(b, Pow2(i % 8));
      HighNat(s, BitRev(x), j + 1);
      ShiftIn(s, BitRev(x), j + 1, Shr(b, i % 8) % 2);
      s := Shl(s, 1);
      s := Or(s, Shr(b, i % 8) % 2);
      j := j - 1;
    }
    ReadEnd(s, BitRev(x));
  }

  lemma HighNat(v: int, a: nat, j: nat)
    requires HighBits(v, a, j)
    ensures v >= 0
  {
  }

  lemma ReadStart(a: nat)
    ensures HighBits(0, a, 12)
  {
  }

  lemma ReadEnd(v: int, a: nat)
    requires HighBits(v, a, 0) && a < 4096
    ensures v == a
  {
    hide Bit;
    Pow2Values();
    BitExt(v, a, 12);
  }

  lemma RowBit(L: seq<int>, c: seq<int>, i: nat, j: nat, x: nat)
    requires Permuted12(L, c, 12) && i < 4096 && j < 12 && x < 4096
    requires Run(RevRow(j), c, false, 23)[i] == RevRow(j)[x]
    ensures 0 <= L[512 * j + i / 8] < 256 && Bit(L[512 * j + i / 8], i % 8) == Bit(BitRev(x), j)
  {
    hide Bit, Run, BitRev;
    assert Row(L, j) == Run(RevRow(j), c, false, 23);
    assert Row(L, j)[i] == OutBit(L, 4096 * j + i);
    assert (4096 * j + i) / 8 == 512 * j + i / 8 && (4096 * j + i) % 8 == i % 8;
  }

  /** support_gen, for n support elements: position i gets the reversed index of its source position. */
  method SupportGen(s: array<int>, c: array<int>, n: nat)
    requires s != c && s.Length >= n && n <= 4096 && Bytes(c[..]) && c.Length >= 5888
    modifies s
    ensures forall i :: 0 <= i < n ==> Sigma(c[..])[i] < 4096 && s[i] == BitRev(Sigma(c[..])[i])
  {
    hide Filled, Permuted12, Sigma, BitRev, Bytes;
    var L := new int[6144];
    FillRows(L);
    PermuteRows(L, c);
    for i := 0 to n
      invariant Permuted12(L[..], c[..], 12)
      invariant forall k :: 0 <= k < i ==> Sigma(c[..])[k] < 4096 && s[k] == BitRev(Sigma(c[..])[k])
    {
      s[i] := ReadElement(L, c, i);
    }
  }

  /** On the control bits of pi, the network moves pi[i] to position i: decoding uses the support
      bitrev(pi[i]) of key generation. */
  lemma SupportOfKey(c: seq<int>, pi: seq<nat>)
    requires Holds(c, pi, 12)
    ensures |c| >= 5888 && Bytes(c) && Sigma(c) == pi
  {
    hide Net, Pow2, CheckLayers, Control;
    Sizes12();
    CheckAlwaysPasses(c, pi, 12);
  }
}
