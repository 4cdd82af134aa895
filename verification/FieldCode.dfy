/** gf_iszero, gf_mul, gf_sq, gf_inv and gf_frac of gf.c, against the field GF(2^12). */
module FieldCode {
  import opened Bits
  import opened Transpose
  import opened GaloisField
  import opened FieldPowers

  const UINT32_END: nat := 0x1_0000_0000

  // ---------- reduction modulo x^12 + x^3 + 1 ----------

  /** The two folding steps at the end of gf_mul and gf_sq. */
  function Reduce(u: nat): nat {
    var t := And(u, 0x7FC000);
    var v := Xor(Xor(u, Shr(t, 9)), Shr(t, 12));
    var s := And(v, 0x3000);
    And(Xor(Xor(v, Shr(s, 9)), Shr(s, 12)), 0xFFF)
  }

  lemma OnesFrom(k: nat, w: nat, i: nat)
    requires k <= w
    ensures Pow2(k) <= Pow2(w)
    ensures Bit(Pow2(w) - Pow2(k), i) == (k <= i < w)
  {
    Pow2Mono(k, w);
    if k == 0 {
      OnesBit(w, i);
    } else if i > 0 {
      assert (Pow2(w) - Pow2(k)) / 2 == Pow2(w - 1) - Pow2(k - 1);
      OnesFrom(k - 1, w - 1, i - 1);
    }
  }

  lemma MaskValues()
    ensures 0x7FC000 == Pow2(23) - Pow2(14) && 0x3000 == Pow2(14) - Pow2(12) && 0xFFF == Pow2(12) - Pow2(0)
  {
    Pow2Values();
    Pow2Add(12, 2);
    Pow2Add(16, 7);
    SmallPowers();
    assert Pow2(7) == 128 && Pow2(2) == 4;
  }

  /** Bit i after the first folding step, for a word below 2^23. */
  predicate Fold1(u: nat, i: nat) {
    (Bit(u, i) != (5 <= i < 14 && Bit(u, i + 9))) != (2 <= i < 11 && Bit(u, i + 12))
  }

  lemma FoldBit(u: nat, k: nat, w: nat, m: nat, i: nat)
    requires k <= w && m == Pow2(w) - Pow2(k)
    ensures Bit(Xor(Xor(u, Shr(And(u, m), 9)), Shr(And(u, m), 12)), i) ==
            ((Bit(u, i) != (k <= i + 9 < w && Bit(u, i + 9))) != (k <= i + 12 < w && Bit(u, i + 12)))
  {
    hide Bit, And, Xor, Shr;
    var t := And(u, m);
    XorBit(Xor(u, Shr(t, 9)), Shr(t, 12), i);
    XorBit(u, Shr(t, 9), i);
    BitShr(t, 9, i);
    BitShr(t, 12, i);
    AndBit(u, m, i + 9);
    AndBit(u, m, i + 12);
    OnesFrom(k, w, i + 9);
    OnesFrom(k, w, i + 12);
  }

  lemma {:induction false} ReduceBit(u: nat, i: nat)
    requires i < 12
    ensures Bit(Reduce(u), i) ==
            ((Fold1(u, i) != (3 <= i < 5 && Fold1(u, i + 9))) != (i < 2 && Fold1(u, i + 12)))
  {
    hide Bit, And, Xor, Shr;
    MaskValues();
    var t := And(u, 0x7FC000);
    var v := Xor(Xor(u, Shr(t, 9)), Shr(t, 12));
    var s := And(v, 0x3000);
    var x := Xor(Xor(v, Shr(s, 9)), Shr(s, 12));
    FoldBit(u, 14, 23, 0x7FC000, i);
    FoldBit(u, 14, 23, 0x7FC000, i + 9);
    FoldBit(u, 14, 23, 0x7FC000, i + 12);
    FoldBit(v, 12, 14, 0x3000, i);
    AndBit(x, 0xFFF, i);
    OnesFrom(0, 12, i);
  }

  lemma ReduceBound(u: nat)
    ensures Reduce(u) < 4096
  {
    hide And, Xor, Shr;
    var t := And(u, 0x7FC000);
    var v := Xor(Xor(u, Shr(t, 9)), Shr(t, 12));
    var s := And(v, 0x3000);
    AndBound(Xor(Xor(v, Shr(s, 9)), Shr(s, 12)), 0xFFF);
  }

  lemma GfExt(a: Gf, b: Gf)
    requires forall i :: 0 <= i < 12 ==> Bit(a, i) == Bit(b, i)
    ensures a == b
  {
    hide Bit;
    Pow2Values();
    BitExt(a, b, 12);
  }

  /** Reduction is additive. */
  lemma {:induction false} ReduceAdd(u: nat, v: nat)
    ensures Reduce(u) < 4096 && Reduce(v) < 4096 && Reduce(Xor(u, v)) == Add(Reduce(u), Reduce(v))
  {
    hide Bit, Reduce, Xor;
    ReduceBound(u);
    ReduceBound(v);
    ReduceBound(Xor(u, v));
    forall i | 0 <= i < 12
      ensures Bit(Reduce(Xor(u, v)), i) == Bit(Add(Reduce(u), Reduce(v)), i)
    {
      ReduceBit(u, i);
      ReduceBit(v, i);
      ReduceBit(Xor(u, v), i);
      FoldAdd(u, v, i);
      FoldAdd(u, v, i + 9);
      FoldAdd(u, v, i + 12);
      XorBit(Reduce(u), Reduce(v), i);
    }
    GfExt(Reduce(Xor(u, v)), Add(Reduce(u), Reduce(v)));
  }

  lemma FoldAdd(u: nat, v: nat, i: nat)
    ensures Fold1(Xor(u, v), i) == (Fold1(u, i) != Fold1(v, i))
  {
    hide Bit, Xor;
    XorBit(u, v, i);
    XorBit(u, v, i + 9);
    XorBit(u, v, i + 12);
  }

  /** Reduction does nothing to reduced words. */
  lemma {:induction false} ReduceSmall(a: Gf)
    ensures Reduce(a) == a
  {
    hide Bit, Reduce;
    ReduceBound(a);
    Pow2Values();
    forall i | 0 <= i < 12
      ensures Bit(Reduce(a), i) == Bit(a, i)
    {
      ReduceBit(a, i);
      forall k | 12 <= k
        ensures !Bit(a, k)
      {
        BitHigh(a, 12, k);
      }
    }
    GfExt(Reduce(a), a);
  }

  lemma MulXBit(a: Gf, i: nat)
    requires i < 12
    ensures Bit(MulX(a), i) == ((i > 0 && Bit(a, i - 1)) != ((i == 0 || i == 3) && Bit(a, 11)))
  {
    var low: nat := 2 * (a % 2048);
    var c: nat := if a >= 2048 then 9 else 0;
    XorBit(low, c, i);
    TopBit(a);
    Power11();
    BitMod(a, 11, if i > 0 then i - 1 else 0);
    NineBit(i);
    BitZero(i);
  }

  lemma NineBit(i: nat)
    ensures Bit(9, i) == (i == 0 || i == 3)
  {
    if i >= 4 {
      SmallPowers();
      BitHigh(9, 4, i);
    } else {
      assert Bit(9, 0) && !Bit(4, 0) && !Bit(2, 0) && Bit(1, 0);
    }
  }

  /** Reducing 2u multiplies by x. */
  lemma {:induction false} ReduceDouble(u: nat)
    requires u < 0x40_0000
    ensures Reduce(u) < 4096 && Reduce(2 * u) == MulX(Reduce(u))
  {
    hide Bit, Reduce, MulX;
    ReduceBound(u);
    ReduceBound(2 * u);
    Pow2Add(16, 6);
    Pow2Values();
    forall k | 22 <= k
      ensures !Bit(u, k)
    {
      BitHigh(u, 22, k);
    }
    forall i | 0 <= i < 12
      ensures Bit(Reduce(2 * u), i) == Bit(MulX(Reduce(u)), i)
    {
      DoubleAt(u, i);
    }
    GfExt(Reduce(2 * u), MulX(Reduce(u)));
  }

  lemma DoubleBit(u: nat, k: nat)
    ensures Bit(2 * u, k) == (k > 0 && Bit(u, k - 1))
  {
  }

  lemma DoubleAt(u: nat, i: nat)
    requires i < 12 && forall k :: 22 <= k ==> !Bit(u, k)
    requires Reduce(u) < 4096
    ensures Bit(Reduce(2 * u), i) == Bit(MulX(Reduce(u)), i)
  {
    hide Bit, Reduce, MulX;
    ReduceBit(2 * u, i);
    MulXBit(Reduce(u), i);
    if i > 0 {
      ReduceBit(u, i - 1);
    }
    ReduceBit(u, 11);
    forall k: nat
      ensures Bit(2 * u, k) == (k > 0 && Bit(u, k - 1))
    {
      DoubleBit(u, k);
    }
  }

  // ---------- gf_iszero ----------

  /** (uint32_t)(a - 1) >> 19: the 13-bit mask 0x1FFF for zero, 0 for every other 16-bit value. */
  function IsZero(a: nat): (t: nat)
    requires a < 0x1_0000
    ensures t == if a == 0 then 0x1FFF else 0
  {
    IsZeroShift();
    Shr((a - 1) % UINT32_END, 19)
  }

  lemma IsZeroShift()
    ensures Pow2(19) == 0x8_0000
  {
    Pow2Add(16, 3);
    Pow2Values();
    assert Pow2(3) == 8;
  }

  // ---------- gf_mul ----------

  /** t1 & (1 << i) */
  lemma OneBitOf(t1: nat, i: nat)
    ensures And(t1, Shl(1, i)) == if t1 / Pow2(i) % 2 == 1 then Pow2(i) else 0
  {
    if i == 0 {
      AndComm(t1, 1);
      AndZero(t1 / 2);
      DivUnique(t1, 1, t1, 0);
    } else {
      OneBitOf(t1 / 2, i - 1);
      DivDiv(t1, 2, Pow2(i - 1));
      AndComm(t1, Pow2(i));
      AndComm(t1 / 2, Pow2(i - 1));
    }
  }

  /** One round: the next term is added to the unreduced sum. */
  lemma {:induction false} MulRound(tmp: nat, T: nat, A: Gf, B: Gf, p: Gf, term: nat)
    requires Reduce(tmp) < 4096 && Add(Reduce(tmp), Mul(A, B)) == p
    requires Reduce(T) == A && term == if B % 2 == 1 then T else 0
    ensures Reduce(Xor(tmp, term)) < 4096
    ensures Add(Reduce(Xor(tmp, term)), Mul(MulX(A), B / 2)) == p
  {
    hide Reduce, Add, MulX, Xor, Mul;
    ReduceAdd(tmp, term);
    ReduceSmall(0);
    MulStep(A, B);
    AddLaws(Reduce(tmp), If(B % 2 == 1, A), Mul(MulX(A), B / 2));
  }

  lemma TermBound(t0: Gf, i: nat)
    requires i < 12
    ensures 0 <= t0 * Pow2(i) < 0x80_0000
  {
    hide Pow2;
    Power11();
    Pow2Mono(i, 11);
    MulLe(t0, Pow2(i), 2048);
  }

  lemma TermValue(t0: Gf, t1: Gf, i: nat)
    requires i < 12
    ensures 0 <= t0 * Pow2(i) < 0x80_0000
    ensures t0 * And(t1, Shl(1, i)) % UINT32_END == if t1 / Pow2(i) % 2 == 1 then t0 * Pow2(i) else 0
  {
    hide And, Pow2, Shl;
    TermBound(t0, i);
    OneBitOf(t1, i);
    if t1 / Pow2(i) % 2 != 1 {
      assert t0 * 0 == 0;
    }
  }

  lemma NextDigit(t1: Gf, i: nat)
    ensures t1 / Pow2(i) / 2 == t1 / Pow2(i + 1)
  {
    DivDiv(t1, Pow2(i), 2);
  }

  /** The unreduced multiples t0 * 2^i reduce to x^i t0. */
  lemma NextMultiple(t0: Gf, i: nat, A: Gf)
    requires i < 12 && 0 <= t0 * Pow2(i) && Reduce(t0 * Pow2(i)) == A
    ensures i < 11 ==> 0 <= t0 * Pow2(i + 1) && Reduce(t0 * Pow2(i + 1)) == MulX(A)
  {
    hide Reduce, MulX, Pow2;
    if i < 11 {
      Pow2Add(10, 0);
      Pow2Values();
      Pow2Mono(i, 10);
      MulLe(t0, Pow2(i), 1024);
      Pow2Add(i, 1);
      assert t0 * (Pow2(i) * 2) == 2 * (t0 * Pow2(i));
      ReduceDouble(t0 * Pow2(i));
    }
  }

  /** The first term t0 * (t1 & 1). */
  lemma MulStart(t0: Gf, t1: Gf)
    ensures And(t1, 1) == t1 % 2 && 0 <= t0 * (t1 % 2) < 4096 && Reduce(t0 * (t1 % 2)) < 4096
    ensures Reduce(t0 * Pow2(1)) == MulX(t0)
    ensures Add(Reduce(t0 * (t1 % 2)), Mul(MulX(t0), t1 / 2)) == Mul(t0, t1)
  {
    hide Reduce, MulX, Add, Xor, Mul;
    AndMask(t1, 1);
    ReduceSmall(t0);
    ReduceSmall(0);
    assert Pow2(0) == 1;
    NextMultiple(t0, 0, t0);
    MulStep(t0, t1);
    assert t0 * 0 == 0;
  }

  /** No coefficient is left after 12 rounds. */
  lemma MulEnd(v: Gf, A: Gf, t1: Gf)
    ensures t1 / Pow2(12) == 0 && Add(v, Mul(A, 0)) == v
  {
    Pow2Values();
    AddLaws(v, 0, 0);
  }

  lemma XorBelow(a: nat, b: nat)
    requires a < 0x80_0000 && b < 0x80_0000
    ensures Xor(a, b) < 0x80_0000
  {
    Pow2Add(16, 7);
    Pow2Values();
    assert Pow2(7) == 128;
    XorBound(a, b, 23);
  }

  /** gf_mul: multiplication in the field. */
  method GfMul(in0: Gf, in1: Gf) returns (r: Gf)
    ensures r == Mul(in0, in1)
  {
    hide Reduce, Add, MulX, Mul, Xor, And, Shl, Shr, Pow2;
    var t0, t1 := in0, in1;
    MulStart(t0, t1);
    var tmp: nat := t0 * And(t1, 1) % UINT32_END;
    ghost var A: Gf := MulX(t0);
    ghost var B: Gf := t1 / 2;
    assert Pow2(1) == 2 by { SmallPowers(); }
    for i := 1 to 12
      invariant tmp < 0x80_0000 && Reduce(tmp) < 4096 && B == t1 / Pow2(i)
      invariant i < 12 ==> 0 <= t0 * Pow2(i) && Reduce(t0 * Pow2(i)) == A
      invariant Add(Reduce(tmp), Mul(A, B)) == Mul(in0, in1)
    {
      TermValue(t0, t1, i);
      var term := t0 * And(t1, Shl(1, i)) % UINT32_END;
      MulRound(tmp, t0 * Pow2(i), A, B, Mul(in0, in1), term);
      NextMultiple(t0, i, A);
      NextDigit(t1, i);
      XorBelow(tmp, term);
      tmp := Xor(tmp, term);
      A, B := MulX(A), B / 2;
    }
    MulEnd(Reduce(tmp), A, t1);
    r := ReduceInPlace(tmp);
  }

  /** The last lines of gf_mul and gf_sq. */
  method ReduceInPlace(tmp0: nat) returns (r: nat)
    ensures r == Reduce(tmp0)
  {
    hide Xor, And, Shr;
    var tmp := tmp0;
    var t := And(tmp, 0x7FC000);
    tmp := Xor(tmp, Shr(t, 9));
    tmp := Xor(tmp, Shr(t, 12));
    t := And(tmp, 0x3000);
    tmp := Xor(tmp, Shr(t, 9));
    tmp := Xor(tmp, Shr(t, 12));
    r := And(tmp, 0xFFF);
  }

  // ---------- gf_sq ----------

  /** One spreading step of gf_sq; none of the shifts leaves 32 bits. */
  function SpreadStep(x: nat, d: nat, mask: nat): nat { And(Or(x, Shl(x, d)), mask) }

  function Spread(x: nat): nat {
    var x3 := SpreadStep(x, 8, 0x00FF_00FF);
    var x2 := SpreadStep(x3, 4, 0x0F0F_0F0F);
    var x1 := SpreadStep(x2, 2, 0x3333_3333);
    SpreadStep(x1, 1, 0x5555_5555)
  }

  /** The bits of a in groups of d, each group followed by d zeros. */
  ghost predicate Grouped(y: nat, a: nat, d: nat)
    requires d > 0
  {
    forall p :: 0 <= p < 32 ==> GroupedAt(y, a, d, p)
  }

  ghost predicate GroupedAt(y: nat, a: nat, d: nat, p: nat)
    requires d > 0
  {
    0 <= p / (2 * d) * d && Bit(y, p) == (LowHalf(p, d) && Bit(a, p / (2 * d) * d + p % d))
  }

  lemma SpreadMasks()
    ensures Pattern(8, 1) == 0x00FF_00FF && Pattern(4, 2) == 0x0F0F_0F0F
    ensures Pattern(2, 3) == 0x3333_3333 && Pattern(1, 4) == 0x5555_5555
    ensures Pow2(2) == 4 && Pow2(3) == 8 && Pow2(4) == 16 && Pow2(5) == 32
  {
    SmallPowers();
    Pow2Values();
    Pow2Add(16, 0);
    assert Pow2(2) == 4 && Pow2(3) == 8 && Pow2(5) == 32;
    assert Pattern(8, 0) == 0xFF && Pattern(4, 0) == 0xF && Pattern(2, 0) == 3 && Pattern(1, 0) == 1;
    assert Pattern(4, 1) == 0x0F0F && Pattern(2, 1) == 0x33 && Pattern(1, 1) == 5;
    assert Pattern(2, 2) == 0x3333 && Pattern(1, 2) == 0x55;
    assert Pattern(1, 3) == 0x5555;
  }

  lemma {:induction false} SpreadStepBits(y: nat, a: nat, d: nat, e: nat, mask: nat)
    requires d > 0 && d * Pow2(e + 1) == 32 && mask == Pattern(d, e) && Grouped(y, a, 2 * d)
    ensures Grouped(SpreadStep(y, d, mask), a, d)
  {
    hide Bit, And, Or, Shl, Pattern, Pow2, LowHalf, GroupedAt;
    var r := SpreadStep(y, d, mask);
    forall p | 0 <= p < 32
      ensures GroupedAt(r, a, d, p)
    {
      AndBit(Or(y, Shl(y, d)), mask, p);
      OrBit(y, Shl(y, d), p);
      BitShl(y, d, p);
      PatternBit(d, e, p);
      assert GroupedAt(y, a, 2 * d, p);
      assert p >= d ==> GroupedAt(y, a, 2 * d, p - d);
      if LowHalf(p, d) {
        DigitAny(d, p);
      }
      SpreadAt(y, a, d, p, r);
    }
  }

  /** Position p of the low half of a group comes from the same digit of the coarser grouping. */
  ghost predicate SameDigit(d: nat, p: nat)
    requires d > 0
  {
    var i := p / (2 * d) * d + p % d;
    if LowHalf(p, 2 * d) then
      p / (4 * d) * (2 * d) + p % (2 * d) == i && (p >= d ==> !LowHalf(p - d, 2 * d))
    else
      p >= d && LowHalf(p - d, 2 * d) && (p - d) / (4 * d) * (2 * d) + (p - d) % (2 * d) == i
  }

  lemma {:induction false} DigitAny(d: nat, p: nat)
    requires d > 0 && LowHalf(p, d)
    ensures SameDigit(d, p)
  {
    hide LowHalf;
    var a, e, r := DigitsOf(p, d);
    DigitsAre(p, d, a, e, r);
    var k, b := a / 2, a % 2;
    var dd := 2 * d;
    Multiples(d, k, b);
    assert Digits(p, dd, k, b, r);
    DigitsAre(p, dd, k, b, r);
    if b == 1 {
      assert Digits(p - d, dd, k, 0, d + r);
      DigitsAre(p - d, dd, k, 0, d + r);
    } else if k > 0 {
      assert 2 * dd * (k - 1) == 2 * dd * k - 2 * dd;
      assert Digits(p - d, dd, k - 1, 1, d + r);
      DigitsAre(p - d, dd, k - 1, 1, d + r);
    }
  }

  lemma Multiples(d: nat, k: nat, b: nat)
    requires b < 2
    ensures 2 * d * (2 * k + b) == 2 * (2 * d) * k + (if b == 1 then 2 * d else 0)
    ensures (2 * k + b) * d == k * (2 * d) + (if b == 1 then d else 0) && 2 * (2 * d) * k == 4 * d * k
    ensures 2 * (2 * d) == 4 * d && k * (2 * d) >= 0 && 4 * d * k >= 0
  {
    assert 2 * d * (2 * k + b) == 2 * (2 * d) * k + (2 * d) * b;
    assert (2 * k + b) * d == k * (2 * d) + b * d;
    MulLe(2 * d, 0, k);
    MulLe(4 * d, 0, k);
  }

  lemma SpreadAt(y: nat, a: nat, d: nat, p: nat, r: nat)
    requires d > 0 && (LowHalf(p, d) ==> SameDigit(d, p))
    requires GroupedAt(y, a, 2 * d, p) && (p >= d ==> GroupedAt(y, a, 2 * d, p - d))
    requires Bit(r, p) == ((Bit(y, p) || (p >= d && Bit(y, p - d))) && LowHalf(p, d))
    ensures GroupedAt(r, a, d, p)
  {
    hide Bit, LowHalf;
    MulLe(d, 0, p / (2 * d));
    assert 2 * (2 * d) == 4 * d;
  }

  lemma GroupStart(a: Gf)
    ensures Grouped(a, a, 16)
  {
    hide Bit, Pow2;
    Pow2Values();
    forall p | 0 <= p < 32
      ensures GroupedAt(a, a, 16, p)
    {
      if p >= 16 {
        BitHigh(a, 12, p);
      }
    }
  }

  /** Spreading puts coefficient i at position 2i. */
  lemma {:induction false} SpreadBit(a: Gf, p: nat)
    requires p < 32
    ensures Bit(Spread(a), p) == (p % 2 == 0 && Bit(a, p / 2))
  {
    hide Bit, Grouped, SpreadStep;
    SpreadGrouped(a);
    GroupedOne(Spread(a), a, p);
  }

  lemma SpreadGrouped(a: Gf)
    ensures Grouped(Spread(a), a, 1)
  {
    hide Grouped, SpreadStep, Pattern, Pow2;
    SpreadMasks();
    GroupStart(a);
    var x3 := SpreadStep(a, 8, 0x00FF_00FF);
    SpreadStepBits(a, a, 8, 1, 0x00FF_00FF);
    var x2 := SpreadStep(x3, 4, 0x0F0F_0F0F);
    SpreadStepBits(x3, a, 4, 2, 0x0F0F_0F0F);
    var x1 := SpreadStep(x2, 2, 0x3333_3333);
    SpreadStepBits(x2, a, 2, 3, 0x3333_3333);
    SpreadStepBits(x1, a, 1, 4, 0x5555_5555);
  }

  lemma GroupedOne(y: nat, a: Gf, p: nat)
    requires p < 32 && Grouped(y, a, 1)
    ensures Bit(y, p) == (p % 2 == 0 && Bit(a, p / 2))
  {
    hide Bit;
    assert GroupedAt(y, a, 1, p);
    DivUnique(p, 1, p, 0);
    DivUnique(p / 2, 1, p / 2, 0);
  }

  lemma SpreadBound(a: Gf)
    ensures Spread(a) < UINT32_END
  {
    hide And, Or, Shl;
    var x3 := SpreadStep(a, 8, 0x00FF_00FF);
    var x2 := SpreadStep(x3, 4, 0x0F0F_0F0F);
    var x1 := SpreadStep(x2, 2, 0x3333_3333);
    AndBound(Or(x1, Shl(x1, 1)), 0x5555_5555);
  }

  /** Spreading 2h + e puts the digits of h two places higher. */
  lemma {:induction false} SpreadHorner(h: nat, e: nat)
    requires h < 2048 && e < 2
    ensures Spread(2 * h + e) == Xor(4 * Spread(h), e) && Spread(h) < 0x20_0000
  {
    hide Bit, Spread, Xor;
    var a: Gf := 2 * h + e;
    SpreadBound(a);
    SpreadBound(h);
    SpreadSmall(h);
    Pow2Values();
    Pow2Add(16, 6);
    XorBound(4 * Spread(h), e, 32);
    forall p | 0 <= p < 32
      ensures Bit(Spread(a), p) == Bit(Xor(4 * Spread(h), e), p)
    {
      SpreadBit(a, p);
      XorBit(4 * Spread(h), e, p);
      DoubleBit(2 * Spread(h), p);
      if p > 0 {
        DoubleBit(Spread(h), p - 1);
      }
      if p > 1 {
        SpreadBit(h, p - 2);
      }
      DigitBits(h, e, p);
    }
    BitExt(Spread(a), Xor(4 * Spread(h), e), 32);
  }

  lemma DigitBits(h: nat, e: nat, p: nat)
    requires e < 2
    ensures Bit(2 * h + e, p / 2) == if p / 2 == 0 then e == 1 else Bit(h, p / 2 - 1)
    ensures Bit(e, p) == (p == 0 && e == 1)
  {
    if p > 0 {
      BitZero(p - 1);
    }
  }

  lemma SpreadSmall(h: nat)
    requires h < 2048
    ensures Spread(h) < 0x20_0000
  {
    hide Bit, Spread;
    SpreadBound(h);
    Power11();
    Pow2Values();
    Pow2Add(20, 1);
    var v := Spread(h);
    DivBasics(v, Pow2(21));
    forall p | 0 <= p < 32
      ensures Bit(v % Pow2(21), p) == Bit(v, p)
    {
      BitMod(v, 21, p);
      SpreadBit(h, p);
      if p >= 22 {
        BitHigh(h, 11, p / 2);
      }
    }
    Pow2Mono(21, 32);
    BitExt(v % Pow2(21), v, 32);
  }

  function GfSq(a: Gf): (r: Gf)
  {
    ReduceBound(Spread(a));
    Reduce(Spread(a))
  }

  /** gf_sq squares. */
  lemma {:induction false} GfSqExact(a: Gf)
    ensures GfSq(a) == Sq(a)
    decreases a
  {
    hide Reduce, Spread, Xor, Mul, Add, MulX;
    var h, e := a / 2, a % 2;
    SpreadHorner(h, e);
    if a < 2 {
      SquaresBit(a, 1);
      SpreadZero(a);
      ReduceSmall(a);
    } else {
      GfSqExact(h);
      var s := Spread(h);
      ReduceAdd(4 * s, e);
      ReduceSmall(e);
      ReduceDouble(s);
      ReduceDouble(2 * s);
      assert 2 * (2 * s) == 4 * s;
      SqHorner(a);
    }
  }

  lemma SqHorner(a: Gf)
    ensures Sq(a) == Add(MulX(MulX(Sq(a / 2))), a % 2)
  {
    hide Mul, Add, MulX;
    var h: Gf := a / 2;
    Horner(a);
    SqAdd(MulX(h), a % 2);
    SquaresBit(a % 2, 1);
    assert Squares(a % 2, 1) == Sq(Squares(a % 2, 0));
    MulMulX(h, MulX(h));
    MulComm(h, MulX(h));
    MulMulX(h, h);
  }

  lemma SpreadZero(a: Gf)
    requires a < 2
    ensures Spread(a) == a
  {
    hide Bit, Spread;
    SpreadBound(a);
    Pow2Values();
    forall p | 0 <= p < 32
      ensures Bit(Spread(a), p) == Bit(a, p)
    {
      SpreadBit(a, p);
      DigitBits(0, a, p);
      DigitBits(0, a, p / 2);
    }
    BitExt(Spread(a), a, 32);
  }

  // ---------- only 0 and 1 are their own squares ----------

  /** Bit i of the square, from the bits of a. */
  predicate SqBit(a: Gf, i: nat)
    requires i < 12
  {
    (SqFold(a, i) != (3 <= i < 5 && SqFold(a, i + 9))) != (i < 2 && SqFold(a, i + 12))
  }

  predicate SqFold(a: Gf, i: nat)
    requires i < 14
  {
    (EvenBit(a, i) != (5 <= i < 14 && EvenBit(a, i + 9))) != (2 <= i < 11 && EvenBit(a, i + 12))
  }

  predicate EvenBit(a: Gf, p: nat) { p % 2 == 0 && Bit(a, p / 2) }

  lemma SqBitExact(a: Gf, i: nat)
    requires i < 12
    ensures Bit(Sq(a), i) == SqBit(a, i)
  {
    hide Bit, Reduce, Spread, Mul;
    GfSqExact(a);
    ReduceBit(Spread(a), i);
    forall p | 0 <= p < 32
      ensures Bit(Spread(a), p) == EvenBit(a, p)
    {
      SpreadBit(a, p);
    }
  }

  lemma {:induction false} Idempotent(a: Gf)
    requires Sq(a) == a
    ensures a == 0 || a == 1
  {
    hide Bit, Mul;
    forall i | 0 <= i < 12
      ensures Bit(a, i) == SqBit(a, i)
    {
      SqBitExact(a, i);
    }
    assert forall i :: 1 <= i < 12 ==> !Bit(a, i) by {
      SquareBits(a);
    }
    OnlyLowest(a);
  }

  /** The square, coefficient by coefficient. */
  lemma SquareTable(a: Gf)
    ensures SqBit(a, 0) == (Bit(a, 0) != Bit(a, 6)) && SqBit(a, 1) == Bit(a, 11)
    ensures SqBit(a, 2) == (Bit(a, 1) != Bit(a, 7)) && SqBit(a, 3) == Bit(a, 6)
    ensures SqBit(a, 4) == ((Bit(a, 2) != Bit(a, 8)) != Bit(a, 11)) && SqBit(a, 5) == Bit(a, 7)
    ensures SqBit(a, 6) == (Bit(a, 3) != Bit(a, 9)) && SqBit(a, 7) == Bit(a, 8)
    ensures SqBit(a, 8) == (Bit(a, 4) != Bit(a, 10)) && SqBit(a, 9) == Bit(a, 9)
    ensures SqBit(a, 10) == (Bit(a, 5) != Bit(a, 11)) && SqBit(a, 11) == Bit(a, 10)
  {
    hide Bit;
    Pow2Values();
    forall p | 12 <= p
      ensures !Bit(a, p)
    {
      BitHigh(a, 12, p);
    }
  }

  lemma SquareBits(a: Gf)
    requires forall i :: 0 <= i < 12 ==> Bit(a, i) == SqBit(a, i)
    ensures forall i :: 1 <= i < 12 ==> !Bit(a, i)
  {
    hide Bit, SqBit;
    SquareTable(a);
    assert Bit(a, 0) == SqBit(a, 0) && Bit(a, 1) == SqBit(a, 1) && Bit(a, 2) == SqBit(a, 2) && Bit(a, 3) == SqBit(a, 3);
    assert Bit(a, 4) == SqBit(a, 4) && Bit(a, 5) == SqBit(a, 5) && Bit(a, 6) == SqBit(a, 6) && Bit(a, 7) == SqBit(a, 7);
    assert Bit(a, 8) == SqBit(a, 8) && Bit(a, 10) == SqBit(a, 10) && Bit(a, 11) == SqBit(a, 11);
    assert !Bit(a, 6) && !Bit(a, 3) && !Bit(a, 5) && !Bit(a, 7) && !Bit(a, 8) && !Bit(a, 9);
    assert !Bit(a, 4) && !Bit(a, 10) && !Bit(a, 11) && !Bit(a, 1) && !Bit(a, 2);
  }

  lemma OnlyLowest(a: Gf)
    requires forall i :: 1 <= i < 12 ==> !Bit(a, i)
    ensures a < 2
  {
    var e: Gf := a % 2;
    forall i | 0 <= i < 12
      ensures Bit(a, i) == Bit(e, i)
    {
      DigitBits(0, e, i);
    }
    GfExt(a, e);
  }

  // ---------- gf_inv, gf_frac ----------

  /** The exponent that gf_inv builds up. */
  function Inv(a: Gf): Gf { Pow(a, 4094) }

  /** Every nonzero element times its inverse is 1; the inverse of 0 is 0. */
  lemma {:induction false} InvExact(a: Gf)
    ensures Mul(a, Inv(a)) == if a == 0 then 0 else 1
  {
    hide Mul, Pow, Sq;
    var e := Pow(a, 4095);
    assert Mul(a, Inv(a)) == e by {
      PowAdd(a, 1, 4094);
      PowOne(a);
    }
    NormIdempotent(a);
    Idempotent(e);
    MulZero(Inv(a));
    if e == 0 {
      PowAdd(a, 1, 4095);
      PowOne(a);
      MulZero(a);
      Frobenius(a);
      SquaresPow(a, 12);
      Pow2Values();
    }
  }

  /** A product is zero only when a factor is. */
  lemma {:induction false} NoZeroDivisors(a: Gf, b: Gf)
    ensures Mul(a, b) == 0 <==> a == 0 || b == 0
  {
    hide Mul, Inv;
    MulZero(a);
    MulZero(b);
    if Mul(a, b) == 0 && a != 0 {
      InvExact(a);
      MulComm(a, Inv(a));
      MulAssoc(Inv(a), a, b);
      MulZero(Inv(a));
      MulOne(b);
    }
  }

  lemma SqPow(a: Gf, n: nat)
    ensures GfSq(Pow(a, n)) == Pow(a, 2 * n)
  {
    hide Mul, Pow, GfSq;
    GfSqExact(Pow(a, n));
    PowAdd(a, n, n);
  }

  /** gf_inv: the addition chain 1, 2, 3, 12, 15, 240, 255, 1020, 1023, 2046, 2047, 4094. */
  method GfInv(in0: Gf) returns (r: Gf)
    ensures r == Inv(in0)
  {
    hide Mul, Pow, GfSq;
    PowOne(in0);
    var out := in0;
    out := GfSq(out);
    SqPow(in0, 1);
    var tmp_11 := GfMul(out, in0);
    PowAdd(in0, 2, 1);
    out := GfSq(tmp_11);
    SqPow(in0, 3);
    out := GfSq(out);
    SqPow(in0, 6);
    var tmp_1111 := GfMul(out, tmp_11);
    PowAdd(in0, 12, 3);
    out := GfSq(tmp_1111);
    SqPow(in0, 15);
    out := GfSq(out);
    SqPow(in0, 30);
    out := GfSq(out);
    SqPow(in0, 60);
    out := GfSq(out);
    SqPow(in0, 120);
    out := GfMul(out, tmp_1111);
    PowAdd(in0, 240, 15);
    out := GfSq(out);
    SqPow(in0, 255);
    out := GfSq(out);
    SqPow(in0, 510);
    out := GfMul(out, tmp_11);
    PowAdd(in0, 1020, 3);
    out := GfSq(out);
    SqPow(in0, 1023);
    out := GfMul(out, in0);
    PowAdd(in0, 2046, 1);
    r := GfSq(out);
    SqPow(in0, 2047);
  }

  /** gf_frac: num / den; the result is 0 when den is 0. */
  method GfFrac(den: Gf, num: Gf) returns (r: Gf)
    ensures den == 0 ==> r == 0
    ensures den != 0 ==> Mul(r, den) == num
  {
    hide Mul, Inv, Pow;
    var inv := GfInv(den);
    r := GfMul(inv, num);
    InvExact(den);
    MulComm(inv, num);
    MulAssoc(num, inv, den);
    MulComm(inv, den);
    MulOne(num);
    ZeroInv(num);
  }

  lemma ZeroInv(num: Gf)
    ensures Mul(Inv(0), num) == 0
  {
    hide Mul;
    assert Inv(0) == Mul(0, Pow(0, 4093));
    MulZero(Pow(0, 4093));
    MulZero(num);
  }
}
