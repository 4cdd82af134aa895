/** The field GF(2^12) = GF(2)[x] / (x^12 + x^3 + 1) of gf.c: bit i of a word below 4096 is the coefficient of x^i. */
module GaloisField {
  import opened Bits

  type Gf = a: nat | a < 4096

  // ---------- addition ----------

  function Add(a: Gf, b: Gf): Gf {
    Pow2Values();
    XorBound(a, b, 12);
    Xor(a, b)
  }

  lemma AddLaws(a: Gf, b: Gf, c: Gf)
    ensures Add(a, b) == Add(b, a) && Add(Add(a, b), c) == Add(a, Add(b, c))
    ensures Add(a, 0) == a == Add(0, a) && Add(a, a) == 0 && Add(a, Add(a, b)) == b
  {
    XorComm(a, b);
    XorAssoc(a, b, c);
    XorZero(a);
    XorSelf(a);
    XorCancel(a, b);
  }

  lemma AddSwap(a: Gf, b: Gf, c: Gf, d: Gf)
    ensures Add(Add(a, b), Add(c, d)) == Add(Add(a, c), Add(b, d))
  {
    hide Add;
    AddLaws(a, b, Add(c, d));
    AddLaws(b, c, d);
    AddLaws(c, b, d);
    AddLaws(a, c, Add(b, d));
  }

  // ---------- multiplication ----------

  /** Multiplication by x: x^12 is replaced by x^3 + 1. */
  function MulX(a: Gf): Gf {
    var low: Gf := 2 * (a % 2048);
    Add(low, if a >= 2048 then 9 else 0)
  }

  /** Multiplication modulo x^12 + x^3 + 1, from the lowest coefficient of b on. */
  function Mul(a: Gf, b: Gf): Gf
    decreases b
  {
    if b == 0 then 0
    else Add(if b % 2 == 1 then a else 0, Mul(MulX(a), b / 2))
  }

  lemma XorMod(a: nat, b: nat, k: nat)
    ensures Xor(a, b) % Pow2(k) == Xor(a % Pow2(k), b % Pow2(k))
  {
    var l, r := Xor(a, b) % Pow2(k), Xor(a % Pow2(k), b % Pow2(k));
    DivBasics(Xor(a, b), Pow2(k));
    DivBasics(a, Pow2(k));
    DivBasics(b, Pow2(k));
    XorBound(a % Pow2(k), b % Pow2(k), k);
    forall i | 0 <= i < k
      ensures Bit(l, i) == Bit(r, i)
    {
      BitMod(Xor(a, b), k, i);
      BitMod(a, k, i);
      BitMod(b, k, i);
      XorBit(a, b, i);
      XorBit(a % Pow2(k), b % Pow2(k), i);
    }
    BitExt(l, r, k);
  }

  lemma TopBitAdd(a: Gf, b: Gf)
    ensures (Add(a, b) >= 2048) == ((a >= 2048) != (b >= 2048))
  {
    hide Bit, Xor;
    XorBit(a, b, 11);
    TopBit(a);
    TopBit(b);
    TopBit(Add(a, b));
  }

  lemma TopBit(a: Gf)
    ensures Bit(a, 11) == (a >= 2048)
  {
    Power11();
    BitIsShift(a, 11);
  }

  lemma Power11()
    ensures Pow2(11) == 2048
  {
    Pow2Values();
  }

  lemma LowAdd(a: Gf, b: Gf)
    ensures 2 * (Add(a, b) % 2048) == Add(2 * (a % 2048), 2 * (b % 2048))
  {
    hide Xor, Pow2;
    Power11();
    XorMod(a, b, 11);
    XorDouble(a % 2048, b % 2048);
  }

  lemma XorDouble(a: nat, b: nat)
    ensures Xor(2 * a, 2 * b) == 2 * Xor(a, b)
  {
  }

  lemma MulXAdd(a: Gf, b: Gf)
    ensures MulX(Add(a, b)) == Add(MulX(a), MulX(b))
  {
    hide Add;
    var ca: Gf := if a >= 2048 then 9 else 0;
    var cb: Gf := if b >= 2048 then 9 else 0;
    TopBitAdd(a, b);
    LowAdd(a, b);
    AddSwap(2 * (a % 2048), ca, 2 * (b % 2048), cb);
    AddLaws(9, 0, 0);
    AddLaws(0, 0, 0);
  }

  lemma HalfAdd(a: Gf, b: Gf)
    ensures Add(a, b) / 2 == Add(a / 2, b / 2) && (Add(a, b) % 2 == 1) == ((a % 2 == 1) != (b % 2 == 1))
  {
  }

  lemma MulXZero()
    ensures MulX(0) == 0
  {
  }

  /** Every element is x times its upper coefficients plus its lowest coefficient. */
  lemma Horner(b: Gf)
    ensures b == Add(MulX(b / 2), b % 2)
  {
    hide Add;
    AddLaws(2 * (b / 2), 0, 0);
    EvenPlus(b / 2, b % 2);
  }

  lemma EvenPlus(h: nat, e: nat)
    requires h < 2048 && e < 2
    ensures Add(2 * h, e) == 2 * h + e
  {
    XorZero(h);
  }

  // ---------- the product is bilinear ----------

  /** c a, for a coefficient c. */
  function If(c: bool, a: Gf): Gf { if c then a else 0 }

  lemma IfAdd(c: bool, a: Gf, b: Gf)
    ensures If(c, Add(a, b)) == Add(If(c, a), If(c, b))
  {
    AddLaws(0, 0, 0);
  }

  lemma IfXor(c: bool, d: bool, a: Gf)
    ensures If(c != d, a) == Add(If(c, a), If(d, a))
  {
    AddLaws(a, 0, 0);
  }

  lemma MulStep(a: Gf, b: Gf)
    ensures Mul(a, b) == Add(If(b % 2 == 1, a), Mul(MulX(a), b / 2))
  {
    AddLaws(0, 0, 0);
  }

  lemma {:induction false} MulAddLeft(a: Gf, c: Gf, b: Gf)
    ensures Mul(Add(a, c), b) == Add(Mul(a, b), Mul(c, b))
    decreases b
  {
    hide Add, MulX, If;
    if b == 0 {
      AddLaws(0, 0, 0);
    } else {
      MulXAdd(a, c);
      IfAdd(b % 2 == 1, a, c);
      MulAddLeft(MulX(a), MulX(c), b / 2);
      MulStep(a, b);
      MulStep(c, b);
      MulStep(Add(a, c), b);
      AddSwap(If(b % 2 == 1, a), If(b % 2 == 1, c), Mul(MulX(a), b / 2), Mul(MulX(c), b / 2));
    }
  }

  lemma {:induction false} MulAddRight(a: Gf, b: Gf, d: Gf)
    ensures Mul(a, Add(b, d)) == Add(Mul(a, b), Mul(a, d))
    decreases b + d
  {
    hide Add, MulX, If, Mul;
    if b == 0 && d == 0 {
      MulZero(a);
      AddLaws(0, 0, 0);
    } else {
      HalfAdd(b, d);
      IfXor(b % 2 == 1, d % 2 == 1, a);
      MulAddRight(MulX(a), b / 2, d / 2);
      MulStep(a, b);
      MulStep(a, d);
      MulStep(a, Add(b, d));
      AddSwap(If(b % 2 == 1, a), If(d % 2 == 1, a), Mul(MulX(a), b / 2), Mul(MulX(a), d / 2));
    }
  }

  lemma {:induction false} MulZero(a: Gf)
    ensures Mul(a, 0) == 0 == Mul(0, a)
  {
    hide Add, MulX;
    MulXZero();
    AddLaws(0, 0, 0);
    if a > 0 {
      MulZero(a / 2);
    }
  }

  lemma {:induction false} MulMulX(a: Gf, b: Gf)
    ensures Mul(MulX(a), b) == MulX(Mul(a, b))
    decreases b
  {
    hide Add, MulX;
    MulXZero();
    if b > 0 {
      MulMulX(MulX(a), b / 2);
      MulXAdd(if b % 2 == 1 then a else 0, Mul(MulX(a), b / 2));
    }
  }

  // ---------- the laws of the ring ----------

  /** Horner's rule on the second factor. */
  lemma {:induction false} MulHorner(a: Gf, b: Gf)
    ensures Mul(a, b) == Add(MulX(Mul(a, b / 2)), If(b % 2 == 1, a))
  {
    hide Add, MulX, Mul, If;
    MulStep(a, b);
    MulMulX(a, b / 2);
    AddLaws(If(b % 2 == 1, a), MulX(Mul(a, b / 2)), 0);
  }

  lemma {:induction false} OneMul(a: Gf)
    ensures Mul(1, a) == a
    decreases a
  {
    hide Add, MulX, Mul;
    if a == 0 {
      MulZero(1);
    } else {
      OneMul(a / 2);
      MulHorner(1, a);
      Horner(a);
    }
  }

  /** Horner's rule on the first factor. */
  lemma MulHornerLeft(b: Gf, a: Gf)
    ensures Mul(b, a) == Add(MulX(Mul(b / 2, a)), If(b % 2 == 1, a))
  {
    hide Add, MulX, Mul;
    Horner(b);
    MulAddLeft(MulX(b / 2), b % 2, a);
    MulMulX(b / 2, a);
    OneMul(a);
    MulZero(a);
  }

  lemma {:induction false} MulComm(a: Gf, b: Gf)
    ensures Mul(a, b) == Mul(b, a)
    decreases b
  {
    hide Add, MulX, Mul, If;
    if b == 0 {
      MulZero(a);
    } else {
      MulComm(a, b / 2);
      MulHorner(a, b);
      MulHornerLeft(b, a);
    }
  }

  lemma {:induction false} MulAssoc(a: Gf, b: Gf, c: Gf)
    ensures Mul(Mul(a, b), c) == Mul(a, Mul(b, c))
    decreases c
  {
    hide Add, MulX, Mul;
    if c == 0 {
      MulZero(a);
      MulZero(b);
      MulZero(Mul(a, b));
    } else {
      MulAssoc(a, b, c / 2);
      MulHorner(Mul(a, b), c);
      MulHorner(b, c);
      var y := Mul(b, c / 2);
      MulAddRight(a, MulX(y), If(c % 2 == 1, b));
      MulComm(a, MulX(y));
      MulMulX(y, a);
      MulComm(y, a);
      MulZero(a);
    }
  }

  lemma MulOne(a: Gf)
    ensures Mul(a, 1) == a == Mul(1, a)
  {
    OneMul(a);
    MulComm(a, 1);
  }
}
