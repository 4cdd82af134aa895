/** Powers in GF(2^12): squaring is additive, a^4096 = a for every element, and a^4094 is the inverse. */
module FieldPowers {
  import opened Bits
  import opened GaloisField

  function Sq(a: Gf): Gf { Mul(a, a) }

  function Pow(a: Gf, n: nat): Gf {
    if n == 0 then 1 else Mul(a, Pow(a, n - 1))
  }

  /** n squarings in a row. */
  function Squares(a: Gf, n: nat): Gf {
    if n == 0 then a else Sq(Squares(a, n - 1))
  }

  lemma {:induction false} PowAdd(a: Gf, m: nat, n: nat)
    ensures Mul(Pow(a, m), Pow(a, n)) == Pow(a, m + n)
  {
    hide Mul;
    if m == 0 {
      MulOne(Pow(a, n));
    } else {
      PowAdd(a, m - 1, n);
      MulAssoc(a, Pow(a, m - 1), Pow(a, n));
      assert m + n - 1 == m - 1 + n;
    }
  }

  lemma {:induction false} SquaresPow(a: Gf, n: nat)
    ensures Squares(a, n) == Pow(a, Pow2(n))
  {
    hide Mul;
    if n == 0 {
      MulOne(a);
      assert Pow(a, 1) == Mul(a, Pow(a, 0));
    } else {
      SquaresPow(a, n - 1);
      PowAdd(a, Pow2(n - 1), Pow2(n - 1));
    }
  }

  // ---------- squaring is additive and multiplicative ----------

  lemma SqAdd(a: Gf, b: Gf)
    ensures Sq(Add(a, b)) == Add(Sq(a), Sq(b))
  {
    hide Add, Mul;
    MulAddLeft(a, b, Add(a, b));
    MulAddRight(a, a, b);
    MulAddRight(b, a, b);
    MulComm(a, b);
    AddSwap(Mul(a, a), Mul(a, b), Mul(a, b), Mul(b, b));
    AddLaws(Mul(a, b), Mul(a, b), 0);
    AddLaws(Mul(a, a), Mul(b, b), 0);
    AddLaws(Add(Mul(a, a), Mul(a, b)), Mul(a, b), Mul(b, b));
    AddLaws(Mul(a, a), Mul(a, b), Mul(a, b));
    AddLaws(Mul(a, a), 0, 0);
  }

  lemma SqMul(a: Gf, b: Gf)
    ensures Sq(Mul(a, b)) == Mul(Sq(a), Sq(b))
  {
    hide Mul;
    MulAssoc(a, b, Mul(a, b));
    MulAssoc(b, a, b);
    MulComm(a, b);
    MulAssoc(a, b, b);
    MulAssoc(a, a, Mul(b, b));
  }

  lemma {:induction false} SquaresAdd(a: Gf, b: Gf, n: nat)
    ensures Squares(Add(a, b), n) == Add(Squares(a, n), Squares(b, n))
  {
    hide Add, Mul, Sq;
    if n > 0 {
      SquaresAdd(a, b, n - 1);
      SqAdd(Squares(a, n - 1), Squares(b, n - 1));
    }
  }

  lemma {:induction false} SquaresMul(a: Gf, b: Gf, n: nat)
    ensures Squares(Mul(a, b), n) == Mul(Squares(a, n), Squares(b, n))
  {
    hide Mul, Sq;
    if n > 0 {
      SquaresMul(a, b, n - 1);
      SqMul(Squares(a, n - 1), Squares(b, n - 1));
    }
  }

  lemma {:induction false} SquaresBit(a: Gf, n: nat)
    requires a < 2
    ensures Squares(a, n) == a
  {
    hide Mul;
    MulZero(0);
    MulOne(1);
    if n > 0 {
      SquaresBit(a, n - 1);
    }
  }

  // ---------- powers of x ----------

  /** x^n */
  function X(n: nat): Gf { if n == 0 then 1 else MulX(X(n - 1)) }

  lemma {:induction false} XMul(m: nat, n: nat)
    ensures Mul(X(m), X(n)) == X(m + n)
  {
    hide Mul, MulX;
    if m == 0 {
      MulOne(X(n));
    } else {
      XMul(m - 1, n);
      MulMulX(X(m - 1), X(n));
    }
  }

  lemma XSq(n: nat)
    ensures Sq(X(n)) == X(2 * n)
  {
    hide Mul, X;
    XMul(n, n);
  }

  lemma SmallX(n: nat)
    requires n < 12
    ensures X(n) == Pow2(n)
  {
    hide MulX;
    if n > 0 {
      SmallX(n - 1);
      Power11();
      Pow2Mono(n, 11);
      MulXSmall(X(n - 1));
    }
  }

  lemma MulXSmall(a: Gf)
    requires a < 2048
    ensures MulX(a) == 2 * a
  {
    hide Add;
    AddLaws(2 * a, 0, 0);
  }

  /** The defining relation x^12 = x^3 + 1. */
  lemma {:induction false} XReduce(k: nat)
    ensures X(12 + k) == Add(X(3 + k), X(k))
  {
    hide Add, MulX;
    if k == 0 {
      XTwelve();
    } else {
      XReduce(k - 1);
      MulXAdd(X(2 + k), X(k - 1));
    }
  }

  lemma XTwelve()
    ensures X(12) == Add(X(3), X(0))
  {
    hide Xor;
    SmallX(11);
    SmallX(3);
    Power11();
    AddLaws(9, 0, 0);
    XorOne(8);
    assert MulX(2048) == Add(0, 9);
  }

  /** Twice the same power cancels. */
  lemma Cancel(a: Gf, b: Gf)
    ensures Add(Add(a, b), b) == a
  {
    AddLaws(a, b, b);
    AddLaws(a, 0, 0);
    AddLaws(b, b, 0);
  }

  lemma X32()
    ensures X(16) == Add(X(7), X(4))
    ensures X(32) == Add(Add(X(5), X(2)), X(8))
  {
    hide Add, Mul, X;
    XReduce(4);
    XReduce(2);
    XSq(16);
    SqAdd(X(7), X(4));
    XSq(7);
    XSq(4);
  }

  lemma X64()
    ensures X(64) == Add(X(10), X(7))
  {
    hide Add, Mul, X, Sq;
    X32();
    XSq(32);
    SqAdd(Add(X(5), X(2)), X(8));
    SqAdd(X(5), X(2));
    XSq(5);
    XSq(2);
    XSq(8);
    AddLaws(Add(X(10), X(4)), X(7), X(4));
    AddSwap(X(10), X(4), X(7), X(4));
    AddLaws(X(4), X(4), 0);
    AddLaws(Add(X(10), X(7)), 0, 0);
  }

  lemma X256()
    ensures X(256) == Add(Add(X(7), X(4)), X(1))
  {
    hide Add, Mul, X, Sq;
    X64();
    XSq(64);
    SqAdd(X(10), X(7));
    XSq(10);
    XSq(7);
    XReduce(8);
    XReduce(2);
    assert X(128) == Add(Add(X(11), X(8)), Add(X(5), X(2)));
    XSq(128);
    SqAdd(Add(X(11), X(8)), Add(X(5), X(2)));
    SqAdd(X(11), X(8));
    SqAdd(X(5), X(2));
    XSq(11);
    XSq(8);
    XSq(5);
    XSq(2);
    XReduce(10);
    X32();
    XReduce(1);
    Drop22(X(13), X(10), X(7), X(4), X(1));
  }

  lemma Drop22(p: Gf, q: Gf, r: Gf, s: Gf, t: Gf)
    requires p == Add(s, t)
    ensures Add(Add(Add(p, q), Add(r, s)), Add(q, s)) == Add(Add(r, s), t)
  {
    hide Add;
    AddSwap(Add(p, q), Add(r, s), q, s);
    Cancel(p, q);
    Cancel(r, s);
    AddLaws(p, r, 0);
    AddLaws(r, s, t);
  }

  lemma X1024()
    ensures X(1024) == Add(Add(X(7), X(4)), X(10))
  {
    hide Add, Mul, X, Sq;
    X256();
    XSq(256);
    SqAdd(Add(X(7), X(4)), X(1));
    SqAdd(X(7), X(4));
    XSq(7);
    XSq(4);
    XSq(1);
    XReduce(2);
    AddLaws(Add(X(5), X(2)), X(8), 0);
    AddLaws(X(5), X(2), X(8));
    AddLaws(X(2), X(8), 0);
    assert X(512) == Add(X(8), X(5)) by {
      AddLaws(X(5), X(2), 0);
      AddLaws(X(8), Add(X(5), X(2)), X(2));
      Cancel(X(5), X(2));
      AddLaws(Add(Add(X(5), X(2)), X(8)), X(2), 0);
    }
    XSq(512);
    SqAdd(X(8), X(5));
    XSq(8);
    XSq(5);
    X32();
  }

  /** x^(2^12) = x */
  lemma X4096()
    ensures X(4096) == X(1)
  {
    hide Add, Mul, X, Sq;
    X1024();
    XSq(1024);
    SqAdd(Add(X(7), X(4)), X(10));
    SqAdd(X(7), X(4));
    XSq(7);
    XSq(4);
    XSq(10);
    XReduce(2);
    XReduce(8);
    assert X(2048) == Add(Add(X(5), X(2)), X(11)) by {
      AddLaws(Add(Add(X(5), X(2)), X(8)), X(11), X(8));
      AddLaws(X(11), X(8), 0);
      AddLaws(Add(X(5), X(2)), X(8), Add(X(8), X(11)));
      AddLaws(X(8), X(8), X(11));
      AddLaws(X(8), X(11), 0);
    }
    XSq(2048);
    SqAdd(Add(X(5), X(2)), X(11));
    SqAdd(X(5), X(2));
    XSq(5);
    XSq(2);
    XSq(11);
    XReduce(10);
    XReduce(1);
    LastStep(X(10), X(4), X(13), X(1));
  }

  lemma LastStep(q: Gf, s: Gf, p: Gf, t: Gf)
    requires p == Add(s, t)
    ensures Add(Add(q, s), Add(p, q)) == t
  {
    hide Add;
    AddLaws(q, s, 0);
    AddLaws(p, q, 0);
    AddLaws(Add(s, q), q, p);
    Cancel(s, q);
    AddLaws(s, t, 0);
  }

  // ---------- a^4096 = a ----------

  lemma XSquares(n: nat)
    ensures Squares(X(1), n) == X(Pow2(n))
  {
    hide Mul, MulX, Sq;
    if n > 0 {
      XSquares(n - 1);
      XSq(Pow2(n - 1));
    }
  }

  lemma MulXIsMul(a: Gf)
    ensures MulX(a) == Mul(X(1), a)
  {
    hide Mul, MulX;
    MulMulX(1, a);
    MulOne(a);
    assert X(1) == MulX(X(0));
  }

  /** Twelve squarings give back every element. */
  lemma {:induction false} Frobenius(a: Gf)
    ensures Squares(a, 12) == a
    decreases a
  {
    hide Mul, MulX, Add, Squares, X;
    if a < 2 {
      SquaresBit(a, 12);
    } else {
      Frobenius(a / 2);
      Horner(a);
      MulXIsMul(a / 2);
      SquaresAdd(MulX(a / 2), a % 2, 12);
      SquaresMul(X(1), a / 2, 12);
      XSquares(12);
      Pow2Values();
      X4096();
      SquaresBit(a % 2, 12);
    }
  }

  /** a^4095 equals its own square. */
  lemma {:induction false} NormIdempotent(a: Gf)
    ensures Sq(Pow(a, 4095)) == Pow(a, 4095)
  {
    hide Mul, Pow;
    Frobenius(a);
    SquaresPow(a, 12);
    Pow2Values();
    PowAdd(a, 4095, 4095);
    PowAdd(a, 4096, 4094);
    PowAdd(a, 1, 4094);
    PowOne(a);
  }

  lemma PowOne(a: Gf)
    ensures Pow(a, 1) == a && Pow(a, 0) == 1
  {
    hide Mul;
    MulOne(a);
    assert Pow(a, 1) == Mul(a, Pow(a, 0));
  }
}
