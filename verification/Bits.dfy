/** Bitwise arithmetic on machine words, modelled as natural numbers.
    A word of width k is a natural number below Pow2(k); the C operators &, |, ^, << and >>
    are defined bit by bit, and wrap-around is an explicit % Pow2(k). */
module Bits {

  function Pow2(k: nat): (r: nat)
    ensures r >= 1
    ensures k > 0 ==> r % 2 == 0
  {
    if k == 0 then 1 else 2 * Pow2(k - 1)
  }

  function B2N(b: bool): nat { if b then 1 else 0 }

  function Min(a: int, b: int): int { if a < b then a else b }

  /** Bit i of x. */
  predicate Bit(x: nat, i: nat)
    decreases i
  {
    if i == 0 then x % 2 == 1 else Bit(x / 2, i - 1)
  }

  function And(a: nat, b: nat): nat {
    if a == 0 then 0 else B2N(a % 2 == 1 && b % 2 == 1) + 2 * And(a / 2, b / 2)
  }

  function Or(a: nat, b: nat): nat {
    if a == 0 then b else B2N(a % 2 == 1 || b % 2 == 1) + 2 * Or(a / 2, b / 2)
  }

  function Xor(a: nat, b: nat): nat
    decreases a + b
  {
    if a == 0 then b else B2N(a % 2 != b % 2) + 2 * Xor(a / 2, b / 2)
  }

  function Shl(x: nat, k: nat): nat { x * Pow2(k) }

  function Shr(x: nat, k: nat): nat {
    DivBasics(x, Pow2(k));
    x / Pow2(k)
  }

  lemma DivBasics(x: nat, d: nat)
    requires d > 0
    ensures 0 <= x / d <= x
    ensures x == d * (x / d) + x % d && 0 <= x % d < d
  {
    if x / d >= 0 {
      MulLe(x / d, 1, d);
    }
  }

  lemma MulLe(a: nat, b: int, c: int)
    requires b <= c
    ensures a * b <= a * c
    ensures b * a <= c * a
  {
  }

  // ---------- bits of the operators ----------

  lemma BitZero(i: nat)
    ensures !Bit(0, i)
  {
  }

  /** Each operator works on the lowest bits and on the rest separately. */
  lemma Halves(a: nat, b: nat)
    ensures And(a, b) / 2 == And(a / 2, b / 2) && (And(a, b) % 2 == 1) == (a % 2 == 1 && b % 2 == 1)
    ensures Or(a, b) / 2 == Or(a / 2, b / 2) && (Or(a, b) % 2 == 1) == (a % 2 == 1 || b % 2 == 1)
    ensures Xor(a, b) / 2 == Xor(a / 2, b / 2) && (Xor(a, b) % 2 == 1) == ((a % 2 == 1) != (b % 2 == 1))
  {
  }

  lemma {:induction false} AndBit(a: nat, b: nat, i: nat)
    ensures Bit(And(a, b), i) == (Bit(a, i) && Bit(b, i))
    decreases i
  {
    hide And;
    Halves(a, b);
    if i > 0 {
      AndBit(a / 2, b / 2, i - 1);
    }
  }

  lemma {:induction false} OrBit(a: nat, b: nat, i: nat)
    ensures Bit(Or(a, b), i) == (Bit(a, i) || Bit(b, i))
    decreases i
  {
    hide Or;
    Halves(a, b);
    if i > 0 {
      OrBit(a / 2, b / 2, i - 1);
    }
  }

  lemma {:induction false} XorBit(a: nat, b: nat, i: nat)
    ensures Bit(Xor(a, b), i) == (Bit(a, i) != Bit(b, i))
    decreases i
  {
    hide Xor;
    Halves(a, b);
    if i > 0 {
      XorBit(a / 2, b / 2, i - 1);
    }
  }

  /** A bit is what the C expression (x >> i) & 1 extracts. */
  lemma BitIsShift(x: nat, i: nat)
    ensures Bit(x, i) == (x / Pow2(i) % 2 == 1)
  {
    if i > 0 {
      BitIsShift(x / 2, i - 1);
      DivDiv(x, 2, Pow2(i - 1));
    }
  }

  lemma DivDiv(x: nat, a: nat, b: nat)
    requires a > 0 && b > 0
    ensures a * b > 0
    ensures x / a / b == x / (a * b)
  {
    DivBasics(x, a);
    var y: nat := x / a;
    DivBasics(y, b);
    var q, r, s := y / b, y % b, x % a;
    MulLe(a, 1, b);
    Nested(q, b, r, a);
    MulLe(a, r, b - 1);
    assert a * (b - 1) == a * b - a;
    DivUnique(x, a * b, q, a * r + s);
  }

  lemma Nested(q: int, b: int, r: int, a: int)
    ensures a * (b * q + r) == q * (a * b) + a * r
  {
  }

  lemma DivUnique(x: int, d: int, q: int, r: int)
    requires d > 0
    requires x == q * d + r && 0 <= r < d
    ensures x / d == q && x % d == r
  {
    var q', r' := x / d, x % d;
    assert x == d * q' + r' && 0 <= r' < d;
    if q > q' {
      MulLe(d, q' + 1, q);
    } else if q < q' {
      MulLe(d, q + 1, q');
    }
  }

  /** Words with the same bits below k that are both below 2^k are equal. */
  lemma BitExt(a: nat, b: nat, k: nat)
    requires a < Pow2(k) && b < Pow2(k)
    requires forall i :: 0 <= i < k ==> Bit(a, i) == Bit(b, i)
    ensures a == b
  {
    if k > 0 {
      assert Bit(a, 0) == Bit(b, 0);
      forall i | 0 <= i < k - 1
        ensures Bit(a / 2, i) == Bit(b / 2, i)
      {
        assert Bit(a, i + 1) == Bit(b, i + 1);
      }
      BitExt(a / 2, b / 2, k - 1);
    }
  }

  /** A word below 2^k has no bit at or above k. */
  lemma BitHigh(a: nat, k: nat, i: nat)
    requires a < Pow2(k) && i >= k
    ensures !Bit(a, i)
  {
    if k > 0 {
      BitHigh(a / 2, k - 1, i - 1);
    } else {
      BitZero(i);
    }
  }

  lemma BitShl(x: nat, k: nat, i: nat)
    ensures Bit(Shl(x, k), i) == (i >= k && Bit(x, i - k))
  {
    if k > 0 {
      assert Shl(x, k) == 2 * Shl(x, k - 1) by { assert x * (2 * Pow2(k - 1)) == 2 * (x * Pow2(k - 1)); }
      if i > 0 {
        BitShl(x, k - 1, i - 1);
      }
    }
  }

  lemma BitShr(x: nat, k: nat, i: nat)
    ensures Bit(Shr(x, k), i) == Bit(x, i + k)
  {
    DivBasics(x, Pow2(k));
    var y: nat := x / Pow2(k);
    BitIsShift(y, i);
    BitIsShift(x, i + k);
    DivDiv(x, Pow2(k), Pow2(i));
    Pow2Add(k, i);
  }

  lemma BitMod(x: nat, k: nat, i: nat)
    ensures Bit(x % Pow2(k), i) == (i < k && Bit(x, i))
  {
    DivBasics(x, Pow2(k));
    if i >= k {
      var m: nat := x % Pow2(k);
      BitHigh(m, k, i);
    } else {
      ModStep(x, k);
      if i > 0 {
        BitMod(x / 2, k - 1, i - 1);
        DivBasics(x / 2, Pow2(k - 1));
        assert x % Pow2(k) / 2 == x / 2 % Pow2(k - 1);
      }
    }
  }

  lemma ModStep(x: nat, k: nat)
    requires k > 0
    ensures x % Pow2(k) == 2 * (x / 2 % Pow2(k - 1)) + x % 2
  {
    var p := Pow2(k - 1);
    var h := x / 2;
    assert x == 2 * h + x % 2;
    assert h == p * (h / p) + h % p;
    assert x == (h / p) * (2 * p) + (2 * (h % p) + x % 2);
    DivUnique(x, 2 * p, h / p, 2 * (h % p) + x % 2);
  }

  // ---------- powers of two ----------

  lemma DoubleFirst(x: nat, y: nat)
    ensures 2 * (x * y) == (2 * x) * y
  {
  }

  lemma {:induction false} Pow2Add(a: nat, b: nat)
    ensures Pow2(a + b) == Pow2(a) * Pow2(b)
  {
    if a == 0 {
      assert 1 * Pow2(b) == Pow2(b);
    } else {
      Pow2Add(a - 1, b);
      DoubleFirst(Pow2(a - 1), Pow2(b));
      assert Pow2(a + b) == 2 * Pow2(a - 1 + b);
    }
  }

  lemma Pow2Mono(a: nat, b: nat)
    requires a <= b
    ensures Pow2(a) <= Pow2(b)
  {
    if a < b {
      Pow2Mono(a, b - 1);
    }
  }

  lemma Pow2Values()
    ensures Pow2(1) == 2 && Pow2(6) == 64 && Pow2(8) == 256 && Pow2(10) == 1024 && Pow2(12) == 4096
        && Pow2(16) == 0x1_0000
    ensures Pow2(20) == 0x10_0000 && Pow2(24) == 0x100_0000
    ensures Pow2(31) == 0x8000_0000 && Pow2(32) == 0x1_0000_0000
    ensures Pow2(63) == 0x8000_0000_0000_0000 && Pow2(64) == 0x1_0000_0000_0000_0000
  {
    SmallPowers();
    hide Pow2;
    Pow2Add(6, 4);
    Pow2Add(8, 4);
    Pow2Add(8, 8);
    Pow2Add(8, 16);
    Pow2Add(16, 16);
    Pow2Add(32, 32);
    Pow2Add(16, 4);
    Pow2Add(1, 31);
    Pow2Add(1, 63);
  }

  lemma SmallPowers()
    ensures Pow2(1) == 2 && Pow2(4) == 16 && Pow2(6) == 64 && Pow2(8) == 256
  {
  }

  // ---------- bounds and algebra ----------

  lemma AndBound(a: nat, b: nat)
    ensures And(a, b) <= a && And(a, b) <= b
  {
    if a > 0 {
      AndBound(a / 2, b / 2);
    }
  }

  lemma OrBound(a: nat, b: nat, k: nat)
    requires a < Pow2(k) && b < Pow2(k)
    ensures Or(a, b) < Pow2(k)
  {
    if k > 0 && a > 0 {
      OrBound(a / 2, b / 2, k - 1);
    }
  }

  lemma XorBound(a: nat, b: nat, k: nat)
    requires a < Pow2(k) && b < Pow2(k)
    ensures Xor(a, b) < Pow2(k)
  {
    if k > 0 && a > 0 {
      XorBound(a / 2, b / 2, k - 1);
    }
  }

  lemma XorZero(a: nat)
    ensures Xor(a, 0) == a == Xor(0, a)
  {
    if a > 0 {
      XorZero(a / 2);
    }
  }

  lemma XorComm(a: nat, b: nat)
    ensures Xor(a, b) == Xor(b, a)
    decreases a + b
  {
    XorZero(a);
    XorZero(b);
    if a > 0 && b > 0 {
      XorComm(a / 2, b / 2);
    }
  }

  lemma XorAssoc(a: nat, b: nat, c: nat)
    ensures Xor(Xor(a, b), c) == Xor(a, Xor(b, c))
    decreases a + b + c
  {
    XorZero(a);
    if a > 0 && b > 0 {
      XorAssoc(a / 2, b / 2, c / 2);
      assert Xor(a, b) / 2 == Xor(a / 2, b / 2);
      assert Xor(b, c) / 2 == Xor(b / 2, c / 2);
      if Xor(a, b) == 0 {
        assert Xor(a / 2, b / 2) == 0;
        XorZero(c / 2);
        assert Xor(Xor(a / 2, b / 2), c / 2) == c / 2;
      }
    }
  }

  lemma XorSelf(a: nat)
    ensures Xor(a, a) == 0
  {
    if a > 0 {
      XorSelf(a / 2);
    }
  }

  /** The exclusive-or exchange: xoring the difference of a and b into a gives b. */
  lemma XorCancel(a: nat, b: nat)
    ensures Xor(a, Xor(a, b)) == b
    ensures Xor(a, Xor(b, a)) == b
  {
    XorAssoc(a, a, b);
    XorSelf(a);
    XorZero(b);
    XorComm(a, b);
  }

  lemma XorEqual(a: nat, b: nat)
    ensures Xor(a, b) == 0 <==> a == b
  {
    XorSelf(a);
    XorCancel(a, b);
    XorZero(a);
  }

  lemma OrBothZero(a: nat, b: nat)
    ensures Or(a, b) == 0 <==> a == 0 && b == 0
  {
    if a > 0 {
      OrBothZero(a / 2, b / 2);
    }
  }

  lemma AndZero(a: nat)
    ensures And(a, 0) == 0 == And(0, a)
  {
    if a > 0 {
      AndZero(a / 2);
    }
  }

  lemma AndComm(a: nat, b: nat)
    ensures And(a, b) == And(b, a)
    decreases a + b
  {
    AndZero(a);
    AndZero(b);
    if a > 0 && b > 0 {
      AndComm(a / 2, b / 2);
    }
  }

  /** Masking with k low ones is reduction modulo 2^k. */
  lemma AndMask(a: nat, k: nat)
    ensures And(a, Pow2(k) - 1) == a % Pow2(k)
  {
    if k == 0 {
      AndZero(a);
    } else if a > 0 {
      var m := Pow2(k) - 1;
      assert m / 2 == Pow2(k - 1) - 1 && m % 2 == 1;
      AndMask(a / 2, k - 1);
      calc {
        And(a, m);
        B2N(a % 2 == 1) + 2 * And(a / 2, Pow2(k - 1) - 1);
        a % 2 + 2 * (a / 2 % Pow2(k - 1));
        { ModStep(a, k); }
        a % Pow2(k);
      }
    } else {
      DivUnique(a, Pow2(k), 0, 0);
    }
  }

  lemma AndOnes(a: nat, k: nat, m: nat)
    requires a < Pow2(k) && m == Pow2(k) - 1
    ensures And(m, a) == a == And(a, m)
  {
    AndMask(a, k);
    AndComm(m, a);
    DivUnique(a, Pow2(k), 0, a);
  }

  /** Masking with the ones from k to w-1 keeps the field between these positions. */
  lemma AndField(a: nat, k: nat, w: nat)
    requires k <= w
    ensures Pow2(k) <= Pow2(w)
    ensures And(a, Pow2(w) - Pow2(k)) == a % Pow2(w) - a % Pow2(k)
  {
    Pow2Mono(k, w);
    if k == 0 {
      AndMask(a, w);
    } else if a > 0 {
      var m := Pow2(w) - Pow2(k);
      assert m / 2 == Pow2(w - 1) - Pow2(k - 1) && m % 2 == 0;
      AndField(a / 2, k - 1, w - 1);
      calc {
        And(a, m);
        2 * And(a / 2, Pow2(w - 1) - Pow2(k - 1));
        2 * (a / 2 % Pow2(w - 1) - a / 2 % Pow2(k - 1));
        { ModStep(a, k); ModStep(a, w); }
        a % Pow2(w) - a % Pow2(k);
      }
    } else {
      DivUnique(a, Pow2(k), 0, 0);
      DivUnique(a, Pow2(w), 0, 0);
    }
  }

  /** Combining a multiple of 2^k with a field below 2^k by | is addition. */
  lemma OrIsAdd(h: nat, l: nat, k: nat)
    requires l < Pow2(k)
    ensures Or(h * Pow2(k), l) == h * Pow2(k) + l
  {
    if k == 0 {
      OrZero(h);
    } else if h > 0 {
      assert h * Pow2(k) == 2 * (h * Pow2(k - 1));
      OrIsAdd(h, l / 2, k - 1);
    }
  }

  lemma OrZero(a: nat)
    ensures Or(a, 0) == a
  {
    if a > 0 {
      OrZero(a / 2);
    }
  }

  /** x ^ 1 exchanges the two members of the pair {2j, 2j+1}. */
  lemma XorOne(x: nat)
    ensures Xor(x, 1) == if x % 2 == 0 then x + 1 else x - 1
  {
    XorZero(x / 2);
  }
}
