/** The C operators on 32-bit values, and the packing of fields that controlbits.c does with them. */
module Words {
  import opened Bits
  import opened Sort

  const U32: int := 0x1_0000_0000

  // ---------- operators on int32 values ----------

  function And32(a: int, b: int): int { ToS32(And(ToU32(a), ToU32(b))) }

  function Or32(a: int, b: int): int { ToS32(Or(ToU32(a), ToU32(b))) }

  function Xor32(a: int, b: int): int { ToS32(Xor(ToU32(a), ToU32(b))) }

  /** (int32)((uint32_t)a << k) */
  function Shl32(a: int, k: nat): int { ToS32(Shl(ToU32(a), k)) }

  /** The arithmetic shift a >> k. */
  function Shr32(a: int, k: nat): int { a / Pow2(k) }

  /** crypto_int32_min, which computes the first result of the exchange. */
  function Min32(a: int, b: int): int { Int32MinMax(a, b).0 }

  // ---------- words h * 2^k + l with l below 2^k ----------

  lemma SmallWord(a: int)
    requires 0 <= a < 0x8000_0000
    ensures ToU32(a) == a && ToS32(a) == a
  {
  }

  lemma Join(h: nat, l: nat, k: nat)
    requires l < Pow2(k) && 0 <= h * Pow2(k) && h * Pow2(k) + l < 0x8000_0000
    ensures Or32(h * Pow2(k), l) == h * Pow2(k) + l
  {
    SmallWord(h * Pow2(k));
    SmallWord(l);
    OrIsAdd(h, l, k);
    SmallWord(h * Pow2(k) + l);
  }

  /** a & m on a non-negative value, where m has the pattern of the ones from k to w-1. */
  lemma Field(a: nat, k: nat, w: nat, m: int)
    requires k <= w && ToU32(m) == Pow2(w) - Pow2(k) && a < 0x8000_0000
    ensures And32(a, m) == a % Pow2(w) - a % Pow2(k)
  {
    SmallWord(a);
    AndField(a, k, w);
    AndBound(a, Pow2(w) - Pow2(k));
    SmallWord(And(a, Pow2(w) - Pow2(k)));
  }

  lemma LowField(a: nat, w: nat, P: nat, m: int)
    requires P == Pow2(w) && ToU32(m) == P - 1 && a < 0x8000_0000
    ensures And32(a, m) == a % P
  {
    Field(a, 0, w, m);
    DivUnique(a, 1, a, 0);
  }

  lemma HighField(a: nat, k: nat, P: nat, m: int)
    requires k <= 32 && P == Pow2(k) && ToU32(m) == U32 - P && a < 0x8000_0000
    ensures And32(a, m) == a - a % P
  {
    assert Pow2(32) == U32 by { Pow2Values(); }
    Field(a, k, 32, m);
    DivUnique(a, U32, 0, a);
  }

  lemma Low(h: nat, l: nat, w: nat, P: nat, m: int)
    requires P == Pow2(w) && ToU32(m) == P - 1 && l < P && 0 <= h * P && h * P + l < 0x8000_0000
    ensures And32(h * P + l, m) == l
  {
    LowField(h * P + l, w, P, m);
    DivUnique(h * P + l, P, h, l);
  }

  lemma High(h: nat, l: nat, k: nat, P: nat, m: int)
    requires k <= 32 && P == Pow2(k) && ToU32(m) == U32 - P && l < P && 0 <= h * P && h * P + l < 0x8000_0000
    ensures And32(h * P + l, m) == h * P
  {
    HighField(h * P + l, k, P, m);
    DivUnique(h * P + l, P, h, l);
  }

  /** Shifting left by k inside 32 bits keeps the 32-k low bits. */
  lemma ShiftOut(g: nat, r: nat, k: nat, P: nat)
    requires P == Pow2(k) && 0 <= r * P < 0x8000_0000 && 0 <= g * U32
    ensures ToS32((g * U32 + r * P)) == r * P
  {
    DivUnique(g * U32 + r * P, U32, g, r * P);
  }

  lemma Join16(h: nat, l: nat)
    requires h < 0x8000 && l < 0x1_0000
    ensures Or32(h * 0x1_0000, l) == h * 0x1_0000 + l
  {
    Pow2Values();
    Join(h, l, 16);
  }

  lemma Low16(h: nat, l: nat)
    requires h < 0x8000 && l < 0x1_0000
    ensures And32(h * 0x1_0000 + l, 0xFFFF) == l
  {
    Pow2Values();
    Low(h, l, 16, 0x1_0000, 0xFFFF);
  }

  lemma High16(h: nat, l: nat)
    requires h < 0x8000 && l < 0x1_0000
    ensures And32(h * 0x1_0000 + l, -0x1_0000) == h * 0x1_0000
  {
    Pow2Values();
    High(h, l, 16, 0x1_0000, -0x1_0000);
  }

  lemma Shift16(h: nat, l: nat)
    requires h < 0x8000 && l < 0x8000
    ensures Shl32(h * 0x1_0000 + l, 16) == l * 0x1_0000
  {
    Pow2Values();
    SmallWord(h * 0x1_0000 + l);
    assert (h * 0x1_0000 + l) * 0x1_0000 == h * U32 + l * 0x1_0000;
    ShiftOut(h, l, 16, 0x1_0000);
  }

  lemma Top16(h: nat, l: nat)
    requires h < 0x8000 && l < 0x1_0000
    ensures Shr32(h * 0x1_0000 + l, 16) == h
  {
    Pow2Values();
  }

  lemma Join10(h: nat, l: nat)
    requires h < 0x400 && l < 0x400
    ensures Or32(h * 0x400, l) == h * 0x400 + l
  {
    Pow2Values();
    Join(h, l, 10);
  }

  lemma Low10(h: nat, l: nat)
    requires h < 0x20_0000 && l < 0x400
    ensures And32(h * 0x400 + l, 0x3FF) == l
  {
    Pow2Values();
    Low(h, l, 10, 0x400, 0x3FF);
  }

  lemma High10(h: nat, l: nat)
    requires h < 0x400 && l < 0x400
    ensures And32(h * 0x400 + l, -0x400) == h * 0x400
  {
    Pow2Values();
    High(h, l, 10, 0x400, -0x400);
  }

  lemma Join20(h: nat, l: nat)
    requires h < 0x400 && l < 0x10_0000
    ensures Or32(h * 0x10_0000, l) == h * 0x10_0000 + l
  {
    Pow2Values();
    Join(h, l, 20);
  }

  lemma Shift20(h: nat, l: nat)
    requires h < 0x400 && l < 0x400
    ensures Shl32(h * 0x1_0000 + l, 20) == l * 0x10_0000
  {
    Pow2Values();
    SmallWord(h * 0x1_0000 + l);
    assert (h * 0x1_0000 + l) * 0x10_0000 == (h * 16) * U32 + l * 0x10_0000;
    ShiftOut(h * 16, l, 20, 0x10_0000);
  }

  lemma Low20(h: nat, l: nat)
    requires h < 0x400 && l < 0x10_0000
    ensures And32(h * 0x10_0000 + l, 0xF_FFFF) == l
  {
    Pow2Values();
    Low(h, l, 20, 0x10_0000, 0xF_FFFF);
  }

  lemma Middle10(g: nat, h: nat, l: nat)
    requires g < 0x400 && h < 0x400 && l < 0x400
    ensures And32(g * 0x10_0000 + (h * 0x400 + l), 0xF_FC00) == h * 0x400
  {
    Pow2Values();
    var a := g * 0x10_0000 + (h * 0x400 + l);
    Field(a, 10, 20, 0xF_FC00);
    DivUnique(a, 0x10_0000, g, h * 0x400 + l);
    DivUnique(a, 0x400, g * 0x400 + h, l);
  }

  lemma Shift10(p: nat)
    requires p < 0x400
    ensures Shl32(p, 10) == p * 0x400
  {
    Pow2Values();
    SmallWord(p);
    SmallWord(p * 0x400);
  }

  lemma Shift6(h: nat)
    requires h < 0x400
    ensures Shl32(h * 0x400, 6) == h * 0x1_0000
  {
    Pow2Values();
    SmallWord(h * 0x400);
    SmallWord(h * 0x1_0000);
  }

  lemma MinOf(a: int, b: int)
    requires INT32_MIN <= a < INT32_END && INT32_MIN <= b < INT32_END
    ensures Min32(a, b) == if b < a then b else a
  {
    Int32MinMaxExact(a, b);
  }

  lemma XorOne32(x: nat)
    requires x < 0x8000
    ensures Xor32(x, 1) == if x % 2 == 0 then x + 1 else x - 1
  {
    hide Xor;
    XorOne(x);
  }

  // ---------- two int16 values in one word ----------

  /** The low (e = 0) or high (e = 1) 16 bits of a word. */
  function HalfWord(v: int, e: nat): (r: nat)
    ensures r < 0x1_0000
  {
    if e == 0 then ToU32(v) % 0x1_0000 else ToU32(v) / 0x1_0000
  }

  /** The word with one half replaced. */
  function SetHalf(v: int, e: nat, h: nat): int
    requires h < 0x1_0000
  {
    if e == 0 then ToS32(ToU32(v) - ToU32(v) % 0x1_0000 + h)
    else ToS32(h * 0x1_0000 + ToU32(v) % 0x1_0000)
  }

  lemma SetHalfAt(v: int, e: nat, h: nat, d: nat)
    requires h < 0x1_0000 && e < 2 && d < 2
    ensures HalfWord(SetHalf(v, e, h), d) == if d == e then h else HalfWord(v, d)
  {
    var u := ToU32(v);
    DivUnique(u, 0x1_0000, u / 0x1_0000, u % 0x1_0000);
    var r := if e == 0 then u - u % 0x1_0000 + h else h * 0x1_0000 + u % 0x1_0000;
    assert ToU32(SetHalf(v, e, h)) == r;
  }
}
