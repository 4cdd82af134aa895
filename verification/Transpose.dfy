/** transpose.c: transposing a 64x64 bit matrix by exchanging blocks of size 32, 16, 8, 4, 2 and 1. */
module Transpose {
  import opened Bits
  import opened Network
  import opened PairLoop

  const U64: int := 0x1_0000_0000_0000_0000

  ghost predicate Words64(s: seq<int>) {
    forall i :: 0 <= i < |s| ==> 0 <= s[i] < U64
  }

  // ---------- the masks ----------

  /** 2^e copies of the pattern of s ones below s zeros. */
  function Pattern(s: nat, e: nat): nat {
    if e == 0 then Pow2(s) - 1
    else Pattern(s, e - 1) * Pow2(s * Pow2(e)) + Pattern(s, e - 1)
  }

  lemma BitOfSum(h: nat, l: nat, k: nat, i: nat)
    requires l < Pow2(k)
    ensures h * Pow2(k) >= 0
    ensures Bit(h * Pow2(k) + l, i) == if i < k then Bit(l, i) else Bit(h, i - k)
  {
    MulLe(Pow2(k), 0, h);
    OrIsAdd(h, l, k);
    OrBit(h * Pow2(k), l, i);
    BitShl(h, k, i);
    if i >= k {
      BitHigh(l, k, i);
    }
  }

  lemma OnesBit(s: nat, i: nat)
    ensures Bit(Pow2(s) - 1, i) == (i < s)
  {
    if s > 0 && i > 0 {
      assert (Pow2(s) - 1) / 2 == Pow2(s - 1) - 1;
      OnesBit(s - 1, i - 1);
    }
    if s == 0 {
      BitZero(i);
    }
  }

  predicate LowHalf(b: nat, s: nat)
    requires s > 0
  {
    b / s % 2 == 0
  }

  lemma LowHalfShift(b: nat, s: nat, m: nat)
    requires s > 0 && b >= 2 * s * m
    ensures LowHalf(b, s) == LowHalf(b - 2 * s * m, s)
  {
    var c := b - 2 * s * m;
    DivBasics(c, s);
    var q := c / s;
    assert b == (q + 2 * m) * s + c % s;
    DivUnique(b, s, q + 2 * m, c % s);
  }

  lemma DoubleWidth(s: nat, e: nat)
    ensures s * Pow2(e) >= 0 && s * Pow2(e + 1) == s * Pow2(e) + s * Pow2(e)
    ensures e > 0 ==> s * Pow2(e) == 2 * s * Pow2(e - 1)
  {
    MulLe(s, 0, Pow2(e));
    assert s * (2 * Pow2(e)) == s * Pow2(e) + s * Pow2(e);
    if e > 0 {
      assert s * (2 * Pow2(e - 1)) == 2 * s * Pow2(e - 1);
    }
  }

  lemma SquareBound(v: nat, Q: nat)
    requires v < Q
    ensures v * Q + v < Q * Q
  {
    MulLe(Q, v, Q - 1);
  }

  lemma PatternBound(s: nat, e: nat)
    ensures s * Pow2(e + 1) >= 0 && Pattern(s, e) < Pow2(s * Pow2(e + 1))
  {
    DoubleWidth(s, e);
    if e == 0 {
      Pow2Mono(s, s * Pow2(1));
    } else {
      PatternBound(s, e - 1);
      var w := s * Pow2(e);
      PatternUp(s, e, w, Pow2(w), Pattern(s, e - 1));
      Pow2Add(w, w);
      SquareBound(Pattern(s, e - 1), Pow2(w));
    }
  }

  lemma PatternUp(s: nat, e: nat, w: nat, P: nat, v: nat)
    requires e > 0 && w == s * Pow2(e) && P == Pow2(w) && v == Pattern(s, e - 1)
    ensures Pattern(s, e) == v * P + v
  {
  }

  /** Bit b of the pattern. */
  lemma {:induction false} PatternBit(s: nat, e: nat, b: nat)
    requires s > 0 && b < s * Pow2(e + 1)
    ensures Bit(Pattern(s, e), b) == LowHalf(b, s)
  {
    hide LowHalf, Bit, Pow2;
    DoubleWidth(s, e);
    if e == 0 {
      PatternBase(s, b);
    } else {
      var w, v := s * Pow2(e), Pattern(s, e - 1);
      PatternUp(s, e, w, Pow2(w), v);
      PatternBound(s, e - 1);
      BitOfSum(v, v, w, b);
      if b < w {
        PatternBit(s, e - 1, b);
      } else {
        LowHalfShift(b, s, Pow2(e - 1));
        PatternBit(s, e - 1, b - w);
      }
    }
  }

  lemma PatternBase(s: nat, b: nat)
    requires s > 0 && b < s * Pow2(1)
    ensures Bit(Pattern(s, 0), b) == LowHalf(b, s)
  {
    OnesBit(s, b);
    assert b < 2 * s;
    if b < s {
      DivUnique(b, s, 0, b);
    } else {
      DivUnique(b, s, 1, b - s);
    }
  }

  /** masks[d][0] */
  function Mask(d: nat): nat
    requires d < 6
  {
    match d
    case 0 => 0x5555_5555_5555_5555
    case 1 => 0x3333_3333_3333_3333
    case 2 => 0x0F0F_0F0F_0F0F_0F0F
    case 3 => 0x00FF_00FF_00FF_00FF
    case 4 => 0x0000_FFFF_0000_FFFF
    case 5 => 0x0000_0000_FFFF_FFFF
  }

  /** masks[d][1] */
  function Mask1(d: nat): nat
    requires d < 6
  {
    match d
    case 0 => 0xAAAA_AAAA_AAAA_AAAA
    case 1 => 0xCCCC_CCCC_CCCC_CCCC
    case 2 => 0xF0F0_F0F0_F0F0_F0F0
    case 3 => 0xFF00_FF00_FF00_FF00
    case 4 => 0xFFFF_0000_FFFF_0000
    case 5 => 0xFFFF_FFFF_0000_0000
  }

  lemma Widths()
    ensures Pow2(0) == 1 && Pow2(1) == 2 && Pow2(2) == 4 && Pow2(3) == 8 && Pow2(4) == 16 && Pow2(5) == 32
    ensures Pow2(8) == 0x100 && Pow2(16) == 0x1_0000 && Pow2(32) == 0x1_0000_0000 && Pow2(64) == U64
  {
    Pow2Values();
  }

  lemma MaskIsPattern(d: nat)
    requires d < 6
    ensures Mask(d) == Pattern(Pow2(d), 5 - d)
    ensures Mask1(d) == Shl(Mask(d), Pow2(d))
    ensures Mask(d) < U64 && Mask1(d) < U64
  {
    Widths();
    hide Pow2;
    match d
    case 0 =>
      PatternUp(1, 1, 2, 4, 0x1);
      PatternUp(1, 2, 4, 16, 0x5);
      PatternUp(1, 3, 8, 0x100, 0x55);
      PatternUp(1, 4, 16, 0x1_0000, 0x5555);
      PatternUp(1, 5, 32, 0x1_0000_0000, 0x5555_5555);
    case 1 =>
      PatternUp(2, 1, 4, 16, 0x3);
      PatternUp(2, 2, 8, 0x100, 0x33);
      PatternUp(2, 3, 16, 0x1_0000, 0x3333);
      PatternUp(2, 4, 32, 0x1_0000_0000, 0x3333_3333);
    case 2 =>
      PatternUp(4, 1, 8, 0x100, 0xF);
      PatternUp(4, 2, 16, 0x1_0000, 0x0F0F);
      PatternUp(4, 3, 32, 0x1_0000_0000, 0x0F0F_0F0F);
    case 3 =>
      PatternUp(8, 1, 16, 0x1_0000, 0xFF);
      PatternUp(8, 2, 32, 0x1_0000_0000, 0x00FF_00FF);
    case 4 =>
      PatternUp(16, 1, 32, 0x1_0000_0000, 0xFFFF);
    case 5 =>
  }

  /** masks[d][0] has the bits whose position has bit d clear, masks[d][1] those whose position has it set. */
  lemma {:induction false} MaskBit(d: nat, b: nat)
    requires d < 6 && b < 64
    ensures Bit(Mask(d), b) == LowHalf(b, Pow2(d))
    ensures Bit(Mask1(d), b) == !LowHalf(b, Pow2(d))
  {
    hide Bit, LowHalf, Mask, Mask1, Pattern, Pow2;
    var s := Pow2(d);
    MaskIsPattern(d);
    assert s * Pow2(6 - d) == 64 by { Pow2Add(d, 6 - d); Pow2Values(); }
    PatternBit(s, 5 - d, b);
    BitShl(Mask(d), s, b);
    if b >= s {
      PatternBit(s, 5 - d, b - s);
    }
    LowHalfNext(b, s);
  }

  lemma LowHalfNext(b: nat, s: nat)
    requires s > 0
    ensures LowHalf(b, s) != (b >= s && LowHalf(b - s, s))
  {
    if b >= s {
      DivBasics(b - s, s);
      var q := (b - s) / s;
      assert b == (q + 1) * s + (b - s) % s;
      DivUnique(b, s, q + 1, (b - s) % s);
    } else {
      DivUnique(b, s, 0, b);
    }
  }

  // ---------- one block exchange ----------

  /** x = (u & m0) | ((v & m0) << s) */
  function UpperWord(u: nat, v: nat, d: nat): nat
    requires d < 6
  {
    Or(And(u, Mask(d)), Shl(And(v, Mask(d)), Pow2(d)) % U64)
  }

  /** y = ((u & m1) >> s) | (v & m1) */
  function LowerWord(u: nat, v: nat, d: nat): nat
    requires d < 6
  {
    Or(Shr(And(u, Mask1(d)), Pow2(d)), And(v, Mask1(d)))
  }

  lemma WordBounds(u: nat, v: nat, d: nat)
    requires d < 6 && u < U64 && v < U64
    ensures UpperWord(u, v, d) < U64 && LowerWord(u, v, d) < U64
  {
    Pow2Values();
    AndBound(u, Mask(d));
    OrBound(And(u, Mask(d)), Shl(And(v, Mask(d)), Pow2(d)) % U64, 64);
    AndBound(u, Mask1(d));
    AndBound(v, Mask1(d));
    DivBasics(And(u, Mask1(d)), Pow2(d));
    OrBound(Shr(And(u, Mask1(d)), Pow2(d)), And(v, Mask1(d)), 64);
  }

  /** The position that is exchanged with b. */
  lemma OtherHalf(b: nat, d: nat)
    requires d < 6 && b < 64
    ensures LowHalf(b, Pow2(d)) ==> b + Pow2(d) < 64
    ensures !LowHalf(b, Pow2(d)) ==> b >= Pow2(d)
  {
    Widths();
    hide Pow2;
    match d
    case 0 => Other(b, 1);
    case 1 => Other(b, 2);
    case 2 => Other(b, 4);
    case 3 => Other(b, 8);
    case 4 => Other(b, 16);
    case 5 => Other(b, 32);
  }

  lemma Other(b: nat, s: nat)
    requires b < 64 && (s == 1 || s == 2 || s == 4 || s == 8 || s == 16 || s == 32)
    ensures LowHalf(b, s) ==> b + s < 64
    ensures !LowHalf(b, s) ==> b >= s
  {
  }

  lemma {:induction false} UpperBit(u: nat, v: nat, d: nat, b: nat)
    requires d < 6 && u < U64 && v < U64 && b < 64
    ensures !LowHalf(b, Pow2(d)) ==> b >= Pow2(d)
    ensures Bit(UpperWord(u, v, d), b) == if LowHalf(b, Pow2(d)) then Bit(u, b) else Bit(v, b - Pow2(d))
  {
    hide Bit, LowHalf, Mask, Shl;
    var s, m := Pow2(d), Mask(d);
    assert Pow2(64) == U64 by { Pow2Values(); }
    OtherHalf(b, d);
    OrBit(And(u, m), Shl(And(v, m), s) % U64, b);
    AndBit(u, m, b);
    BitMod(Shl(And(v, m), s), 64, b);
    BitShl(And(v, m), s, b);
    MaskBit(d, b);
    LowHalfNext(b, s);
    if b >= s {
      AndBit(v, m, b - s);
      MaskBit(d, b - s);
    }
  }

  lemma {:induction false} LowerBit(u: nat, v: nat, d: nat, b: nat)
    requires d < 6 && u < U64 && v < U64 && b < 64
    ensures Bit(LowerWord(u, v, d), b) == if LowHalf(b, Pow2(d)) then Bit(u, b + Pow2(d)) else Bit(v, b)
  {
    hide Bit, LowHalf, Mask1, Shr;
    var s, m := Pow2(d), Mask1(d);
    assert Pow2(64) == U64 by { Pow2Values(); }
    OtherHalf(b, d);
    OrBit(Shr(And(u, m), s), And(v, m), b);
    BitShr(And(u, m), s, b);
    AndBit(u, m, b + s);
    AndBit(v, m, b);
    MaskBit(d, b);
    LowHalfNext(b + s, s);
    if b + s < 64 {
      MaskBit(d, b + s);
    } else {
      BitHigh(u, 64, b + s);
    }
  }

  // ---------- one level ----------

  /** The word at x after the level of block size 2^d. */
  function LevelWord(p: seq<int>, d: nat, x: nat): int
    requires |p| == 64 && Words64(p) && d < 6 && x < 64
  {
    OtherHalf(x, d);
    if LowHalf(x, Pow2(d)) then UpperWord(p[x], p[x + Pow2(d)], d) else LowerWord(p[x - Pow2(d)], p[x], d)
  }

  ghost function Level(p: seq<int>, d: nat): (r: seq<int>)
    requires |p| == 64 && Words64(p) && d < 6
    ensures |r| == 64
  {
    seq(64, x requires 0 <= x < 64 => LevelWord(p, d, x))
  }

  lemma LevelWords(p: seq<int>, d: nat)
    requires |p| == 64 && Words64(p) && d < 6
    ensures Words64(Level(p, d))
  {
    hide UpperWord, LowerWord, LowHalf;
    forall x | 0 <= x < 64
      ensures 0 <= Level(p, d)[x] < U64
    {
      OtherHalf(x, d);
      if LowHalf(x, Pow2(d)) {
        WordBounds(p[x], p[x + Pow2(d)], d);
      } else {
        WordBounds(p[x - Pow2(d)], p[x], d);
      }
    }
  }

  /** Exchanges the digit of weight s of x for that of b. */
  function Cross(x: nat, b: nat, s: nat): int
    requires s > 0
  {
    if LowHalf(x, s) == LowHalf(b, s) then x else if LowHalf(x, s) then x + s else x - s
  }

  /** A level moves bit (Cross(x,b), Cross(b,x)) to (x, b). */
  lemma {:induction false} LevelBit(p: seq<int>, d: nat, x: nat, b: nat)
    requires |p| == 64 && Words64(p) && d < 6 && x < 64 && b < 64
    ensures 0 <= Cross(x, b, Pow2(d)) < 64 && 0 <= Cross(b, x, Pow2(d)) < 64
    ensures LevelWord(p, d, x) >= 0
    ensures Bit(LevelWord(p, d, x), b) == Bit(p[Cross(x, b, Pow2(d))], Cross(b, x, Pow2(d)))
  {
    hide UpperWord, LowerWord, LowHalf, Bit;
    OtherHalf(x, d);
    OtherHalf(b, d);
    if LowHalf(x, Pow2(d)) {
      UpperBit(p[x], p[x + Pow2(d)], d, b);
    } else {
      LowerBit(p[x - Pow2(d)], p[x], d, b);
    }
  }

  /** One exchange of two words. */
  lemma LevelPair(p: seq<int>, d: nat, x: nat, v: nat, j: nat)
    requires |p| == 64 && Words64(p) && d < 6 && Aligned(v, d) && j < Pow2(d) && x == 2 * v + j && x + Pow2(d) < 64
    ensures Level(p, d)[x] == UpperWord(p[x], p[x + Pow2(d)], d)
    ensures Level(p, d)[x + Pow2(d)] == LowerWord(p[x], p[x + Pow2(d)], d)
  {
    hide UpperWord, LowerWord, Aligned, LowHalf;
    AlignedLow(v, d, j);
  }

  lemma AlignedLow(v: nat, d: nat, j: nat)
    requires Aligned(v, d) && j < Pow2(d)
    ensures LowHalf(2 * v + j, Pow2(d)) && !LowHalf(2 * v + j + Pow2(d), Pow2(d))
  {
    var k := AlignedIs(v, d);
    EvenMultiple(2 * v + j, Pow2(d), k, j);
  }

  lemma EvenMultiple(x: nat, P: nat, k: nat, j: nat)
    requires P > 0 && j < P && x == 2 * (P * k) + j
    ensures LowHalf(x, P) && !LowHalf(x + P, P)
  {
    assert 2 * (P * k) == (2 * k) * P && (2 * k + 1) * P == (2 * k) * P + P;
    DivUnique(x, P, 2 * k, j);
    DivUnique(x + P, P, 2 * k + 1, j);
  }

  lemma AlignedIs(v: nat, d: nat) returns (k: nat)
    requires Aligned(v, d)
    ensures v == Pow2(d) * k
  {
    if d == 0 {
      k := v;
    } else {
      k := AlignedIs(v / 2, d - 1);
      assert Pow2(d) * k == 2 * (Pow2(d - 1) * k);
    }
  }

  /** The inner loop over j, for the block that starts at i = 2*v. */
  method LevelBlock(out: array<int>, d: nat, s: nat, i: nat, v: nat, ghost b: nat, ghost p: seq<int>)
    requires out.Length == 64 == |p| && Words64(p) && d < 6 && s == Pow2(d)
    requires v == s * b && i == 2 * v && v + s <= 32
    requires PairsDone(out[..], p, Level(p, d), d, v)
    modifies out
    ensures PairsDone(out[..], p, Level(p, d), d, v + s)
  {
    hide Level, BitIndex, Partner, PairsDone, UpperWord, LowerWord, Aligned, Words64;
    AlignedMultiple(b, d);
    ghost var r := Level(p, d);
    var j := i;
    while j < i + s
      invariant i <= j <= i + s
      invariant PairsDone(out[..], p, r, d, j - v)
    {
      BlockIndex(v, j - i, d);
      LevelPair(p, d, j, v, j - i);
      PairsNext(out[..], p, r, d, j - v, j, j + s);
      PairWords(p, out[..], j, j + s);
      var x := UpperWord(out[j], out[j + s], d);
      var y := LowerWord(out[j], out[j + s], d);
      ghost var q := out[..];
      out[j + 0] := x;
      out[j + s] := y;
      assert out[..] == q[j := r[j]][j + s := r[j + s]];
      j := j + 1;
    }
  }

  lemma PairWords(p: seq<int>, q: seq<int>, x: nat, y: nat)
    requires Words64(p) && |p| == |q| && x < |p| && y < |p| && q[x] == p[x] && q[y] == p[y]
    ensures 0 <= q[x] < U64 && 0 <= q[y] < U64
  {
  }

  /** One round of the loop over d. */
  method LevelInPlace(out: array<int>, d: nat)
    requires out.Length == 64 && Words64(out[..]) && d < 6
    modifies out
    ensures out[..] == old(Level(out[..], d))
  {
    hide Level, BitIndex, Partner, PairsDone, Words64;
    var s := Pow2(d);
    ghost var nb := Pow2(5 - d);
    assert s * nb == 32 by { Pow2Add(d, 5 - d); Widths(); }
    assert Pow2(6) == 64 && Pow2(5) == 32 by { Widths(); Pow2Values(); }
    ghost var p := out[..];
    ghost var r := Level(p, d);
    var i := 0;
    ghost var b := 0;
    PairsNone(p, r, d);
    while i < 64
      invariant b <= nb && i == 2 * (s * b) && 0 <= s * b
      invariant PairsDone(out[..], p, r, d, s * b)
      decreases 64 - i
    {
      BlockBound(s, b, nb);
      LevelBlock(out, d, s, i, i / 2, b, p);
      i := i + s * 2;
      b := b + 1;
    }
    BlockEnd(s, b, nb);
    PairsAll(out[..], p, r, d, 6);
  }

  // ---------- all levels ----------

  /** Row of the source of bit (x, b) when the digits of weight s and more have been exchanged. */
  function Source(x: nat, b: nat, s: nat): int
    requires s > 0
  {
    b / s * s + x % s
  }

  /** x = 2*s*a + s*e + r with a digit e and r below s. */
  ghost predicate Digits(x: int, s: nat, a: int, e: int, r: int)
    requires s > 0
  {
    0 <= r < s && a >= 0 && (e == 0 || e == 1) && x == 2 * s * a + (if e == 1 then s else 0) + r
  }

  lemma DigitsOf(x: nat, s: nat) returns (a: int, e: int, r: int)
    requires s > 0
    ensures Digits(x, s, a, e, r)
  {
    DivBasics(x, s);
    var q := x / s;
    a, e, r := q / 2, q % 2, x % s;
    assert s * q == 2 * s * a + s * e by { assert q == 2 * a + e; }
    if e == 0 {
      assert s * e == 0;
    } else {
      assert s * e == s;
    }
  }

  lemma DigitsAre(x: int, s: nat, a: int, e: int, r: int)
    requires s > 0 && Digits(x, s, a, e, r)
    ensures x >= 0 && x / s == 2 * a + e && x % s == r && LowHalf(x, s) == (e == 0)
    ensures x / (2 * s) == a && x % (2 * s) == (if e == 1 then s else 0) + r
  {
    MulLe(2 * s, 0, a);
    assert (2 * a + e) * s == 2 * s * a + e * s;
    assert e * s == if e == 1 then s else 0;
    DivUnique(x, s, 2 * a + e, r);
    DivUnique(x, 2 * s, a, x - 2 * s * a);
  }

  /** One more digit exchanged. */
  lemma {:induction false} SourceStep(x: nat, b: nat, s: nat)
    requires s > 0
    ensures 0 <= Cross(x, b, s) && 0 <= Cross(b, x, s)
    ensures Source(Cross(x, b, s), Cross(b, x, s), 2 * s) == Source(x, b, s)
  {
    hide LowHalf;
    var a, e, r := DigitsOf(x, s);
    var c, f, t := DigitsOf(b, s);
    DigitsAre(x, s, a, e, r);
    DigitsAre(b, s, c, f, t);
    var X, B := Cross(x, b, s), Cross(b, x, s);
    assert Digits(X, s, a, f, r) && Digits(B, s, c, e, t);
    DigitsAre(X, s, a, f, r);
    DigitsAre(B, s, c, e, t);
    assert (2 * c + f) * s == c * (2 * s) + if f == 1 then s else 0;
  }

  /** The levels above d have been done. */
  ghost predicate LevelsDone(cur: seq<int>, p: seq<int>, s: nat)
    requires s > 0
  {
    && |cur| == |p| == 64 && Words64(cur) && Words64(p)
    && forall x, b :: 0 <= x < 64 && 0 <= b < 64 ==> DoneAt(cur, p, s, x, b)
  }

  ghost predicate DoneAt(cur: seq<int>, p: seq<int>, s: nat, x: nat, b: nat)
    requires s > 0 && |cur| == |p| == 64 && Words64(cur) && Words64(p) && x < 64 && b < 64
  {
    && 0 <= Source(x, b, s) < 64 && 0 <= Source(b, x, s)
    && Bit(cur[x], b) == Bit(p[Source(x, b, s)], Source(b, x, s))
  }

  lemma {:induction false} LevelsNext(cur: seq<int>, p: seq<int>, d: nat)
    requires d < 6 && LevelsDone(cur, p, 2 * Pow2(d))
    ensures LevelsDone(Level(cur, d), p, Pow2(d))
  {
    hide LevelWord, Cross, Source, Bit, Words64;
    LevelWords(cur, d);
    forall x, b | 0 <= x < 64 && 0 <= b < 64
      ensures DoneAt(Level(cur, d), p, Pow2(d), x, b)
    {
      LevelBit(cur, d, x, b);
      SourceStep(x, b, Pow2(d));
      SourceStep(b, x, Pow2(d));
      assert DoneAt(cur, p, 2 * Pow2(d), Cross(x, b, Pow2(d)), Cross(b, x, Pow2(d)));
    }
  }

  /** The transpose of a 64x64 bit matrix. */
  ghost predicate IsTranspose(t: seq<int>, p: seq<int>) {
    && |t| == |p| == 64 && Words64(t) && Words64(p)
    && forall i, j :: 0 <= i < 64 && 0 <= j < 64 ==> Bit(t[i], j) == Bit(p[j], i)
  }

  lemma TransposeBit(t: seq<int>, p: seq<int>, i: nat, j: nat)
    requires IsTranspose(t, p) && i < 64 && j < 64
    ensures |t| == 64 == |p| && t[i] >= 0 && p[j] >= 0 && Bit(t[i], j) == Bit(p[j], i)
  {
    hide Bit;
  }

  lemma LevelsStart(p: seq<int>)
    requires |p| == 64 && Words64(p)
    ensures LevelsDone(p, p, 64)
  {
    hide Bit;
  }

  lemma LevelsEnd(t: seq<int>, p: seq<int>)
    requires LevelsDone(t, p, 1)
    ensures IsTranspose(t, p)
  {
    hide Bit;
    forall i, j | 0 <= i < 64 && 0 <= j < 64
      ensures Bit(t[i], j) == Bit(p[j], i)
    {
      assert DoneAt(t, p, 1, i, j);
    }
  }

  /** transpose_64x64: bit j of out[i] is bit i of in[j], also when out is in. */
  method Transpose64(out: array<int>, inp: array<int>)
    requires out.Length == 64 == inp.Length && Words64(inp[..])
    modifies out
    ensures IsTranspose(out[..], old(inp[..]))
  {
    hide Words64, Level, LevelsDone;
    ghost var p := inp[..];
    for i := 0 to 64
      invariant forall k :: 0 <= k < i ==> out[k] == p[k]
      invariant inp == out || inp[..] == p
      invariant inp == out ==> forall k :: 0 <= k < 64 ==> inp[k] == p[k]
    {
      out[i] := inp[i];
    }
    assert out[..] == p;
    LevelsStart(p);
    Widths();
    var d := 5;
    while d >= 0
      invariant -1 <= d <= 5
      invariant LevelsDone(out[..], p, Pow2(d + 1))
    {
      LevelsNext(out[..], p, d);
      LevelsWords(out[..], p, Pow2(d + 1));
      LevelInPlace(out, d);
      d := d - 1;
    }
    LevelsEnd(out[..], p);
  }

  lemma LevelsWords(cur: seq<int>, p: seq<int>, s: nat)
    requires s > 0 && LevelsDone(cur, p, s)
    ensures Words64(cur)
  {
  }
}
