/** int32_sort.h and uint64_sort.h: the in-place merge-exchange sort and its two branch-free exchanges. */
module Sort {
  import opened Bits
  import opened MergeExchange

  // ---------- the exchange of int32_sort.h ----------

  const INT32_MIN: int := -0x8000_0000
  const INT32_END: int := 0x8000_0000

  /** The unsigned pattern of a 32-bit value, and back. */
  function ToU32(v: int): (r: nat)
    ensures r < 0x1_0000_0000
  {
    v % 0x1_0000_0000
  }

  function ToS32(u: int): (r: int)
    ensures INT32_MIN <= r < INT32_END
    ensures ToU32(r) == ToU32(u)
  {
    var m := u % 0x1_0000_0000;
    if m < 0x8000_0000 then m else m - 0x1_0000_0000
  }

  /** int32_MINMAX on two 32-bit values: the difference wraps, its sign is corrected by the overflow bit,
      and the arithmetic shift by 31 turns it into an all-ones or an all-zeros mask. */
  function Int32MinMax(a: int, b: int): (int, int) {
    var ua, ub := ToU32(a), ToU32(b);
    var ab := Xor(ub, ua);
    var c := ToU32(b - a);
    var c1 := Xor(c, And(ab, Xor(c, ub)));
    var c2 := if c1 >= 0x8000_0000 then 0xFFFF_FFFF else 0;
    var c3 := And(c2, ab);
    (ToS32(Xor(ua, c3)), ToS32(Xor(ub, c3)))
  }

  /** The top bit of a 32-bit pattern. */
  lemma TopBit(u: nat)
    requires u < 0x1_0000_0000
    ensures Bit(u, 31) <==> u >= 0x8000_0000
  {
    Pow2Values();
    BitIsShift(u, 31);
  }

  lemma SignMask(ab: nat, c: nat, ub: nat)
    requires ab < 0x1_0000_0000 && c < 0x1_0000_0000 && ub < 0x1_0000_0000
    ensures var c1 := Xor(c, And(ab, Xor(c, ub)));
            (c1 >= 0x8000_0000) ==
            ((c >= 0x8000_0000) != (ab >= 0x8000_0000 && (c >= 0x8000_0000) != (ub >= 0x8000_0000)))
  {
    Pow2Values();
    XorBit(c, ub, 31);
    AndBit(ab, Xor(c, ub), 31);
    XorBit(c, And(ab, Xor(c, ub)), 31);
    XorBound(c, ub, 32);
    AndBound(ab, Xor(c, ub));
    XorBound(c, And(ab, Xor(c, ub)), 32);
    TopBit(c);
    TopBit(ab);
    TopBit(ub);
    TopBit(Xor(c, And(ab, Xor(c, ub))));
  }

  lemma OverflowSign(a: int, b: int)
    requires INT32_MIN <= a < INT32_END && INT32_MIN <= b < INT32_END
    ensures var sc := ToU32(b - a) >= 0x8000_0000;
            (sc != ((a < 0) != (b < 0) && sc != (b < 0))) == (b < a)
  {
  }

  lemma SignOf(a: int)
    requires INT32_MIN <= a < INT32_END
    ensures (ToU32(a) >= 0x8000_0000) == (a < 0)
    ensures ToS32(ToU32(a)) == a
  {
  }

  lemma DiffSign(a: int, b: int)
    requires INT32_MIN <= a < INT32_END && INT32_MIN <= b < INT32_END
    ensures Xor(ToU32(b), ToU32(a)) < 0x1_0000_0000
    ensures (Xor(ToU32(b), ToU32(a)) >= 0x8000_0000) == ((a < 0) != (b < 0))
  {
    var ua, ub := ToU32(a), ToU32(b);
    Pow2Values();
    XorBound(ub, ua, 32);
    XorBit(ub, ua, 31);
    TopBit(ua);
    TopBit(ub);
    TopBit(Xor(ub, ua));
    SignOf(a);
    SignOf(b);
  }

  /** int32_MINMAX leaves the smaller value first, for all 32-bit values, including those whose difference overflows. */
  lemma {:induction false} Int32MinMaxExact(a: int, b: int)
    requires INT32_MIN <= a < INT32_END && INT32_MIN <= b < INT32_END
    ensures Int32MinMax(a, b) == if b < a then (b, a) else (a, b)
  {
    var ua, ub := ToU32(a), ToU32(b);
    var ab := Xor(ub, ua);
    var c := ToU32(b - a);
    DiffSign(a, b);
    SignMask(ab, c, ub);
    SignOf(b);
    OverflowSign(a, b);
    Pow2Values();
    AndOnes(ab, 32, 0xFFFF_FFFF);
    AndZero(ab);
    SignOf(a);
    XorCancel(ua, ub);
    XorCancel(ub, ua);
    XorZero(ua);
    XorZero(ub);
  }

  // ---------- the exchange of uint64_sort.h ----------

  const UINT64_END: int := 0x1_0000_0000_0000_0000

  function ToU64(v: int): (r: nat)
    ensures r < UINT64_END
  {
    v % UINT64_END
  }

  /** uint64_MINMAX on two 64-bit words: the sign bit of the wrapped difference decides. */
  function UInt64MinMax(a: nat, b: nat): (nat, nat) {
    var c := ToU64(b - a);
    var c1 := c / 0x8000_0000_0000_0000;
    var c2 := ToU64(-c1);
    var c3 := And(c2, Xor(a, b));
    (Xor(a, c3), Xor(b, c3))
  }

  /** On all 64-bit words uint64_MINMAX leaves the smaller word first exactly when the words are
      less than 2^63 apart, or equal to a distance of 2^63 in descending order. */
  lemma {:induction false} UInt64MinMaxExact(a: nat, b: nat)
    requires a < UINT64_END && b < UINT64_END
    ensures UInt64MinMax(a, b) == (if b < a then (b, a) else (a, b)) <==>
            b - a < 0x8000_0000_0000_0000 && a - b <= 0x8000_0000_0000_0000
  {
    Pow2Values();
    XorBound(a, b, 64);
    var m := UINT64_END - 1;
    AndOnes(Xor(a, b), 64, m);
    AndZero(Xor(a, b));
    XorCancel(a, b);
    XorCancel(b, a);
    XorComm(a, b);
    XorZero(a);
    XorZero(b);
    Borrow(a, b);
  }

  lemma Borrow(a: nat, b: nat)
    requires a < UINT64_END && b < UINT64_END
    ensures ToU64(-(ToU64(b - a) / 0x8000_0000_0000_0000)) ==
            if b - a >= 0x8000_0000_0000_0000 || 0 < a - b <= 0x8000_0000_0000_0000 then UINT64_END - 1 else 0
  {
  }

  // ---------- the network in place ----------

  ghost predicate Exact(minmax: (int, int) -> (int, int), lo: int, hi: int) {
    forall a, b :: lo <= a < hi && lo <= b < hi ==> minmax(a, b) == if b < a then (b, a) else (a, b)
  }

  ghost predicate InRange(s: seq<int>, lo: int, hi: int) {
    forall k :: 0 <= k < |s| ==> lo <= s[k] < hi
  }

  /** Everything in x outside off..off+n is as it was in before. */
  twostate predicate OnlyChanges(x: array<int>, off: nat, n: nat)
    requires off + n <= x.Length
    reads x
  {
    && x[..off] == old(x[..off])
    && x[off + n..] == old(x[off + n..])
  }

  /** i & p for a power of two p. */
  lemma AndPow2(i: nat, e: nat)
    ensures And(i, Pow2(e)) == 0 <==> i / Pow2(e) % 2 == 0
  {
    BitIsShift(i, e);
    if e > 0 {
      AndPow2(i / 2, e - 1);
      BitIsShift(i / 2, e - 1);
    } else {
      AndZero(i / 2);
      AndComm(i, 1);
    }
  }

  lemma CERange(s: seq<int>, i: nat, j: nat, lo: int, hi: int)
    requires i < j && InRange(s, lo, hi)
    ensures InRange(CE(s, i, j), lo, hi)
  {
  }

  /** Positions in the last p places have no partner at distance p. */
  lemma Pass1Tail(s: seq<int>, p: nat, m: nat, m': nat)
    requires p > 0 && |s| - p <= m <= m'
    ensures Pass1(s, p, m) == Pass1(s, p, m')
  {
    if m < m' {
      Pass1Tail(s, p, m, m' - 1);
    }
  }

  lemma ChainBeyond(s: seq<int>, p: nat, i: nat, u: nat)
    requires p > 0 && i + 2 * p >= |s|
    ensures Chain(s, p, i, u) == s
    decreases u
  {
    if u > 1 {
      MulLt(p, 1, u);
      MulLe(p, 2, u);
      ChainBeyond(s, p, i, u / 2);
    }
  }

  lemma Pass2Tail(s: seq<int>, p: nat, u: nat, m: nat, m': nat)
    requires p > 0 && |s| - 2 * p <= m <= m'
    ensures Pass2(s, p, u, m) == Pass2(s, p, u, m')
  {
    if m < m' {
      Pass2Tail(s, p, u, m, m' - 1);
      ChainBeyond(Pass2(s, p, u, m' - 1), p, m' - 1, u);
    }
  }

  /** Distances that reach beyond the end can be skipped. */
  lemma ChainSkip(s: seq<int>, p: nat, i: nat, a: nat, b: nat)
    requires p > 0 && a <= b && i + p * (2 * Pow2(a)) >= |s|
    ensures Chain(s, p, i, Pow2(b)) == Chain(s, p, i, Pow2(a))
  {
    hide Chain;
    if a < b {
      Pow2Mono(a + 1, b);
      MulLe(p, 2 * Pow2(a), Pow2(b));
      ChainFirst(s, p, i, Pow2(b));
      ChainSkip(s, p, i, a, b - 1);
    }
  }

  /** One exchange. */
  method ExchangeAt(x: array<int>, off: nat, n: nat, i: nat, j: nat,
                    minmax: (int, int) -> (int, int), ghost lo: int, ghost hi: int)
    requires off + n <= x.Length && i < j < n
    requires Exact(minmax, lo, hi) && InRange(x[off..off + n], lo, hi)
    modifies x
    ensures OnlyChanges(x, off, n)
    ensures x[off..off + n] == CE(old(x[off..off + n]), i, j)
    ensures InRange(x[off..off + n], lo, hi)
  {
    ghost var t := x[off..off + n];
    assert t[i] == x[off + i] && t[j] == x[off + j];
    var r := minmax(x[off + i], x[off + j]);
    x[off + i], x[off + j] := r.0, r.1;
    assert x[off..off + n] == CE(t, i, j);
    CERange(t, i, j, lo, hi);
  }

  /** The loop over i with distance p. */
  method FirstHalf(x: array<int>, off: nat, n: nat, p: nat, ghost e: nat,
                   minmax: (int, int) -> (int, int), ghost lo: int, ghost hi: int)
    requires off + n <= x.Length && p == Pow2(e)
    requires Exact(minmax, lo, hi) && InRange(x[off..off + n], lo, hi)
    modifies x
    ensures OnlyChanges(x, off, n)
    ensures x[off..off + n] == Pass1(old(x[off..off + n]), p, n)
    ensures InRange(x[off..off + n], lo, hi)
  {
    hide CE, And, Pow2;
    ghost var s := x[off..off + n];
    var i := 0;
    while i < n - p
      invariant 0 <= i && (i <= n - p || i == 0)
      invariant OnlyChanges(x, off, n)
      invariant x[off..off + n] == Pass1(s, p, i)
      invariant InRange(x[off..off + n], lo, hi)
    {
      AndPow2(i, e);
      if And(i, p) == 0 {
        ExchangeAt(x, off, n, i, i + p, minmax, lo, hi);
      }
      i := i + 1;
    }
    Pass1Tail(s, p, i, n);
  }

  /** One exchange of a with x[off+k], where a stands for the value of position j < k. */
  method ExchangeHeld(x: array<int>, off: nat, n: nat, j: nat, k: nat, a: int,
                      minmax: (int, int) -> (int, int), ghost lo: int, ghost hi: int)
    returns (a': int)
    requires off + n <= x.Length && j < k < n
    requires Exact(minmax, lo, hi) && InRange(x[off..off + n][j := a], lo, hi)
    modifies x
    ensures OnlyChanges(x, off, n)
    ensures x[off..off + n][j := a'] == CE(old(x[off..off + n])[j := a], j, k)
    ensures InRange(x[off..off + n][j := a'], lo, hi)
  {
    ghost var t := x[off..off + n][j := a];
    assert t[j] == a && t[k] == x[off + k];
    var m := minmax(a, x[off + k]);
    a', x[off + k] := m.0, m.1;
    CERange(t, j, k, lo, hi);
    assert x[off..off + n][j := a'] == CE(t, j, k);
  }

  lemma ChainStep(t: seq<int>, p: nat, i: nat, e: nat, c: nat)
    requires p == Pow2(e) && c > 0
    ensures i + p < i + Pow2(e + c)
    ensures Chain(t, p, i, Pow2(c)) == Chain(CE(t, i + p, i + Pow2(e + c)), p, i, Pow2(c - 1))
  {
    hide CE;
    Pow2Add(e, c);
    MulLt(p, 1, Pow2(c));
  }

  lemma ChainEnd(t: seq<int>, p: nat, i: nat)
    requires p > 0
    ensures Chain(t, p, i, Pow2(0)) == t
  {
  }

  /** The loop over r: a holds the value of position i+p while it is exchanged with i+q, i+q/2, ..., i+2p. */
  method ChainInPlace(x: array<int>, off: nat, n: nat, p: nat, i: nat, q: nat, ghost e: nat, ghost d: nat,
                      minmax: (int, int) -> (int, int), ghost lo: int, ghost hi: int)
    requires off + n <= x.Length && p == Pow2(e) && q == Pow2(e + d) && d > 0 && i + q < n
    requires Exact(minmax, lo, hi) && InRange(x[off..off + n], lo, hi)
    modifies x
    ensures OnlyChanges(x, off, n)
    ensures x[off..off + n] == Chain(old(x[off..off + n]), p, i, Pow2(d))
    ensures InRange(x[off..off + n], lo, hi)
  {
    hide Chain, CE, InRange, Exact;
    ghost var s := x[off..off + n];
    Pow2Mono(e + 1, e + d);
    var a := x[off + i + p];
    ghost var t := s[i + p := a];
    assert t == s;
    var r := q;
    ghost var c := d;
    while r > p
      invariant 0 <= c <= d && r == Pow2(e + c) && i + r < n
      invariant OnlyChanges(x, off, n)
      invariant t == x[off..off + n][i + p := a]
      invariant InRange(t, lo, hi)
      invariant Chain(t, p, i, Pow2(c)) == Chain(s, p, i, Pow2(d))
      decreases c
    {
      assert c > 0;
      ChainStep(t, p, i, e, c);
      a := ExchangeHeld(x, off, n, i + p, i + r, a, minmax, lo, hi);
      t := CE(t, i + p, i + r);
      r := r / 2;
      c := c - 1;
    }
    assert c == 0 by {
      if c > 0 {
        Pow2Mono(e + 1, e + c);
      }
    }
    ChainEnd(t, p, i);
    PutHeld(x, off, n, i + p, a);
  }

  method PutHeld(x: array<int>, off: nat, n: nat, j: nat, a: int)
    requires off + n <= x.Length && j < n
    modifies x
    ensures OnlyChanges(x, off, n)
    ensures x[off..off + n] == old(x[off..off + n])[j := a]
  {
    x[off + j] := a;
  }

  lemma Pass2Step(s: seq<int>, t: seq<int>, p: nat, i: nat, q: nat, e: nat, d: nat, top: nat)
    requires p == Pow2(e) && q == Pow2(e + d) && 0 < d <= top && |t| == |s|
    requires d == top || i + 2 * q >= |s|
    requires t == Pass2(s, p, Pow2(top), i)
    ensures Pass2(s, p, Pow2(top), i + 1) == if And(i, p) == 0 then Chain(t, p, i, Pow2(d)) else t
  {
    hide Chain, CE, Pow2, And;
    AndPow2(i, e);
    if d < top {
      Pow2Add(e, d);
      DoubleSecond(p, Pow2(d));
      ChainSkip(t, p, i, d, top);
    }
  }

  lemma DoubleSecond(x: nat, y: nat)
    ensures x * (2 * y) == 2 * (x * y)
  {
  }

  /** One round of the loop over i for a fixed q; i continues from where the previous q left it. */
  method SecondHalfRound(x: array<int>, off: nat, n: nat, p: nat, i0: nat, q: nat, ghost e: nat, ghost d: nat,
      ghost top: nat,
                         minmax: (int, int) -> (int, int), ghost lo: int, ghost hi: int, ghost s: seq<int>)
    returns (i: nat)
    requires off + n <= x.Length && p == Pow2(e) && q == Pow2(e + d) && 0 < d <= top
    requires d == top || i0 + 2 * q >= n
    requires i0 <= n && |s| == n
    requires Exact(minmax, lo, hi) && InRange(x[off..off + n], lo, hi)
    requires x[off..off + n] == Pass2(s, p, Pow2(top), i0)
    modifies x
    ensures OnlyChanges(x, off, n)
    ensures n - q <= i <= n && i0 <= i
    ensures x[off..off + n] == Pass2(s, p, Pow2(top), i)
    ensures InRange(x[off..off + n], lo, hi)
  {
    hide Chain, CE, Pass2, And, Pow2;
    i := i0;
    while i < n - q
      invariant i0 <= i <= n
      invariant OnlyChanges(x, off, n)
      invariant x[off..off + n] == Pass2(s, p, Pow2(top), i)
      invariant InRange(x[off..off + n], lo, hi)
    {
      Pass2Step(s, x[off..off + n], p, i, q, e, d, top);
      if And(i, p) == 0 {
        ChainInPlace(x, off, n, p, i, q, e, d, minmax, lo, hi);
      }
      i := i + 1;
    }
  }

  method SecondHalf(x: array<int>, off: nat, n: nat, p: nat, top: nat, ghost e: nat, ghost d: nat,
                    minmax: (int, int) -> (int, int), ghost lo: int, ghost hi: int)
    requires off + n <= x.Length && p == Pow2(e) && top == Pow2(e + d) && n <= 2 * top
    requires Exact(minmax, lo, hi) && InRange(x[off..off + n], lo, hi)
    modifies x
    ensures OnlyChanges(x, off, n)
    ensures x[off..off + n] == Pass2(old(x[off..off + n]), p, Pow2(d), n)
    ensures InRange(x[off..off + n], lo, hi)
  {
    ghost var s := x[off..off + n];
    var i := 0;
    var q := top;
    ghost var c := d;
    while q > p
      invariant 0 <= c <= d && q == Pow2(e + c)
      invariant 0 <= i <= n && i + 2 * q >= n
      invariant OnlyChanges(x, off, n)
      invariant x[off..off + n] == Pass2(s, p, Pow2(d), i)
      invariant InRange(x[off..off + n], lo, hi)
      decreases c
    {
      assert c > 0;
      i := SecondHalfRound(x, off, n, p, i, q, e, c, d, minmax, lo, hi, s);
      q := q / 2;
      c := c - 1;
    }
    assert c == 0 by {
      if c > 0 {
        Pow2Mono(e + 1, e + c);
      }
    }
    Pass2Tail(s, p, Pow2(d), i, n);
  }

  /** The body of the loop over p. */
  method SortPass(x: array<int>, off: nat, n: nat, p: nat, top: nat, ghost e: nat, ghost d: nat,
                  minmax: (int, int) -> (int, int), ghost lo: int, ghost hi: int)
    requires off + n <= x.Length && p == Pow2(e) && top == Pow2(e + d) && n <= 2 * top
    requires Exact(minmax, lo, hi) && InRange(x[off..off + n], lo, hi)
    requires SortedAt(x[off..off + n], 2 * p)
    modifies x
    ensures OnlyChanges(x, off, n)
    ensures SortedAt(x[off..off + n], p)
    ensures multiset(x[off..off + n]) == multiset(old(x[off..off + n]))
    ensures InRange(x[off..off + n], lo, hi)
  {
    hide Pass1, Pass2, SortedAt, InRange, Exact, Pow2;
    ghost var t := x[off..off + n];
    FirstHalf(x, off, n, p, e, minmax, lo, hi);
    SecondHalf(x, off, n, p, top, e, d, minmax, lo, hi);
    Pow2Add(e, d);
    assert p * (2 * Pow2(d)) == 2 * top;
    MergeSorts(t, p, d);
    MergePassMultiset(t, p, Pow2(d));
  }

  lemma SortedAtOneSorted(s: seq<int>)
    requires SortedAt(s, 1)
    ensures Sorted(s)
  {
    forall i, j | 0 <= i < j < |s|
      ensures s[i] <= s[j]
    {
      SortedAtOne(s, i, j);
    }
  }

  /** The loop nest of int32_sort and uint64_sort, for any exchange that is exact on the values present. */
  method MergeExchangeSort(x: array<int>, off: nat, n: nat,
                           minmax: (int, int) -> (int, int), ghost lo: int, ghost hi: int)
    requires off + n <= x.Length
    requires Exact(minmax, lo, hi) && InRange(x[off..off + n], lo, hi)
    modifies x
    ensures OnlyChanges(x, off, n)
    ensures Sorted(x[off..off + n])
    ensures multiset(x[off..off + n]) == multiset(old(x[off..off + n]))
  {
    if n < 2 {
      return;
    }
    ghost var s := x[off..off + n];
    var top := 1;
    ghost var e := 0;
    while top < n - top
      invariant top == Pow2(e) && top < n
      decreases n - top
    {
      top := top + top;
      e := e + 1;
    }
    var p := top;
    ghost var c := e + 1;
    while p > 0
      invariant 0 <= c <= e + 1 && p == (if c == 0 then 0 else Pow2(c - 1))
      invariant SortedAt(x[off..off + n], if c == 0 then 1 else 2 * p)
      invariant OnlyChanges(x, off, n)
      invariant multiset(x[off..off + n]) == multiset(s)
      invariant InRange(x[off..off + n], lo, hi)
      decreases c
    {
      SortPass(x, off, n, p, top, c - 1, e + 1 - c, minmax, lo, hi);
      p := p / 2;
      c := c - 1;
    }
    SortedAtOneSorted(x[off..off + n]);
  }

  /** int32_sort: non-decreasing order and the same multiset, for every length. */
  method Int32Sort(x: array<int>, off: nat, n: nat)
    requires off + n <= x.Length
    requires InRange(x[off..off + n], INT32_MIN, INT32_END)
    modifies x
    ensures OnlyChanges(x, off, n)
    ensures Sorted(x[off..off + n])
    ensures multiset(x[off..off + n]) == multiset(old(x[off..off + n]))
  {
    forall a, b | INT32_MIN <= a < INT32_END && INT32_MIN <= b < INT32_END
      ensures Int32MinMax(a, b) == if b < a then (b, a) else (a, b)
    {
      Int32MinMaxExact(a, b);
    }
    MergeExchangeSort(x, off, n, Int32MinMax, INT32_MIN, INT32_END);
  }

  /** uint64_sort: correct for words below 2^63. */
  method UInt64Sort(x: array<int>, n: nat)
    requires n <= x.Length
    requires InRange(x[..n], 0, 0x8000_0000_0000_0000)
    modifies x
    ensures OnlyChanges(x, 0, n)
    ensures Sorted(x[..n])
    ensures multiset(x[..n]) == multiset(old(x[..n]))
  {
    var minmax := (a: int, b: int) => if a < 0 || b < 0 then (a, b) else UInt64MinMax(a, b);
    forall a, b | 0 <= a < 0x8000_0000_0000_0000 && 0 <= b < 0x8000_0000_0000_0000
      ensures minmax(a, b) == if b < a then (b, a) else (a, b)
    {
      UInt64MinMaxExact(a, b);
    }
    assert x[0..0 + n] == x[..n];
    MergeExchangeSort(x, 0, n, minmax, 0, 0x8000_0000_0000_0000);
    assert x[0..0 + n] == x[..n];
  }
}
