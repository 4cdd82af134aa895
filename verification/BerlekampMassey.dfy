/** bm.c: the Berlekamp-Massey algorithm with masked updates on arrays cut off at degree t. */
module BerlekampMassey {
  import opened Bits
  import opened GaloisField
  import opened FieldPowers
  import opened FieldCode

  type Poly = seq<Gf>

  /** C and B, cut off at degree t, the length L and the last used discrepancy b, before step N. */
  datatype State = State(C: Poly, B: Poly, L: int, b: Gf, N: nat)

  /** The sum of C[i] s[j-i] over i < n. */
  function Conv(C: Poly, s: Poly, j: nat, n: nat): Gf
    requires n <= |C| && n <= j + 1 && j < |s|
  {
    if n == 0 then 0 else Add(Conv(C, s, j, n - 1), Mul(C[n - 1], s[j - (n - 1)]))
  }

  /** The discrepancy at j: the sum over all i <= min(j, t). */
  function Discrepancy(C: Poly, s: Poly, j: nat): Gf
    requires |C| > 0 && j < |s|
  {
    Conv(C, s, j, Min(j, |C| - 1) + 1)
  }

  /** C + f B */
  function AddScaled(C: Poly, f: Gf, B: Poly): (r: Poly)
    requires |C| == |B|
    ensures |r| == |C|
  {
    seq(|C|, i requires 0 <= i < |C| => Add(C[i], Mul(f, B[i])))
  }

  /** x B, without the coefficient that leaves the array. */
  function ShiftUp(B: Poly): (r: Poly)
    requires |B| > 0
    ensures |r| == |B|
  {
    [0] + B[..|B| - 1]
  }

  function Start(t: nat): (r: State)
    requires t > 0
    ensures |r.C| == |r.B| == t + 1
  {
    State(seq(t + 1, i => if i == 0 then 1 else 0), seq(t + 1, i => if i == 1 then 1 else 0), 0, 1, 0)
  }

  function Step(st: State, s: Poly, t: nat): (r: State)
    requires |st.C| == |st.B| == t + 1 && st.N < |s|
    ensures |r.C| == |r.B| == t + 1 && r.N == st.N + 1
  {
    var d := Discrepancy(st.C, s, st.N);
    var C := if d == 0 then st.C else AddScaled(st.C, Mul(Inv(st.b), d), st.B);
    if d != 0 && st.N >= 2 * st.L then State(C, ShiftUp(st.C), st.N + 1 - st.L, d, st.N + 1)
    else State(C, ShiftUp(st.B), st.L, st.b, st.N + 1)
  }

  function Run(s: Poly, t: nat, n: nat): (r: State)
    requires t > 0 && n <= |s|
    ensures |r.C| == |r.B| == t + 1 && r.N == n
  {
    if n == 0 then Start(t) else Step(Run(s, t, n - 1), s, t)
  }

  // ---------- what each step keeps ----------

  /** C has degree at most L and annihilates s from L on. */
  ghost predicate Connects(C: Poly, s: Poly, L: int, N: nat) {
    && |C| > 0 && C[0] == 1 && 0 <= L && N <= |s|
    && (forall i :: L < i < |C| ==> C[i] == 0)
    && (forall j :: L <= j < N ==> Discrepancy(C, s, j) == 0)
  }

  /** The degree of B is at most N+1-L; after the first change of length B annihilates s from there to N-1
      and gives b at N. */
  ghost predicate Corrects(st: State, s: Poly) {
    && |st.B| > 0 && st.B[0] == 0 && 0 <= st.L <= st.N <= |s|
    && (forall i :: st.N + 1 - st.L < i < |st.B| ==> st.B[i] == 0)
    && (st.L > 0 ==> forall j :: st.N + 1 - st.L <= j < st.N ==> Discrepancy(st.B, s, j) == 0)
    && (st.L > 0 && st.N < |s| ==> Discrepancy(st.B, s, st.N) == st.b)
  }

  /** The invariant of the loop over N. The two clauses are needed only for lengths within the arrays: when
      more than t coefficients would be needed, nothing is claimed, now or later. */
  ghost predicate Good(st: State, s: Poly, t: nat) {
    && |st.C| == |st.B| == t + 1 && 0 <= st.L <= st.N <= |s| && st.b != 0
    && (st.L <= t ==> Connects(st.C, s, st.L, st.N))
    && (st.N + 1 - st.L <= t ==> Corrects(st, s))
  }

  lemma {:induction false} ConvScaled(C: Poly, f: Gf, B: Poly, s: Poly, j: nat, n: nat)
    requires |C| == |B| && n <= |C| && n <= j + 1 && j < |s|
    ensures Conv(AddScaled(C, f, B), s, j, n) == Add(Conv(C, s, j, n), Mul(f, Conv(B, s, j, n)))
  {
    hide Add, Mul;
    if n == 0 {
      MulZero(f);
      AddLaws(0, 0, 0);
    } else {
      ConvScaled(C, f, B, s, j, n - 1);
      var x := s[j - (n - 1)];
      MulAddLeft(C[n - 1], Mul(f, B[n - 1]), x);
      MulAssoc(f, B[n - 1], x);
      MulAddRight(f, Conv(B, s, j, n - 1), Mul(B[n - 1], x));
      AddSwap(Conv(C, s, j, n - 1), Mul(f, Conv(B, s, j, n - 1)), Mul(C[n - 1], x), Mul(f, Mul(B[n - 1], x)));
    }
  }

  /** Shifting the polynomial up shifts the discrepancies by one. */
  lemma {:induction false} ConvShift(B: Poly, s: Poly, j: nat, n: nat)
    requires 0 < n <= |B| && n <= j + 1 && 0 < j < |s|
    ensures Conv(ShiftUp(B), s, j, n) == Conv(B, s, j - 1, n - 1)
  {
    hide Add, Mul;
    if n == 1 {
      MulZero(s[j]);
      AddLaws(0, 0, 0);
    } else {
      ConvShift(B, s, j, n - 1);
    }
  }

  lemma {:induction false} DiscrepancyShift(B: Poly, s: Poly, j: nat)
    requires |B| > 1 && 0 < j < |s| && B[|B| - 1] == 0
    ensures Discrepancy(ShiftUp(B), s, j) == Discrepancy(B, s, j - 1)
  {
    hide Add, Mul;
    var n := Min(j, |B| - 1) + 1;
    ConvShift(B, s, j, n);
    if j - 1 >= |B| - 1 {
      MulZero(s[j - 1 - (|B| - 1)]);
      AddLaws(Conv(B, s, j - 1, |B| - 1), 0, 0);
    }
  }

  // The discrepancy is determined by the next two lemmas: it is additive in C, and one coefficient contributes its
  // product with the term of the sequence that many places back.

  lemma {:induction false} ConvAdd(C: Poly, D: Poly, E: Poly, s: Poly, j: nat, n: nat)
    requires |C| == |D| == |E| && n <= |C| && n <= j + 1 && j < |s|
    requires forall i :: 0 <= i < |E| ==> E[i] == Add(C[i], D[i])
    ensures Conv(E, s, j, n) == Add(Conv(C, s, j, n), Conv(D, s, j, n))
  {
    hide Add, Mul;
    if n == 0 {
      AddLaws(0, 0, 0);
    } else {
      ConvAdd(C, D, E, s, j, n - 1);
      var x := s[j - (n - 1)];
      MulAddLeft(C[n - 1], D[n - 1], x);
      AddSwap(Conv(C, s, j, n - 1), Conv(D, s, j, n - 1), Mul(C[n - 1], x), Mul(D[n - 1], x));
    }
  }

  lemma {:induction false} DiscrepancyAdd(C: Poly, D: Poly, E: Poly, s: Poly, j: nat)
    requires |C| == |D| == |E| > 0 && j < |s| && forall i :: 0 <= i < |E| ==> E[i] == Add(C[i], D[i])
    ensures Discrepancy(E, s, j) == Add(Discrepancy(C, s, j), Discrepancy(D, s, j))
  {
    hide Add, Conv;
    ConvAdd(C, D, E, s, j, Min(j, |C| - 1) + 1);
  }

  lemma {:induction false} ConvUnit(C: Poly, k: nat, s: Poly, j: nat, n: nat)
    requires k < |C| && n <= |C| && n <= j + 1 && j < |s| && forall i :: 0 <= i < |C| && i != k ==> C[i] == 0
    ensures k < n ==> Conv(C, s, j, n) == Mul(C[k], s[j - k])
    ensures k >= n ==> Conv(C, s, j, n) == 0
  {
    hide Add, Mul;
    if n > 0 {
      ConvUnit(C, k, s, j, n - 1);
      MulZero(s[j - (n - 1)]);
      AddLaws(0, 0, 0);
      AddLaws(Conv(C, s, j, n - 1), 0, 0);
      AddLaws(Mul(C[n - 1], s[j - (n - 1)]), 0, 0);
    }
  }

  lemma {:induction false} DiscrepancyUnit(C: Poly, k: nat, s: Poly, j: nat)
    requires k < |C| && j < |s| && forall i :: 0 <= i < |C| && i != k ==> C[i] == 0
    ensures Discrepancy(C, s, j) == if k <= j then Mul(C[k], s[j - k]) else 0
  {
    hide Mul, Conv;
    ConvUnit(C, k, s, j, Min(j, |C| - 1) + 1);
  }

  lemma DiscrepancyScaled(C: Poly, f: Gf, B: Poly, s: Poly, j: nat)
    requires |C| == |B| > 0 && j < |s|
    ensures Discrepancy(AddScaled(C, f, B), s, j) == Add(Discrepancy(C, s, j), Mul(f, Discrepancy(B, s, j)))
  {
    hide Add, Mul, Conv;
    ConvScaled(C, f, B, s, j, Min(j, |C| - 1) + 1);
  }

  /** (d / b) * b + d = 0 */
  lemma Cancels(d: Gf, b: Gf)
    requires b != 0
    ensures Add(d, Mul(Mul(Inv(b), d), b)) == 0
  {
    hide Add, Mul, Inv;
    InvExact(b);
    MulComm(Inv(b), d);
    MulAssoc(d, Inv(b), b);
    MulComm(Inv(b), b);
    MulOne(d);
    AddLaws(d, d, 0);
  }

  /** The corrected C annihilates s up to N, for the new length. */
  lemma {:induction false} CorrectedConnects(st: State, s: Poly, t: nat, L': int)
    requires Good(st, s, t) && st.N < |s| && t > 0
    requires Discrepancy(st.C, s, st.N) != 0 && st.L <= t
    requires L' == (if st.N >= 2 * st.L then st.N + 1 - st.L else st.L) && L' <= t
    ensures Connects(AddScaled(st.C, Mul(Inv(st.b), Discrepancy(st.C, s, st.N)), st.B), s, L', st.N + 1)
  {
    hide Add, Mul, Inv, Discrepancy;
    var d := Discrepancy(st.C, s, st.N);
    var f := Mul(Inv(st.b), d);
    var C := AddScaled(st.C, f, st.B);
    MulZero(f);
    AddLaws(1, 0, 0);
    AddLaws(0, 0, 0);
    forall j | L' <= j < st.N + 1
      ensures Discrepancy(C, s, j) == 0
    {
      DiscrepancyScaled(st.C, f, st.B, s, j);
      if j == st.N {
        Cancels(d, st.b);
      }
    }
  }

  lemma {:induction false} ShiftedBCorrects(st: State, s: Poly, t: nat, C: Poly)
    requires Good(st, s, t) && st.N < |s| && t > 0 && st.N + 2 - st.L <= t
    ensures Corrects(State(C, ShiftUp(st.B), st.L, st.b, st.N + 1), s)
  {
    hide Add, Mul, Discrepancy;
    var B := ShiftUp(st.B);
    if st.L > 0 {
      forall j | st.N + 2 - st.L <= j < st.N + 1
        ensures Discrepancy(B, s, j) == 0
      {
        DiscrepancyShift(st.B, s, j);
      }
      if st.N + 1 < |s| {
        DiscrepancyShift(st.B, s, st.N + 1);
      }
    }
  }

  lemma {:induction false} ShiftedCCorrects(st: State, s: Poly, t: nat, C: Poly)
    requires Good(st, s, t) && st.N < |s| && t > 0 && st.L + 1 <= t && st.N >= 2 * st.L
    ensures Corrects(State(C, ShiftUp(st.C), st.N + 1 - st.L, Discrepancy(st.C, s, st.N), st.N + 1), s)
  {
    hide Add, Mul, Discrepancy;
    var B := ShiftUp(st.C);
    forall j | st.L + 1 <= j < st.N + 1
      ensures Discrepancy(B, s, j) == 0
    {
      DiscrepancyShift(st.C, s, j);
    }
    if st.N + 1 < |s| {
      DiscrepancyShift(st.C, s, st.N + 1);
    }
  }

  /** One step keeps the invariant. */
  lemma {:induction false} StepGood(st: State, s: Poly, t: nat)
    requires Good(st, s, t) && st.N < |s| && t > 0
    ensures Good(Step(st, s, t), s, t)
  {
    hide AddScaled, ShiftUp, Discrepancy, Mul, Inv, Corrects;
    var d := Discrepancy(st.C, s, st.N);
    var r := Step(st, s, t);
    if r.L <= t && d != 0 {
      CorrectedConnects(st, s, t, r.L);
    }
    if r.N + 1 - r.L <= t {
      if d != 0 && st.N >= 2 * st.L {
        ShiftedCCorrects(st, s, t, r.C);
      } else {
        ShiftedBCorrects(st, s, t, r.C);
      }
    }
  }

  lemma {:induction false} RunGood(s: Poly, t: nat, n: nat)
    requires t > 0 && n <= |s|
    ensures Good(Run(s, t, n), s, t)
  {
    hide Step;
    if n > 0 {
      RunGood(s, t, n - 1);
      StepGood(Run(s, t, n - 1), s, t);
    } else {
      StartGood(s, t);
    }
  }

  lemma StartGood(s: Poly, t: nat)
    requires t > 0
    ensures Good(Start(t), s, t)
  {
    hide Discrepancy;
  }

  /** For every sequence: when the final length fits, the connection polynomial annihilates the sequence from
      that length on; the coefficients dropped above degree t never mattered. */
  lemma {:induction false} FinalConnects(s: Poly, t: nat)
    requires t > 0 && Run(s, t, |s|).L <= t
    ensures Connects(Run(s, t, |s|).C, s, Run(s, t, |s|).L, |s|)
  {
    hide Run, Connects, Corrects;
    RunGood(s, t, |s|);
  }

  // ---------- cutting the arrays off at degree t is harmless ----------

  lemma {:induction false} ConvPrefix(C: Poly, D: Poly, s: Poly, j: nat, m: nat, n: nat)
    requires |C| <= |D| && m <= n <= |D| && m <= |C| && n <= j + 1 && j < |s|
    requires forall i :: 0 <= i < m ==> C[i] == D[i]
    requires forall i :: m <= i < n ==> D[i] == 0
    ensures Conv(C, s, j, m) == Conv(D, s, j, n)
    decreases n
  {
    hide Add, Mul;
    if n > m {
      ConvPrefix(C, D, s, j, m, n - 1);
      MulZero(s[j - (n - 1)]);
      AddLaws(Conv(C, s, j, m), 0, 0);
    } else if n > 0 {
      ConvPrefix(C, D, s, j, m - 1, n - 1);
    }
  }

  lemma DiscrepancyPrefix(C: Poly, D: Poly, s: Poly, j: nat)
    requires 0 < |C| <= |D| && j < |s| && C == D[..|C|] && forall i :: |C| <= i < |D| ==> D[i] == 0
    ensures Discrepancy(C, s, j) == Discrepancy(D, s, j)
  {
    hide Conv;
    ConvPrefix(C, D, s, j, Min(j, |C| - 1) + 1, Min(j, |D| - 1) + 1);
  }

  lemma StepPrefix(st: State, big: State, s: Poly, t: nat, u: nat)
    requires 0 < t <= u && |st.C| == |st.B| == t + 1 && |big.C| == |big.B| == u + 1 && st.N < |s|
    requires st.L == big.L && st.b == big.b && st.N == big.N && st.C == big.C[..t + 1] && st.B == big.B[..t + 1]
    requires Discrepancy(st.C, s, st.N) == Discrepancy(big.C, s, st.N)
    ensures var r, q := Step(st, s, t), Step(big, s, u);
            r.L == q.L && r.b == q.b && r.N == q.N && r.C == q.C[..t + 1] && r.B == q.B[..t + 1]
  {
    hide Discrepancy, Mul, Inv, Add;
  }

  /** With more room the algorithm computes the same, as long as the length fits into t. */
  lemma {:induction false} TruncationHarmless(s: Poly, t: nat, u: nat, n: nat)
    requires 0 < t <= u && n <= |s| && Run(s, u, n).L <= t
    ensures var r, q := Run(s, t, n), Run(s, u, n);
            r.L == q.L && r.b == q.b && r.C == q.C[..t + 1] && r.B == q.B[..t + 1]
  {
    hide Step, Connects, Corrects, Discrepancy;
    if n > 0 {
      RunGood(s, u, n - 1);
      LengthGrows(Run(s, u, n - 1), s, u);
      TruncationHarmless(s, t, u, n - 1);
      var st, big := Run(s, t, n - 1), Run(s, u, n - 1);
      ConnectsDegree(big.C, s, big.L, big.N, t);
      DiscrepancyPrefix(st.C, big.C, s, n - 1);
      StepPrefix(st, big, s, t, u);
    }
  }

  lemma LengthGrows(st: State, s: Poly, t: nat)
    requires |st.C| == |st.B| == t + 1 && 0 <= st.L <= st.N < |s|
    ensures st.L <= Step(st, s, t).L <= st.N + 1
  {
    hide Discrepancy, AddScaled, ShiftUp;
  }

  lemma ConnectsDegree(C: Poly, s: Poly, L: int, N: nat, t: nat)
    requires Connects(C, s, L, N) && L <= t
    ensures forall i :: t + 1 <= i < |C| ==> C[i] == 0
  {
  }

  // ---------- the masks of bm ----------

  const UINT16_END: nat := 0x1_0000

  function U16(v: int): (r: nat)
    ensures r < UINT16_END
  {
    v % UINT16_END
  }

  lemma Power15()
    ensures Pow2(15) == 0x8000
  {
    Pow2Add(15, 1);
    Pow2Values();
  }

  /** mne: all ones when d is not zero. */
  function NonzeroMask(d: nat): (m: nat)
  {
    U16(Shr(U16(d - 1), 15) - 1)
  }

  lemma NonzeroMaskIs(d: Gf)
    ensures NonzeroMask(d) == if d == 0 then 0 else 0xFFFF
  {
    Power15();
  }

  /** mle before the combination with mne: all ones when N >= 2L. */
  function LengthMask(N: nat, L: int): (m: nat)
  {
    U16(Shr(U16(N - 2 * L), 15) - 1)
  }

  lemma LengthMaskIs(N: nat, L: int)
    requires 0 <= L <= N < 0x4000
    ensures LengthMask(N, L) == if N >= 2 * L then 0xFFFF else 0
  {
    Power15();
  }

  /** (a & ~m) | (b & m) on 16-bit words */
  function Select(a: nat, b: nat, m: nat): nat
    requires m < UINT16_END
  {
    Or(And(a, 0xFFFF - m), And(b, m))
  }

  lemma SelectIs(a: nat, b: nat, m: nat)
    requires a < UINT16_END && b < UINT16_END && (m == 0 || m == 0xFFFF)
    ensures Select(a, b, m) == if m == 0 then a else b
  {
    Pow2Values();
    AndOnes(a, 16, 0xFFFF);
    AndOnes(b, 16, 0xFFFF);
    AndZero(a);
    AndZero(b);
    OrZero(a);
  }

  lemma MaskIs(v: nat, m: nat)
    requires v < UINT16_END && (m == 0 || m == 0xFFFF)
    ensures And(v, m) == if m == 0 then 0 else v
  {
    Pow2Values();
    AndOnes(v, 16, 0xFFFF);
    AndZero(v);
  }

  // ---------- bm ----------

  /** The loop that computes the discrepancy. */
  method ComputeDiscrepancy(C: array<Gf>, s: array<Gf>, N: nat, t: nat) returns (d: Gf)
    requires C.Length == t + 1 && N < s.Length
    ensures d == Discrepancy(C[..], s[..], N)
  {
    hide Mul, Add;
    d := 0;
    for i := 0 to Min(N, t) + 1
      invariant d == Conv(C[..], s[..], N, i)
    {
      var m := GfMul(C[i], s[N - i]);
      d := Add(d, m);
    }
  }

  /** C[i] ^= gf_mul(f, B[i]) & mne */
  method CorrectC(C: array<Gf>, B: array<Gf>, f: Gf, mne: nat)
    requires C != B && C.Length == B.Length && (mne == 0 || mne == 0xFFFF)
    modifies C
    ensures C[..] == if mne == 0 then old(C[..]) else AddScaled(old(C[..]), f, B[..])
  {
    hide Mul, Add, And;
    for i := 0 to C.Length
      invariant forall k :: 0 <= k < C.Length ==>
        C[k] == if k < i && mne != 0 then Add(old(C[k]), Mul(f, B[k])) else old(C[k])
    {
      var m := GfMul(f, B[i]);
      MaskIs(m, mne);
      AddLaws(C[i], 0, 0);
      C[i] := Add(C[i], And(m, mne));
    }
  }

  /** B[i] = (B[i] & ~mle) | (T[i] & mle), then the shift by one place. */
  method ReplaceB(B: array<Gf>, T: array<Gf>, mle: nat)
    requires B != T && B.Length == T.Length > 0 && (mle == 0 || mle == 0xFFFF)
    modifies B
    ensures B[..] == ShiftUp(if mle == 0 then old(B[..]) else T[..])
  {
    hide Select;
    ghost var p := if mle == 0 then B[..] else T[..];
    for i := 0 to B.Length
      invariant forall k :: 0 <= k < B.Length ==> B[k] == if k < i then p[k] else old(B[k])
    {
      SelectIs(B[i], T[i], mle);
      B[i] := Select(B[i], T[i], mle);
    }
    var i := B.Length - 1;
    while i >= 1
      invariant 0 <= i < B.Length
      invariant forall k :: 0 <= k <= i ==> B[k] == p[k]
      invariant forall k :: i < k < B.Length ==> B[k] == p[k - 1]
    {
      B[i] := B[i - 1];
      i := i - 1;
    }
    B[0] := 0;
  }

  /** One round of the loop over N. */
  method Round(C: array<Gf>, B: array<Gf>, T: array<Gf>, s: array<Gf>, L: nat, b: Gf, N: nat, t: nat, ghost st: State)
    returns (L': nat, b': Gf)
    requires C != B && B != T && C != T && s != C && s != B && s != T
    requires C.Length == B.Length == T.Length == t + 1 && N < s.Length && N < 0x4000 && L <= N && b != 0
    requires st == State(C[..], B[..], L, b, N)
    modifies C, B, T
    ensures Step(st, s[..], t) == State(C[..], B[..], L', b', N + 1)
    ensures L' <= N + 1 && b' != 0
  {
    hide Mul, Add, Discrepancy, AddScaled, ShiftUp, Select, NonzeroMask, LengthMask, And, Inv;
    var d := ComputeDiscrepancy(C, s, N, t);
    var mne := NonzeroMask(d);
    NonzeroMaskIs(d);
    var mle := LengthMask(N, L);
    LengthMaskIs(N, L);
    MaskIs(mle, mne);
    mle := And(mle, mne);
    for i := 0 to t + 1
      invariant C[..] == st.C && B[..] == st.B
      invariant forall k :: 0 <= k < i ==> T[k] == C[k]
    {
      T[i] := C[i];
    }
    assert T[..] == C[..];
    var f := Quotient(b, d);
    CorrectC(C, B, f, mne);
    SelectIs(L, U16(N + 1 - L), mle);
    L' := Select(L, U16(N + 1 - L), mle);
    ReplaceB(B, T, mle);
    SelectIs(b, d, mle);
    b' := Select(b, d, mle);
  }

  /** gf_frac(b, d) */
  method Quotient(b: Gf, d: Gf) returns (f: Gf)
    ensures f == Mul(Inv(b), d)
  {
    hide Mul, Inv;
    var inv := GfInv(b);
    f := GfMul(inv, d);
  }

  function Reversed(p: Poly): (r: Poly)
    ensures |r| == |p|
  {
    seq(|p|, i requires 0 <= i < |p| => p[|p| - 1 - i])
  }

  /** bm: out holds, in reverse order, a polynomial with constant term 1 and degree at most L that annihilates
      s from L on, whenever the final length L is at most t. */
  method Bm(out: array<Gf>, s: array<Gf>, t: nat) returns (ghost L: int)
    requires out != s && 0 < t <= 0x2000 && s.Length == 2 * t && out.Length == t + 1
    modifies out
    ensures L == Run(s[..], t, 2 * t).L
    ensures Reversed(out[..]) == Run(s[..], t, 2 * t).C
    ensures forall i :: 0 <= i <= t ==> out[i] == Run(s[..], t, 2 * t).C[t - i]
    ensures L <= t ==> Connects(Reversed(out[..]), s[..], L, 2 * t)
  {
    hide Step, Connects;
    var C, B, T := new Gf[t + 1](_ => 0), new Gf[t + 1](_ => 0), new Gf[t + 1](_ => 0);
    for i := 0 to t + 1
      invariant forall k :: 0 <= k < i ==> C[k] == 0 == B[k]
    {
      C[i], B[i] := 0, 0;
    }
    B[1], C[0] := 1, 1;
    var len: nat, b: Gf := 0, 1;
    assert C[..] == Start(t).C && B[..] == Start(t).B;
    ghost var input := s[..];
    for N := 0 to 2 * t
      invariant s[..] == input && len <= N && b != 0
      invariant Run(input, t, N) == State(C[..], B[..], len, b, N)
    {
      len, b := Round(C, B, T, s, len, b, N, t, Run(input, t, N));
    }
    for i := 0 to t + 1
      invariant s[..] == input && Run(input, t, 2 * t) == State(C[..], B[..], len, b, 2 * t)
      invariant forall k :: 0 <= k < i ==> out[k] == C[t - k]
    {
      out[i] := C[t - i];
    }
    L := len;
    assert Reversed(out[..]) == C[..];
    if L <= t {
      FinalConnects(input, t);
    }
  }
}
