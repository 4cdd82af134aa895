/** bm.c computes a shortest linear recurrence: no polynomial of smaller degree annihilates the sequence, and
    at degree at most half the length of the sequence no other polynomial of the same degree does. */
module ShortestRecurrence {
  import opened GaloisField
  import opened FieldCode
  import opened BerlekampMassey

  /** D, of constant term 1, is a linear recurrence of length |D|-1 for the first n terms of s. */
  ghost predicate Annihilates(D: Poly, s: Poly, n: nat) {
    && |D| > 0 && D[0] == 1 && n <= |s|
    && (forall j :: |D| - 1 <= j < n ==> Discrepancy(D, s, j) == 0)
  }

  // ---------- a failing recurrence forces a long one ----------

  /** The sum of C[i] D[k] s[N-i-k] over i < m and k < n. */
  function Nest(C: Poly, m: nat, D: Poly, n: nat, s: Poly, N: nat): Gf
    requires m <= |C| && n <= |D| && m <= N + 1 && n <= N + 1 && m + n <= N + 2 && N < |s|
  {
    if m == 0 then 0 else Add(Nest(C, m - 1, D, n, s, N), Mul(C[m - 1], Conv(D, s, N - (m - 1), n)))
  }

  lemma {:induction false} NestLast(C: Poly, m: nat, D: Poly, n: nat, s: Poly, N: nat)
    requires m <= |C| && 0 < n <= |D| && m <= N + 1 && n <= N + 1 && m + n <= N + 2 && N < |s|
    ensures Nest(C, m, D, n, s, N) == Add(Nest(C, m, D, n - 1, s, N), Mul(D[n - 1], Conv(C, s, N - (n - 1), m)))
  {
    hide Add, Mul;
    if m == 0 {
      MulZero(D[n - 1]);
      AddLaws(0, 0, 0);
    } else {
      NestLast(C, m - 1, D, n, s, N);
      var c, d, x := C[m - 1], D[n - 1], s[N - (m - 1) - (n - 1)];
      var p, q := Conv(D, s, N - (m - 1), n - 1), Conv(C, s, N - (n - 1), m - 1);
      MulAddRight(c, p, Mul(d, x));
      MulAddRight(d, q, Mul(c, x));
      MulAssoc(c, d, x);
      MulAssoc(d, c, x);
      MulComm(c, d);
      AddSwap(Nest(C, m - 1, D, n - 1, s, N), Mul(d, q), Mul(c, p), Mul(c, Mul(d, x)));
    }
  }

  /** The order of summation does not matter. */
  lemma {:induction false} NestSwap(C: Poly, m: nat, D: Poly, n: nat, s: Poly, N: nat)
    requires m <= |C| && n <= |D| && m <= N + 1 && n <= N + 1 && m + n <= N + 2 && N < |s|
    ensures Nest(C, m, D, n, s, N) == Nest(D, n, C, m, s, N)
    decreases n
  {
    hide Add, Mul;
    if n == 0 {
      NestEmpty(C, m, D, s, N);
    } else {
      NestLast(C, m, D, n, s, N);
      NestSwap(C, m, D, n - 1, s, N);
    }
  }

  lemma {:induction false} NestEmpty(C: Poly, m: nat, D: Poly, s: Poly, N: nat)
    requires m <= |C| && m <= N + 1 && N < |s|
    ensures Nest(C, m, D, 0, s, N) == 0
  {
    hide Add, Mul;
    if m > 0 {
      NestEmpty(C, m - 1, D, s, N);
      MulZero(C[m - 1]);
      AddLaws(0, 0, 0);
    }
  }

  /** When D annihilates the terms N-m+1 to N-1, only the term i = 0 of the sum remains. */
  lemma {:induction false} NestFirst(C: Poly, m: nat, D: Poly, n: nat, s: Poly, N: nat)
    requires 0 < m <= |C| && C[0] == 1 && 0 < n == |D| && m + n <= N + 2 && N < |s|
    requires forall j :: N - m < j < N ==> Discrepancy(D, s, j) == 0
    ensures Nest(C, m, D, n, s, N) == Discrepancy(D, s, N)
  {
    hide Add, Mul, Conv;
    if m == 1 {
      assert Nest(C, 0, D, n, s, N) == 0;
      MulOne(Discrepancy(D, s, N));
      AddLaws(Discrepancy(D, s, N), 0, 0);
    } else {
      NestFirst(C, m - 1, D, n, s, N);
      assert Conv(D, s, N - (m - 1), n) == Discrepancy(D, s, N - (m - 1)) == 0;
      MulZero(C[m - 1]);
      AddLaws(Discrepancy(D, s, N), 0, 0);
    }
  }

  /** If a recurrence of length L first fails at N, every recurrence that holds at N too has length at least
      N+1-L. */
  lemma Massey(C: Poly, D: Poly, s: Poly, N: nat)
    requires N < |s| && Annihilates(C, s, N) && Discrepancy(C, s, N) != 0
    requires Annihilates(D, s, N + 1)
    ensures |D| - 1 >= N + 1 - (|C| - 1)
  {
    hide Add, Mul, Conv, Nest, Discrepancy;
    if |C| + |D| <= N + 2 {
      NestFirst(D, |D|, C, |C|, s, N);
      NestFirst(C, |C|, D, |D|, s, N);
      NestSwap(C, |C|, D, |D|, s, N);
      assert false;
    }
  }

  // ---------- the length that bm computes ----------

  /** The connection polynomial cut off (or filled up) to degree k. */
  lemma ConnectsAnnihilates(C: Poly, s: Poly, L: int, n: nat, k: nat)
    requires Connects(C, s, L, n) && L <= k < |C|
    ensures Annihilates(C[..k + 1], s, n)
    ensures forall j :: 0 <= j < |s| ==> Discrepancy(C[..k + 1], s, j) == Discrepancy(C, s, j)
  {
    hide Discrepancy;
    var D := C[..k + 1];
    forall j | 0 <= j < |s|
      ensures Discrepancy(D, s, j) == Discrepancy(C, s, j)
    {
      DiscrepancyPrefix(D, C, s, j);
    }
    forall j | |D| - 1 <= j < n
      ensures Discrepancy(D, s, j) == 0
    {
      assert Discrepancy(C, s, j) == 0;
    }
  }

  /** No recurrence that fits into the arrays is shorter than L. */
  lemma {:induction false} NoneShorter(s: Poly, t: nat, n: nat, D: Poly)
    requires t > 0 && n <= |s| && Annihilates(D, s, n) && |D| - 1 <= t
    ensures Run(s, t, n).L <= |D| - 1
  {
    hide Discrepancy, AddScaled, ShiftUp, Corrects, Mul, Inv;
    if n > 0 {
      NoneShorter(s, t, n - 1, D);
      RunGood(s, t, n - 1);
      var st := Run(s, t, n - 1);
      if Run(s, t, n).L != st.L {
        ConnectsAnnihilates(st.C, s, st.L, n - 1, st.L);
        Massey(st.C[..st.L + 1], D, s, n - 1);
      }
    }
  }

  /** The final length is at most k exactly when some recurrence of length k exists; lengths above t are not
      told apart. */
  lemma LengthIsMinimal(s: Poly, t: nat, n: nat, k: nat)
    requires t > 0 && n <= |s| && k <= t
    ensures Run(s, t, n).L <= k <==> exists D: Poly :: |D| == k + 1 && Annihilates(D, s, n)
  {
    hide Run, Annihilates, Connects, Corrects;
    RunGood(s, t, n);
    var st := Run(s, t, n);
    if st.L <= k {
      ConnectsAnnihilates(st.C, s, st.L, n, k);
      assert |st.C[..k + 1]| == k + 1;
    } else {
      forall D: Poly | |D| == k + 1
        ensures !Annihilates(D, s, n)
      {
        if Annihilates(D, s, n) {
          NoneShorter(s, t, n, D);
        }
      }
    }
  }

  // ---------- the shortest recurrence is unique when the sequence is twice as long ----------

  /** f times the coefficients of E from k on. */
  function ScaledTail(E: Poly, k: nat, f: Gf): (r: Poly)
    requires k <= |E|
    ensures |r| == |E| - k
  {
    seq<Gf>(|E| - k, i requires 0 <= i < |E| - k => Mul(f, E[k + i]))
  }

  lemma {:induction false} ConvTail(E: Poly, k: nat, f: Gf, s: Poly, j: nat, m: nat)
    requires k + m <= |E| && m <= j + 1 && j + k < |s| && forall i :: 0 <= i < k ==> E[i] == 0
    ensures Conv(ScaledTail(E, k, f), s, j, m) == Mul(f, Conv(E, s, j + k, k + m))
  {
    hide Add, Mul;
    if m == 0 {
      ConvZeros(E, s, j + k, k);
      MulZero(f);
    } else {
      ConvTail(E, k, f, s, j, m - 1);
      var e, x := E[k + m - 1], s[j - (m - 1)];
      MulAssoc(f, e, x);
      MulAddRight(f, Conv(E, s, j + k, k + m - 1), Mul(e, x));
    }
  }

  lemma {:induction false} ConvZeros(E: Poly, s: Poly, j: nat, n: nat)
    requires n <= |E| && n <= j + 1 && j < |s| && forall i :: 0 <= i < n ==> E[i] == 0
    ensures Conv(E, s, j, n) == 0
  {
    hide Add, Mul;
    if n > 0 {
      ConvZeros(E, s, j, n - 1);
      MulZero(s[j - (n - 1)]);
      AddLaws(0, 0, 0);
    }
  }

  /** Where two recurrences of the same length differ first, at k, their difference is x^k times a recurrence
      that is shorter by k and holds for k terms less. */
  lemma {:induction false} Difference(C: Poly, D: Poly, s: Poly, n: nat, k: nat) returns (F: Poly)
    requires Annihilates(C, s, n) && Annihilates(D, s, n) && |C| == |D| && k < |C| && |C| - 1 <= n
    requires C[k] != D[k] && forall i :: 0 <= i < k ==> C[i] == D[i]
    ensures |F| == |C| - k && Annihilates(F, s, n - k)
  {
    hide Add, Mul, Conv, Inv;
    var E := AddScaled(C, 1, D);
    forall i | 0 <= i < |C|
      ensures E[i] == Add(C[i], D[i])
    {
      MulOne(D[i]);
    }
    forall i | 0 <= i < k
      ensures E[i] == 0
    {
      AddLaws(C[i], C[i], 0);
    }
    AddLaws(C[k], D[k], 0);
    AddLaws(C[k], 0, 0);
    assert E[k] != 0;
    var f := Inv(E[k]);
    InvExact(E[k]);
    MulComm(E[k], f);
    F := ScaledTail(E, k, f);
    forall j | |F| - 1 <= j < n - k
      ensures Discrepancy(F, s, j) == 0
    {
      DiscrepancyScaled(C, 1, D, s, j + k);
      MulZero(1);
      AddLaws(0, 0, 0);
      ConvTail(E, k, f, s, j, |F|);
      MulZero(f);
    }
  }

  /** A recurrence that holds for m terms, but not for n, fails first at some N in between. */
  lemma {:induction false} FirstFailure(F: Poly, s: Poly, m: nat, n: nat) returns (N: nat)
    requires Annihilates(F, s, m) && m <= n <= |s| && !Annihilates(F, s, n)
    ensures m <= N < n && Annihilates(F, s, N) && Discrepancy(F, s, N) != 0
    decreases n - m
  {
    hide Discrepancy;
    N := m;
    if Discrepancy(F, s, m) == 0 || m < |F| - 1 {
      N := FirstFailure(F, s, m + 1, n);
    }
  }

  /** The polynomial bm returns is the only recurrence of its length, if the sequence has at least twice that
      length; bm works on 2t terms, so this covers every length that fits. */
  lemma {:induction false} ShortestIsUnique(s: Poly, t: nat, n: nat, D: Poly)
    requires t > 0 && n <= |s| && Run(s, t, n).L <= t && 2 * Run(s, t, n).L <= n
    requires |D| == Run(s, t, n).L + 1 && Annihilates(D, s, n)
    ensures D == Run(s, t, n).C[..|D|]
  {
    hide Run, Connects, Corrects, Discrepancy;
    var st := Run(s, t, n);
    RunGood(s, t, n);
    ConnectsAnnihilates(st.C, s, st.L, n, st.L);
    var C := st.C[..st.L + 1];
    if k: nat :| k < |C| && C[k] != D[k] {
      var i := FirstDifference(C, D, k);
      var F := Difference(C, D, s, n, i);
      if Annihilates(F, s, n) {
        NoneShorter(s, t, n, F);
      } else {
        var N := FirstFailure(F, s, n - i, n);
        Massey(F, C, s, N);
      }
      assert false;
    }
  }

  lemma {:induction false} FirstDifference(C: Poly, D: Poly, k: nat) returns (i: nat)
    requires |C| == |D| && k < |C| && C[k] != D[k]
    ensures i <= k && C[i] != D[i] && forall h :: 0 <= h < i ==> C[h] == D[h]
  {
    i := k;
    if h: nat :| h < k && C[h] != D[h] {
      i := FirstDifference(C, D, h);
    }
  }
}
