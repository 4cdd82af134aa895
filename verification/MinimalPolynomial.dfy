/** genpoly_gen of sk_gen.c: the minimal polynomial of f in GF(2^12)[y] / (y^t + y^3 + y + z), found by column
    elimination on the matrix whose rows are 1, f, f^2, ..., f^t. */
module MinimalPolynomial {
  import Bits
  import opened GaloisField
  import opened FieldPowers
  import opened FieldCode
  import opened ExtensionField

  datatype Outcome = Solved(mat: seq<Vec>) | Dependent

  ghost predicate IsMat(M: seq<Vec>, t: nat) {
    |M| == t + 1 && forall c :: 0 <= c < |M| ==> |M[c]| == t
  }

  // ---------- column operations ----------

  function AddAt(r: Vec, j: nat, k: nat, c: Gf): (q: Vec)
    requires j < |r| && k < |r|
    ensures |q| == |r|
  {
    r[j := Add(r[j], Mul(r[k], c))]
  }

  /** Column j gets c times column k added. */
  function ColAdd(M: seq<Vec>, j: nat, k: nat, c: Gf, t: nat): (r: seq<Vec>)
    requires IsMat(M, t) && j < t && k < t
    ensures IsMat(r, t)
  {
    seq(|M|, i requires 0 <= i < |M| => AddAt(M[i], j, k, c))
  }

  function ColScale(M: seq<Vec>, j: nat, c: Gf, t: nat): (r: seq<Vec>)
    requires IsMat(M, t) && j < t
    ensures IsMat(r, t)
  {
    seq(|M|, i requires 0 <= i < |M| => M[i][j := Mul(M[i][j], c)])
  }

  /** The loop over k > j that looks for a nonzero pivot, up to column k-1. */
  function Pivoted(M: seq<Vec>, j: nat, k: nat, t: nat): (r: seq<Vec>)
    requires IsMat(M, t) && j < k <= t
    ensures IsMat(r, t)
  {
    if k == j + 1 then M
    else
      var P := Pivoted(M, j, k - 1, t);
      if P[j][j] == 0 then ColAdd(P, j, k - 1, 1, t) else P
  }

  /** The loop over k != j that clears row j, up to column k-1. */
  function Swept(N: seq<Vec>, j: nat, k: nat, t: nat): (r: seq<Vec>)
    requires IsMat(N, t) && j < t && k <= t
    ensures IsMat(r, t)
  {
    if k == 0 then N
    else
      var S := Swept(N, j, k - 1, t);
      if k - 1 == j then S else ColAdd(S, k - 1, j, S[j][k - 1], t)
  }

  function Step(P: seq<Vec>, j: nat, t: nat): (r: seq<Vec>)
    requires IsMat(P, t) && j < t
    ensures IsMat(r, t)
  {
    Swept(ColScale(P, j, Inv(P[j][j]), t), j, t, t)
  }

  /** The elimination with the first n pivots. */
  function Elim(M: seq<Vec>, n: nat, t: nat): (o: Outcome)
    requires IsMat(M, t) && n <= t
    ensures o.Solved? ==> IsMat(o.mat, t)
  {
    if n == 0 then Solved(M)
    else
      var o := Elim(M, n - 1, t);
      if o.Dependent? then Dependent
      else
        var P := Pivoted(o.mat, n - 1, t, t);
        if P[n - 1][n - 1] == 0 then Dependent else Solved(Step(P, n - 1, t))
  }

  // ---------- linear relations between the rows ----------

  /** The sum of l_c M[c][k] over the first n rows. */
  function Dot(l: Vec, M: seq<Vec>, k: nat, n: nat, t: nat): Gf
    requires IsMat(M, t) && k < t && n <= |M| && n <= |l|
  {
    if n == 0 then 0 else Add(Dot(l, M, k, n - 1, t), Mul(l[n - 1], M[n - 1][k]))
  }

  /** The rows of M, weighted by l, sum to zero. */
  ghost predicate Relation(l: Vec, M: seq<Vec>, t: nat)
    requires IsMat(M, t)
  {
    |l| == t + 1 && forall k :: 0 <= k < t ==> Dot(l, M, k, |l|, t) == 0
  }

  lemma {:induction false} DotOther(l: Vec, M: seq<Vec>, N: seq<Vec>, k: nat, n: nat, t: nat)
    requires IsMat(M, t) && IsMat(N, t) && k < t && n <= |M| && n <= |l|
    requires forall i :: 0 <= i < n ==> M[i][k] == N[i][k]
    ensures Dot(l, M, k, n, t) == Dot(l, N, k, n, t)
  {
    hide Add, Mul;
    if n > 0 {
      DotOther(l, M, N, k, n - 1, t);
    }
  }

  lemma {:induction false} DotColAdd(l: Vec, M: seq<Vec>, j: nat, k: nat, c: Gf, n: nat, t: nat)
    requires IsMat(M, t) && j < t && k < t && n <= |M| && n <= |l|
    ensures Dot(l, ColAdd(M, j, k, c, t), j, n, t) == Add(Dot(l, M, j, n, t), Mul(Dot(l, M, k, n, t), c))
  {
    hide Add, Mul;
    if n == 0 {
      MulZero(c);
      AddLaws(0, 0, 0);
    } else {
      DotColAdd(l, M, j, k, c, n - 1, t);
      var r := M[n - 1];
      MulAddRight(l[n - 1], r[j], Mul(r[k], c));
      MulAssoc(l[n - 1], r[k], c);
      MulAddLeft(Dot(l, M, k, n - 1, t), Mul(l[n - 1], r[k]), c);
      AddSwap(Dot(l, M, j, n - 1, t), Mul(Dot(l, M, k, n - 1, t), c), Mul(l[n - 1], r[j]), Mul(Mul(l[n - 1], r[k]), c));
    }
  }

  lemma {:induction false} DotColScale(l: Vec, M: seq<Vec>, j: nat, c: Gf, n: nat, t: nat)
    requires IsMat(M, t) && j < t && n <= |M| && n <= |l|
    ensures Dot(l, ColScale(M, j, c, t), j, n, t) == Mul(Dot(l, M, j, n, t), c)
  {
    hide Add, Mul;
    if n == 0 {
      MulZero(c);
    } else {
      DotColScale(l, M, j, c, n - 1, t);
      MulAssoc(l[n - 1], M[n - 1][j], c);
      MulAddLeft(Dot(l, M, j, n - 1, t), Mul(l[n - 1], M[n - 1][j]), c);
    }
  }

  /** Adding one column to another keeps every relation, in both directions. */
  lemma {:induction false} ColAddRelation(l: Vec, M: seq<Vec>, j: nat, k: nat, c: Gf, t: nat)
    requires IsMat(M, t) && j < t && k < t && j != k && |l| == t + 1
    ensures Relation(l, ColAdd(M, j, k, c, t), t) <==> Relation(l, M, t)
  {
    hide Add, Mul, Dot;
    var N := ColAdd(M, j, k, c, t);
    forall x | 0 <= x < t && x != j
      ensures Dot(l, N, x, |l|, t) == Dot(l, M, x, |l|, t)
    {
      DotOther(l, N, M, x, |l|, t);
    }
    DotColAdd(l, M, j, k, c, |l|, t);
    MulZero(c);
    AddLaws(Dot(l, M, j, |l|, t), 0, 0);
    assert Dot(l, M, k, |l|, t) == 0 ==> Dot(l, N, j, |l|, t) == Dot(l, M, j, |l|, t);
  }

  lemma {:induction false} ColScaleRelation(l: Vec, M: seq<Vec>, j: nat, c: Gf, t: nat)
    requires IsMat(M, t) && j < t && c != 0 && |l| == t + 1
    ensures Relation(l, ColScale(M, j, c, t), t) <==> Relation(l, M, t)
  {
    hide Add, Mul, Dot;
    var N := ColScale(M, j, c, t);
    forall x | 0 <= x < t && x != j
      ensures Dot(l, N, x, |l|, t) == Dot(l, M, x, |l|, t)
    {
      DotOther(l, N, M, x, |l|, t);
    }
    DotColScale(l, M, j, c, |l|, t);
    NoZeroDivisors(Dot(l, M, j, |l|, t), c);
    assert Dot(l, N, j, |l|, t) == 0 <==> Dot(l, M, j, |l|, t) == 0;
  }

  lemma {:induction false} PivotedRelation(l: Vec, M: seq<Vec>, j: nat, k: nat, t: nat)
    requires IsMat(M, t) && j < k <= t && |l| == t + 1
    ensures Relation(l, Pivoted(M, j, k, t), t) <==> Relation(l, M, t)
  {
    hide Relation, ColAdd;
    if k > j + 1 {
      PivotedRelation(l, M, j, k - 1, t);
      ColAddRelation(l, Pivoted(M, j, k - 1, t), j, k - 1, 1, t);
    }
  }

  lemma {:induction false} SweptRelation(l: Vec, N: seq<Vec>, j: nat, k: nat, t: nat)
    requires IsMat(N, t) && j < t && k <= t && |l| == t + 1
    ensures Relation(l, Swept(N, j, k, t), t) <==> Relation(l, N, t)
  {
    hide Relation, ColAdd;
    if k > 0 {
      SweptRelation(l, N, j, k - 1, t);
      var S := Swept(N, j, k - 1, t);
      if k - 1 != j {
        ColAddRelation(l, S, k - 1, j, S[j][k - 1], t);
      }
    }
  }

  lemma InvNonzero(a: Gf)
    requires a != 0
    ensures Inv(a) != 0
  {
    hide Mul, Inv;
    InvExact(a);
    MulZero(a);
  }

  /** Elimination keeps every linear relation between the rows. */
  lemma {:induction false} ElimRelation(l: Vec, M: seq<Vec>, n: nat, t: nat)
    requires IsMat(M, t) && n <= t && |l| == t + 1 && Elim(M, n, t).Solved?
    ensures Relation(l, Elim(M, n, t).mat, t) <==> Relation(l, M, t)
  {
    hide Relation, ColAdd, Swept, ColScale, Pivoted, Inv;
    if n > 0 {
      ElimRelation(l, M, n - 1, t);
      var A := Elim(M, n - 1, t).mat;
      var P := Pivoted(A, n - 1, t, t);
      PivotedRelation(l, A, n - 1, t, t);
      var d := P[n - 1][n - 1];
      InvNonzero(d);
      ColScaleRelation(l, P, n - 1, Inv(d), t);
      SweptRelation(l, ColScale(P, n - 1, Inv(d), t), n - 1, t, t);
    }
  }

  // ---------- the rows become unit vectors ----------

  function Unit(j: nat, t: nat): (r: Vec)
    requires j < t
    ensures |r| == t
  {
    Zeros(t)[j := 1]
  }

  ghost predicate UnitRows(M: seq<Vec>, n: nat, t: nat) {
    IsMat(M, t) && n <= t && forall c :: 0 <= c < n ==> M[c] == Unit(c, t)
  }

  /** Rows above the pivot do not change: their entry in the source column is zero. */
  lemma UnitKept(c: nat, j: nat, k: nat, d: Gf, t: nat)
    requires c < t && j < t && k < t && c != k
    ensures AddAt(Unit(c, t), j, k, d) == Unit(c, t)
  {
    hide Add, Mul;
    MulZero(d);
    AddLaws(Unit(c, t)[j], 0, 0);
  }

  lemma {:induction false} PivotedUnits(M: seq<Vec>, j: nat, k: nat, t: nat)
    requires UnitRows(M, j, t) && j < k <= t
    ensures UnitRows(Pivoted(M, j, k, t), j, t)
  {
    hide Unit, AddAt;
    if k > j + 1 {
      PivotedUnits(M, j, k - 1, t);
      forall c | 0 <= c < j
        ensures AddAt(Unit(c, t), j, k - 1, 1) == Unit(c, t)
      {
        UnitKept(c, j, k - 1, 1, t);
      }
    }
  }

  /** The pivot stays zero only when all entries of the row from j on are zero. */
  lemma {:induction false} PivotFound(M: seq<Vec>, j: nat, k: nat, t: nat)
    requires IsMat(M, t) && j < k <= t
    ensures var P := Pivoted(M, j, k, t);
            && (forall x :: 0 <= x < t && x != j ==> P[j][x] == M[j][x])
            && (P[j][j] == 0 ==> forall x :: j <= x < k ==> M[j][x] == 0)
  {
    hide Mul, Add;
    if k > j + 1 {
      PivotFound(M, j, k - 1, t);
      var P := Pivoted(M, j, k - 1, t);
      MulOne(P[j][k - 1]);
      AddLaws(P[j][k - 1], 0, 0);
    }
  }

  lemma SweptUnitsStep(S: seq<Vec>, j: nat, k: nat, t: nat)
    requires UnitRows(S, j, t) && j < t && k < t && k != j
    ensures UnitRows(ColAdd(S, k, j, S[j][k], t), j, t)
  {
    hide Unit, AddAt;
    forall c | 0 <= c < j
      ensures AddAt(Unit(c, t), k, j, S[j][k]) == Unit(c, t)
    {
      UnitKept(c, k, j, S[j][k], t);
    }
  }

  /** Once the pivot is 1, the sweep turns row j into a unit vector and keeps the rows above. */
  lemma {:induction false} SweptUnits(N: seq<Vec>, j: nat, k: nat, t: nat)
    requires UnitRows(N, j, t) && j < t && k <= t && N[j][j] == 1
    ensures var S := Swept(N, j, k, t);
            && UnitRows(S, j, t)
            && (forall x :: 0 <= x < t ==> S[j][x] == if x < k && x != j then 0 else N[j][x])
  {
    hide Mul, Add, Unit;
    if k > 0 {
      SweptUnits(N, j, k - 1, t);
      var S := Swept(N, j, k - 1, t);
      if k - 1 != j {
        SweptUnitsStep(S, j, k - 1, t);
        MulOne(S[j][k - 1]);
        AddLaws(S[j][k - 1], S[j][k - 1], 0);
      }
    }
  }

  lemma ScaledUnits(P: seq<Vec>, j: nat, c: Gf, t: nat)
    requires UnitRows(P, j, t) && j < t
    ensures UnitRows(ColScale(P, j, c, t), j, t)
  {
    hide Mul;
    MulZero(c);
    forall i | 0 <= i < j
      ensures P[i][j := Mul(P[i][j], c)] == P[i]
    {
    }
  }

  lemma {:induction false} StepUnits(P: seq<Vec>, j: nat, t: nat)
    requires UnitRows(P, j, t) && j < t && P[j][j] != 0
    ensures UnitRows(Step(P, j, t), j + 1, t)
  {
    hide Mul, Inv, Swept;
    var d := P[j][j];
    var N := ColScale(P, j, Inv(d), t);
    InvExact(d);
    ScaledUnits(P, j, Inv(d), t);
    SweptUnits(N, j, t, t);
    var S := Swept(N, j, t, t);
    assert S[j] == Unit(j, t);
  }

  lemma {:induction false} ElimUnits(M: seq<Vec>, n: nat, t: nat)
    requires IsMat(M, t) && n <= t && Elim(M, n, t).Solved?
    ensures UnitRows(Elim(M, n, t).mat, n, t)
  {
    hide Step, Pivoted, Unit;
    if n > 0 {
      ElimUnits(M, n - 1, t);
      var A := Elim(M, n - 1, t).mat;
      PivotedUnits(A, n - 1, t, t);
      StepUnits(Pivoted(A, n - 1, t, t), n - 1, t);
    }
  }

  // ---------- what the outcome says about the rows ----------

  /** On unit rows the weights themselves appear. */
  lemma {:induction false} DotUnits(l: Vec, M: seq<Vec>, k: nat, n: nat, t: nat)
    requires UnitRows(M, n, t) && k < t && n <= |l|
    ensures Dot(l, M, k, n, t) == if k < n then l[k] else 0
  {
    hide Mul, Add;
    if n > 0 {
      DotUnits(l, M, k, n - 1, t);
      MulZero(l[n - 1]);
      MulOne(l[n - 1]);
      AddLaws(0, 0, 0);
      AddLaws(l[n - 1], 0, 0);
      AddLaws(Dot(l, M, k, n - 1, t), 0, 0);
    }
  }

  /** Weights that are zero from m on. */
  lemma {:induction false} DotShort(l: Vec, M: seq<Vec>, k: nat, m: nat, n: nat, t: nat)
    requires IsMat(M, t) && k < t && m <= n <= |M| && n <= |l| && forall c :: m <= c < n ==> l[c] == 0
    ensures Dot(l, M, k, n, t) == Dot(l, M, k, m, t)
  {
    hide Mul, Add;
    if n > m {
      DotShort(l, M, k, m, n - 1, t);
      MulZero(M[n - 1][k]);
      AddLaws(Dot(l, M, k, n - 1, t), 0, 0);
    }
  }

  /** The last row gives the coefficients of the relation between all rows. */
  lemma {:induction false} SolvedRelation(M: seq<Vec>, t: nat)
    requires IsMat(M, t) && Elim(M, t, t).Solved?
    ensures Relation(Elim(M, t, t).mat[t] + [1], M, t)
  {
    hide Mul, Add, Elim, Dot, Unit;
    var A := Elim(M, t, t).mat;
    var l := A[t] + [1];
    ElimUnits(M, t, t);
    forall k | 0 <= k < t
      ensures Dot(l, A, k, |l|, t) == 0
    {
      DotUnits(l, A, k, t, t);
      DotLast(l, A, k, t);
      MulOne(A[t][k]);
      AddLaws(A[t][k], 0, 0);
    }
    ElimRelation(l, M, t, t);
  }

  lemma DotLast(l: Vec, A: seq<Vec>, k: nat, t: nat)
    requires IsMat(A, t) && k < t && |l| == t + 1
    ensures Dot(l, A, k, |l|, t) == Add(Dot(l, A, k, t, t), Mul(l[t], A[t][k]))
  {
    hide Dot, Add, Mul;
    DotNext(l, A, k, t, t);
  }

  /** Weights on the first n rows, not all zero, under which these rows sum to zero. */
  ghost predicate Witness(l: Vec, M: seq<Vec>, n: nat, t: nat) {
    && IsMat(M, t) && n <= t && Relation(l, M, t)
    && (forall c :: n <= c < |l| ==> l[c] == 0)
    && exists c :: 0 <= c < n && l[c] != 0
  }

  lemma {:induction false} MissingPivot(A: seq<Vec>, j: nat, t: nat) returns (l: Vec)
    requires UnitRows(A, j, t) && j < t && Pivoted(A, j, t, t)[j][j] == 0
    ensures Witness(l, A, j + 1, t)
  {
    hide Mul, Add, Pivoted, Dot, Unit;
    PivotFound(A, j, t, t);
    l := seq(t + 1, c requires 0 <= c < t + 1 => if c < j then A[j][c] else if c == j then 1 else 0);
    assert l[j] == 1;
    forall k | 0 <= k < t
      ensures Dot(l, A, k, |l|, t) == 0
    {
      DotShort(l, A, k, j + 1, |l|, t);
      DotUnits(l, A, k, j, t);
      DotNext(l, A, k, j, t);
      MulOne(A[j][k]);
      AddLaws(A[j][k], 0, 0);
      AddLaws(0, 0, 0);
    }
  }

  lemma DotNext(l: Vec, A: seq<Vec>, k: nat, j: nat, t: nat)
    requires IsMat(A, t) && k < t && j < |A| && j < |l|
    ensures Dot(l, A, k, j + 1, t) == Add(Dot(l, A, k, j, t), Mul(l[j], A[j][k]))
  {
  }

  lemma {:induction false} DependentWitness(M: seq<Vec>, n: nat, t: nat) returns (l: Vec)
    requires IsMat(M, t) && n <= t && Elim(M, n, t).Dependent?
    ensures Witness(l, M, n, t)
  {
    hide Pivoted, Step, Relation;
    if Elim(M, n - 1, t).Dependent? {
      l := DependentWitness(M, n - 1, t);
      WitnessLength(l, M, n - 1, t);
    } else {
      ElimUnits(M, n - 1, t);
      l := MissingPivot(Elim(M, n - 1, t).mat, n - 1, t);
      WitnessLength(l, Elim(M, n - 1, t).mat, n, t);
      ElimRelation(l, M, n - 1, t);
    }
  }

  lemma WitnessLength(l: Vec, M: seq<Vec>, n: nat, t: nat)
    requires Witness(l, M, n, t)
    ensures |l| == t + 1
  {
  }

  lemma {:induction false} SolvedIndependent(l: Vec, M: seq<Vec>, n: nat, t: nat)
    requires IsMat(M, t) && n <= t && Elim(M, n, t).Solved?
    ensures !Witness(l, M, n, t)
  {
    hide Elim, Dot, Unit;
    if Witness(l, M, n, t) {
      ElimRelation(l, M, n, t);
      ElimUnits(M, n, t);
      var A := Elim(M, n, t).mat;
      forall c | 0 <= c < n
        ensures l[c] == 0
      {
        DotShort(l, A, c, n, |l|, t);
        DotUnits(l, A, c, n, t);
        assert Dot(l, A, c, |l|, t) == 0;
      }
    }
  }

  /** genpoly_gen fails exactly when 1, f, ..., f^(t-1) are linearly dependent. */
  lemma {:induction false} DependentIff(M: seq<Vec>, n: nat, t: nat)
    requires IsMat(M, t) && n <= t
    ensures Elim(M, n, t).Dependent? <==> exists l :: Witness(l, M, n, t)
  {
    hide Elim, Witness;
    if Elim(M, n, t).Dependent? {
      var l := DependentWitness(M, n, t);
    } else {
      forall l
        ensures !Witness(l, M, n, t)
      {
        SolvedIndependent(l, M, n, t);
      }
    }
  }

  // ---------- powers of f ----------

  function EPow(f: Vec, n: nat): (r: Vec)
    requires |f| >= 4
    ensures |r| == |f|
  {
    if n == 0 then Y(0, |f|) else EMul(EPow(f, n - 1), f)
  }

  /** f^0 = 1 and f^1 = f. */
  lemma EPowFirst(f: Vec)
    requires |f| >= 4
    ensures EPow(f, 0) == Zeros(|f|)[0 := 1] && EPow(f, 1) == f
  {
    hide EMul, Y;
    YUnit(0, |f|);
    EMulOne(f);
  }

  /** f^(m+n) = f^m f^n */
  lemma {:induction false} EPowSum(f: Vec, m: nat, n: nat)
    requires |f| >= 4
    ensures EPow(f, m + n) == EMul(EPow(f, m), EPow(f, n))
  {
    hide EMul, Y;
    if n == 0 {
      EMulOne(EPow(f, m));
    } else {
      EPowSum(f, m, n - 1);
      EMulAssoc(EPow(f, m), EPow(f, n - 1), f);
    }
  }

  /** The matrix of the powers 1, f, ..., f^t. */
  ghost function Powers(f: Vec): (M: seq<Vec>)
    requires |f| >= 4
    ensures IsMat(M, |f|)
  {
    seq(|f| + 1, c requires 0 <= c < |f| + 1 => EPow(f, c))
  }

  /** The sum of l_c f^c over c < n. */
  function PowerSum(l: Vec, f: Vec, n: nat): (r: Vec)
    requires |f| >= 4 && n <= |l|
    ensures |r| == |f|
  {
    if n == 0 then Zeros(|f|) else VAdd(PowerSum(l, f, n - 1), Scale(l[n - 1], EPow(f, n - 1)))
  }

  lemma {:induction false} PowerSumDot(l: Vec, f: Vec, n: nat, k: nat)
    requires |f| >= 4 && n <= |l| && n <= |f| + 1 && k < |f|
    ensures PowerSum(l, f, n)[k] == Dot(l, Powers(f), k, n, |f|)
  {
    hide Add, Mul, EPow;
    if n > 0 {
      PowerSumDot(l, f, n - 1, k);
    }
  }

  lemma {:induction false} RelationPowers(l: Vec, f: Vec)
    requires |f| >= 4 && |l| == |f| + 1
    ensures Relation(l, Powers(f), |f|) <==> PowerSum(l, f, |l|) == Zeros(|f|)
  {
    hide Add, Mul, EPow, Dot, PowerSum, Powers;
    forall k | 0 <= k < |f|
      ensures PowerSum(l, f, |l|)[k] == Dot(l, Powers(f), k, |l|, |f|)
    {
      PowerSumDot(l, f, |l|, k);
    }
    if PowerSum(l, f, |l|) == Zeros(|f|) {
      forall k | 0 <= k < |f|
        ensures Dot(l, Powers(f), k, |l|, |f|) == 0
      {
        assert PowerSum(l, f, |l|)[k] == 0;
      }
    }
  }

  // PowerSum is determined by the next two lemmas: it is additive in the coefficients, and one coefficient contributes
  // its multiple of the power.

  lemma {:induction false} PowerSumAdd(l: Vec, m: Vec, f: Vec, n: nat)
    requires |f| >= 4 && |l| == |m| && n <= |l|
    ensures PowerSum(VAdd(l, m), f, n) == VAdd(PowerSum(l, f, n), PowerSum(m, f, n))
  {
    hide EPow, Scale, Add;
    if n == 0 {
      VAddLaws(Zeros(|f|), Zeros(|f|), Zeros(|f|));
    } else {
      PowerSumAdd(l, m, f, n - 1);
      var p := EPow(f, n - 1);
      AddScale(l[n - 1], m[n - 1], p);
      VAddSwap(PowerSum(l, f, n - 1), PowerSum(m, f, n - 1), Scale(l[n - 1], p), Scale(m[n - 1], p));
    }
  }

  lemma {:induction false} PowerSumUnit(l: Vec, k: nat, f: Vec, n: nat)
    requires |f| >= 4 && k < |l| && n <= |l| && forall i :: 0 <= i < |l| && i != k ==> l[i] == 0
    ensures PowerSum(l, f, n) == if k < n then Scale(l[k], EPow(f, k)) else Zeros(|f|)
  {
    hide EPow, Scale, VAdd;
    if n > 0 {
      PowerSumUnit(l, k, f, n - 1);
      var p, z := EPow(f, n - 1), Zeros(|f|);
      ScaleConstants(p, 0, |f|);
      VAddLaws(z, z, z);
      VAddLaws(PowerSum(l, f, n - 1), z, z);
      VAddLaws(Scale(l[n - 1], p), z, z);
    }
  }

  /** A dependence of the first n rows of the matrix of powers is one of 1, f, ..., f^(n-1). */
  lemma {:induction false} WitnessSum(f: Vec, m: Vec)
    requires |f| >= 4 && |m| == |f|
    ensures Witness(m + [0], Powers(f), |f|, |f|) <==> PowerSum(m, f, |f|) == Zeros(|f|) && m != Zeros(|f|)
  {
    hide Add, Mul, EPow, Dot, PowerSum, Powers, Relation, VAdd, Scale;
    var t, l := |f|, m + [0];
    RelationPowers(l, f);
    PowerSumPrefix(l, m, f, t);
    PowerSumLast(l, f, t);
    ScaleConstants(EPow(f, t), 0, t);
    VAddLaws(PowerSum(m, f, t), Zeros(t), Zeros(t));
    if m != Zeros(t) {
      var c: nat :| c < t && m[c] != 0;
      assert l[c] != 0;
    } else {
      assert forall c :: 0 <= c < t ==> l[c] == 0;
    }
  }

  /** On success the output are the coefficients of the minimal polynomial: f^t = sum of out_i f^i. */
  lemma {:induction false} SolvedMinimal(f: Vec, out: Vec)
    requires |f| >= 4 && Elim(Powers(f), |f|, |f|).Solved? && out == Elim(Powers(f), |f|, |f|).mat[|f|]
    ensures |out| == |f| && EPow(f, |f|) == PowerSum(out, f, |f|)
  {
    hide Add, Mul, EPow, Dot, PowerSum, Powers, Elim, Relation, VAdd, Scale;
    var t := |f|;
    var l := out + [1];
    SolvedRelation(Powers(f), t);
    RelationPowers(l, f);
    PowerSumPrefix(l, out, f, t);
    PowerSumLast(l, f, t);
    var s, p := PowerSum(out, f, t), EPow(f, t);
    ScaleConstants(p, 0, t);
    VAddLaws(s, p, p);
    VAddLaws(Zeros(t), p, p);
    VAddLaws(p, s, s);
    VAddLaws(s, Zeros(t), p);
  }

  lemma PowerSumLast(l: Vec, f: Vec, t: nat)
    requires |f| == t >= 4 && |l| == t + 1
    ensures PowerSum(l, f, |l|) == VAdd(PowerSum(l, f, t), Scale(l[t], EPow(f, t)))
  {
  }

  lemma {:induction false} PowerSumPrefix(l: Vec, m: Vec, f: Vec, n: nat)
    requires |f| >= 4 && n <= |l| && n <= |m| && forall c :: 0 <= c < n ==> l[c] == m[c]
    ensures PowerSum(l, f, n) == PowerSum(m, f, n)
  {
    hide VAdd, Scale, EPow;
    if n > 0 {
      PowerSumPrefix(l, m, f, n - 1);
    }
  }

  /** The elimination fails exactly when 1, f, ..., f^(t-1) are linearly dependent. */
  lemma {:induction false} PowersDependent(f: Vec)
    requires |f| >= 4
    ensures Elim(Powers(f), |f|, |f|).Solved? <==>
            forall l: Vec :: |l| == |f| && PowerSum(l, f, |f|) == Zeros(|f|) ==> l == Zeros(|f|)
  {
    hide Elim, Powers, Witness, PowerSum;
    var M, t := Powers(f), |f|;
    DependentIff(M, t, t);
    if Elim(M, t, t).Solved? {
      forall l: Vec | |l| == t && PowerSum(l, f, t) == Zeros(t)
        ensures l == Zeros(t)
      {
        WitnessSum(f, l);
      }
    } else {
      var w :| Witness(w, M, t, t);
      WitnessEnd(w, M, t);
      WitnessSum(f, w[..t]);
      assert w == w[..t] + [0];
    }
  }

  lemma WitnessEnd(w: Vec, M: seq<Vec>, t: nat)
    requires Witness(w, M, t, t)
    ensures |w| == t + 1 && w[t] == 0
  {
  }

  // ---------- genpoly_gen ----------

  /** Column operations that start at row j, as the loops over c do. */
  function AddFrom(M: seq<Vec>, from: nat, to: nat, j: nat, k: nat, c: Gf, t: nat): (r: seq<Vec>)
    requires IsMat(M, t) && j < t && k < t
    ensures IsMat(r, t)
  {
    seq(|M|, i requires 0 <= i < |M| => if from <= i < to then AddAt(M[i], j, k, c) else M[i])
  }

  /** The rows above the pivot are unit vectors, so skipping them makes no difference. */
  lemma AddFromAll(M: seq<Vec>, from: nat, j: nat, k: nat, c: Gf, t: nat)
    requires UnitRows(M, from, t) && from <= j < t && from <= k < t
    ensures AddFrom(M, from, t + 1, j, k, c, t) == ColAdd(M, j, k, c, t)
  {
    hide Unit, AddAt;
    forall i | 0 <= i < from
      ensures AddAt(M[i], j, k, c) == M[i]
    {
      UnitKept(i, j, k, c, t);
    }
  }

  lemma AddFromSweep(M: seq<Vec>, from: nat, j: nat, c: Gf, t: nat)
    requires UnitRows(M, from, t) && from < t && j < t && j != from
    ensures AddFrom(M, from, t + 1, j, from, c, t) == ColAdd(M, j, from, c, t)
  {
    hide Unit, AddAt;
    forall i | 0 <= i < from
      ensures AddAt(M[i], j, from, c) == M[i]
    {
      UnitKept(i, j, from, c, t);
    }
  }

  lemma AddNone(M: seq<Vec>, from: nat, j: nat, k: nat, t: nat)
    requires IsMat(M, t) && j < t && k < t
    ensures AddFrom(M, from, t + 1, j, k, 0, t) == M
  {
    hide Mul, Add;
    forall i | 0 <= i < |M|
      ensures AddAt(M[i], j, k, 0) == M[i]
    {
      MulZero(M[i][k]);
      AddLaws(M[i][j], 0, 0);
    }
  }

  /** v & mask for the masks of gf_iszero. */
  lemma MaskedElement(v: Gf, a: Gf)
    ensures Bits.And(v, IsZero(a)) == Mul(v, if a == 0 then 1 else 0)
  {
    hide Mul;
    MulZero(v);
    MulOne(v);
    Bits.AndZero(v);
    Thirteen();
    Bits.AndOnes(v, 13, 0x1FFF);
  }

  lemma Thirteen()
    ensures Bits.Pow2(13) == 0x2000
  {
    Power11();
  }

  /** mat[c][j] ^= mat[c][k] & mask, for c from j on. */
  method AddMasked(mat: array<Vec>, j: nat, k: nat, t: nat)
    requires IsMat(mat[..], t) && j < k < t
    modifies mat
    ensures mat[..] == AddFrom(old(mat[..]), j, t + 1, j, k, if old(mat[j][j]) == 0 then 1 else 0, t)
  {
    hide Mul, Add, IsZero;
    ghost var M, a := mat[..], mat[j][j];
    var mask := IsZero(mat[j][j]);
    for c := j to t + 1
      invariant mat[..] == AddFrom(M, j, c, j, k, if a == 0 then 1 else 0, t)
    {
      MaskedElement(mat[c][k], a);
      mat[c] := mat[c][j := Add(mat[c][j], Bits.And(mat[c][k], mask))];
    }
  }

  function ScaleFrom(M: seq<Vec>, from: nat, to: nat, j: nat, c: Gf, t: nat): (r: seq<Vec>)
    requires IsMat(M, t) && j < t
    ensures IsMat(r, t)
  {
    seq(|M|, i requires 0 <= i < |M| => if from <= i < to then M[i][j := Mul(M[i][j], c)] else M[i])
  }

  lemma ScaleFromAll(M: seq<Vec>, j: nat, c: Gf, t: nat)
    requires UnitRows(M, j, t) && j < t
    ensures ScaleFrom(M, j, t + 1, j, c, t) == ColScale(M, j, c, t)
  {
    hide Mul;
    MulZero(c);
    forall i | 0 <= i < j
      ensures M[i][j := Mul(M[i][j], c)] == M[i]
    {
    }
  }

  /** mat[c][j] = mat[c][j] * inv, for c from j on. */
  method ScaleColumn(mat: array<Vec>, j: nat, inv: Gf, t: nat)
    requires IsMat(mat[..], t) && j < t
    modifies mat
    ensures mat[..] == ScaleFrom(old(mat[..]), j, t + 1, j, inv, t)
  {
    hide Mul;
    ghost var M := mat[..];
    for c := j to t + 1
      invariant mat[..] == ScaleFrom(M, j, c, j, inv, t)
    {
      var v := GfMul(mat[c][j], inv);
      mat[c] := mat[c][j := v];
    }
  }

  /** mat[c][k] ^= mat[c][j] * v, for c from j on. */
  method AddColumn(mat: array<Vec>, k: nat, j: nat, v: Gf, t: nat)
    requires IsMat(mat[..], t) && j < t && k < t && j != k
    modifies mat
    ensures mat[..] == AddFrom(old(mat[..]), j, t + 1, k, j, v, t)
  {
    hide Mul, Add;
    ghost var M := mat[..];
    for c := j to t + 1
      invariant mat[..] == AddFrom(M, j, c, k, j, v, t)
    {
      var m := GfMul(mat[c][j], v);
      mat[c] := mat[c][k := Add(mat[c][k], m)];
    }
  }

  /** The search for a pivot in row j. */
  method FindPivot(mat: array<Vec>, j: nat, t: nat)
    requires UnitRows(mat[..], j, t) && j < t
    modifies mat
    ensures mat[..] == Pivoted(old(mat[..]), j, t, t)
  {
    hide Unit, AddFrom, ColAdd, IsMat;
    ghost var M := mat[..];
    UnitMat(M, j, t);
    for k := j + 1 to t
      invariant mat[..] == Pivoted(M, j, k, t)
    {
      PivotedUnits(M, j, k, t);
      ghost var P := mat[..];
      AddFromAll(P, j, j, k, 1, t);
      AddNone(P, j, j, k, t);
      AddMasked(mat, j, k, t);
    }
  }

  lemma UnitMat(M: seq<Vec>, n: nat, t: nat)
    requires UnitRows(M, n, t)
    ensures IsMat(M, t)
  {
  }

  /** The sweep that clears row j outside the pivot. */
  method SweepRow(mat: array<Vec>, j: nat, t: nat)
    requires UnitRows(mat[..], j, t) && j < t && mat[j][j] == 1
    modifies mat
    ensures mat[..] == Swept(old(mat[..]), j, t, t)
  {
    hide Unit, AddFrom, ColAdd;
    ghost var N := mat[..];
    for k := 0 to t
      invariant mat[..] == Swept(N, j, k, t)
    {
      SweptUnits(N, j, k, t);
      if k != j {
        var v := mat[j][k];
        AddFromSweep(mat[..], j, k, v, t);
        AddColumn(mat, k, j, v, t);
      }
    }
  }

  /** One round of the loop over j. */
  method PivotColumn(mat: array<Vec>, j: nat, t: nat, ghost M: seq<Vec>) returns (ok: bool)
    requires IsMat(M, t) && j < t && IsMat(mat[..], t) && Elim(M, j, t) == Solved(mat[..])
    modifies mat
    ensures ok ==> IsMat(mat[..], t) && Elim(M, j + 1, t) == Solved(mat[..])
    ensures !ok ==> Elim(M, j + 1, t).Dependent?
  {
    hide Unit, Pivoted, Swept, ColScale, ScaleFrom, Inv, Mul;
    ElimUnits(M, j, t);
    PivotedUnits(mat[..], j, t, t);
    FindPivot(mat, j, t);
    if mat[j][j] == 0 {
      return false;
    }
    ghost var P := mat[..];
    var inv := GfInv(mat[j][j]);
    ScaleFromAll(P, j, inv, t);
    ScaledUnits(P, j, inv, t);
    ScaledPivot(P, j, t);
    ScaleColumn(mat, j, inv, t);
    SweepRow(mat, j, t);
    ok := true;
  }

  lemma ScaledPivot(P: seq<Vec>, j: nat, t: nat)
    requires IsMat(P, t) && j < t && P[j][j] != 0
    ensures ColScale(P, j, Inv(P[j][j]), t)[j][j] == 1
  {
    hide Mul, Inv;
    InvExact(P[j][j]);
  }

  /** The rows 1, f, f^2, ..., f^t. */
  method FillPowers(mat: array<Vec>, f: Vec)
    requires |f| >= 4 && mat.Length == |f| + 1
    modifies mat
    ensures mat[..] == Powers(f)
  {
    hide EMul, Y;
    var t := |f|;
    YUnit(0, t);
    mat[0] := Zeros(t)[0 := 1];
    EMulOne(f);
    mat[1] := f;
    for j := 2 to t + 1
      invariant forall c :: 0 <= c < j ==> mat[c] == EPow(f, c)
    {
      mat[j] := GFMul(mat[j - 1], f);
    }
  }

  /** genpoly_gen: out is the minimal polynomial of f, without its leading 1; on failure there is none of degree t. */
  method GenPoly(f: Vec) returns (ok: bool, out: Vec)
    requires |f| >= 4
    ensures ok ==> |out| == |f| && EPow(f, |f|) == PowerSum(out, f, |f|)
    ensures ok <==> forall l: Vec :: |l| == |f| && PowerSum(l, f, |f|) == Zeros(|f|) ==> l == Zeros(|f|)
  {
    hide EPow, PowerSum, Powers, Elim, Witness;
    var t := |f|;
    var mat := new Vec[t + 1](_ => Zeros(0));
    FillPowers(mat, f);
    ghost var M := Powers(f);
    PowersDependent(f);
    ElimStart(M, t);
    for j := 0 to t
      invariant IsMat(mat[..], t) && Elim(M, j, t) == Solved(mat[..])
    {
      var found := PivotColumn(mat, j, t, M);
      if !found {
        DependentLater(M, j + 1, t, t);
        return false, [];
      }
    }
    out := mat[t];
    SolvedMinimal(f, out);
    ok := true;
  }

  lemma ElimStart(M: seq<Vec>, t: nat)
    requires IsMat(M, t)
    ensures Elim(M, 0, t) == Solved(M)
  {
  }

  lemma {:induction false} DependentLater(M: seq<Vec>, m: nat, n: nat, t: nat)
    requires IsMat(M, t) && m <= n <= t && Elim(M, m, t).Dependent?
    ensures Elim(M, n, t).Dependent?
  {
    hide Pivoted, Step;
    if m < n {
      DependentLater(M, m, n - 1, t);
    }
  }
}
