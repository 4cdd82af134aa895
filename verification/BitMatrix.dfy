/** Matrices over GF(2), the elimination of pk_gen.c as a function on them, and what it preserves. */
module BitMatrix {

  datatype Outcome = Systematic(mat: seq<seq<bool>>) | Singular

  ghost predicate IsMat(M: seq<seq<bool>>, cols: nat) {
    forall r :: 0 <= r < |M| ==> |M[r]| == cols
  }

  function Sum(a: seq<bool>, b: seq<bool>): (r: seq<bool>)
    requires |a| == |b|
    ensures |r| == |a|
  {
    seq(|a|, c requires 0 <= c < |a| => a[c] != b[c])
  }

  function AddIf(a: seq<bool>, b: seq<bool>, m: bool): (r: seq<bool>)
    requires |a| == |b|
    ensures |r| == |a|
  {
    if m then Sum(a, b) else a
  }

  /** The pivot row after the rows row+1..k-1 have been added, each when its bit in the pivot column differs
      from the one collected so far. */
  function Gather(A: seq<seq<bool>>, row: nat, k: nat, cols: nat): (p: seq<bool>)
    requires IsMat(A, cols) && row < k <= |A| && row < cols
    ensures |p| == cols
  {
    if k == row + 1 then A[row]
    else
      var p := Gather(A, row, k - 1, cols);
      AddIf(p, A[k - 1], p[row] != A[k - 1][row])
  }

  /** Row k after the pivot row p has cleared its bit in the pivot column. */
  function ClearedRow(A: seq<seq<bool>>, row: nat, p: seq<bool>, k: nat, cols: nat): (r: seq<bool>)
    requires IsMat(A, cols) && |p| == cols && row < cols && k < |A|
    ensures |r| == cols
  {
    if k == row then p else AddIf(A[k], p, A[k][row])
  }

  function Cleared(A: seq<seq<bool>>, row: nat, p: seq<bool>, cols: nat): (r: seq<seq<bool>>)
    requires IsMat(A, cols) && |p| == cols && row < cols
    ensures |r| == |A| && IsMat(r, cols)
  {
    seq(|A|, k requires 0 <= k < |A| => ClearedRow(A, row, p, k, cols))
  }

  /** The elimination with the first n pivots. */
  function Elim(M: seq<seq<bool>>, n: nat, cols: nat): (o: Outcome)
    requires IsMat(M, cols) && n <= |M| && n <= cols
    ensures o.Systematic? ==> |o.mat| == |M| && IsMat(o.mat, cols)
  {
    if n == 0 then Systematic(M)
    else
      var o := Elim(M, n - 1, cols);
      if o.Singular? then Singular
      else
        var p := Gather(o.mat, n - 1, |M|, cols);
        if p[n - 1] then Systematic(Cleared(o.mat, n - 1, p, cols)) else Singular
  }

  // ---------- inner products ----------

  function Dot(a: seq<bool>, v: seq<bool>, n: nat): bool
    requires n <= |a| && n <= |v|
  {
    n > 0 && Dot(a, v, n - 1) != (a[n - 1] && v[n - 1])
  }

  lemma DotSum(a: seq<bool>, b: seq<bool>, v: seq<bool>, n: nat)
    requires |a| == |b| && n <= |a| && n <= |v|
    ensures Dot(Sum(a, b), v, n) == (Dot(a, v, n) != Dot(b, v, n))
  {
  }

  lemma DotSumRight(a: seq<bool>, u: seq<bool>, v: seq<bool>, n: nat)
    requires |u| == |v| && n <= |a| && n <= |u|
    ensures Dot(a, Sum(u, v), n) == (Dot(a, u, n) != Dot(a, v, n))
  {
  }

  lemma DotAddIf(a: seq<bool>, b: seq<bool>, m: bool, v: seq<bool>, n: nat)
    requires |a| == |b| && n <= |a| && n <= |v|
    ensures Dot(AddIf(a, b, m), v, n) == (Dot(a, v, n) != (m && Dot(b, v, n)))
  {
    DotSum(a, b, v, n);
  }

  /** Columns where v is false do not matter. */
  lemma DotShort(a: seq<bool>, v: seq<bool>, m: nat, n: nat)
    requires m <= n <= |a| && n <= |v| && forall c :: m <= c < n ==> !v[c]
    ensures Dot(a, v, n) == Dot(a, v, m)
  {
  }

  /** A row that is a unit vector in its first n columns picks one entry. */
  lemma {:induction false} DotUnit(a: seq<bool>, v: seq<bool>, n: nat, r: nat)
    requires n <= |a| && n <= |v| && forall c :: 0 <= c < n ==> a[c] == (c == r)
    ensures Dot(a, v, n) == (r < n && v[r])
  {
    if n > 0 {
      DotUnit(a, v, n - 1, r);
    }
  }

  ghost predicate InKernel(M: seq<seq<bool>>, v: seq<bool>)
    requires IsMat(M, |v|)
  {
    forall r :: 0 <= r < |M| ==> !Dot(M[r], v, |v|)
  }

  // ---------- the row space is kept ----------

  lemma {:induction false} GatherDot(A: seq<seq<bool>>, row: nat, k: nat, v: seq<bool>)
    requires IsMat(A, |v|) && row < k <= |A| && row < |v|
    requires forall r :: row < r < k ==> !Dot(A[r], v, |v|)
    ensures Dot(Gather(A, row, k, |v|), v, |v|) == Dot(A[row], v, |v|)
  {
    if k > row + 1 {
      GatherDot(A, row, k - 1, v);
      var p := Gather(A, row, k - 1, |v|);
      DotAddIf(p, A[k - 1], p[row] != A[k - 1][row], v, |v|);
    }
  }

  lemma ClearedDot(A: seq<seq<bool>>, row: nat, p: seq<bool>, k: nat, v: seq<bool>)
    requires IsMat(A, |v|) && |p| == |v| && row < |v| && k < |A| && k != row && !Dot(p, v, |v|)
    ensures Dot(ClearedRow(A, row, p, k, |v|), v, |v|) == Dot(A[k], v, |v|)
  {
    DotAddIf(A[k], p, A[k][row], v, |v|);
  }

  /** One pivot step keeps the kernel, whether or not the pivot was found. */
  lemma {:induction false} StepKernel(A: seq<seq<bool>>, row: nat, v: seq<bool>)
    requires IsMat(A, |v|) && row < |A| && row < |v|
    ensures InKernel(Cleared(A, row, Gather(A, row, |A|, |v|), |v|), v) <==> InKernel(A, v)
  {
    hide Gather, ClearedRow, Dot;
    var p := Gather(A, row, |A|, |v|);
    var S := Cleared(A, row, p, |v|);
    assert S[row] == p by { PivotRow(A, row, p, |v|); }
    if InKernel(A, v) {
      GatherDot(A, row, |A|, v);
      forall k | 0 <= k < |A|
        ensures !Dot(S[k], v, |v|)
      {
        if k != row {
          ClearedDot(A, row, p, k, v);
        }
      }
    }
    if InKernel(S, v) {
      assert !Dot(p, v, |v|);
      forall k | 0 <= k < |A| && k != row
        ensures !Dot(A[k], v, |v|)
      {
        ClearedDot(A, row, p, k, v);
        assert !Dot(S[k], v, |v|);
      }
      GatherDot(A, row, |A|, v);
    }
  }

  lemma PivotRow(A: seq<seq<bool>>, row: nat, p: seq<bool>, cols: nat)
    requires IsMat(A, cols) && |p| == cols && row < cols && row < |A|
    ensures Cleared(A, row, p, cols)[row] == p
  {
  }

  /** Elimination keeps the kernel: the reduced matrix and the original one define the same code. */
  lemma {:induction false} ElimKernel(M: seq<seq<bool>>, n: nat, v: seq<bool>)
    requires IsMat(M, |v|) && n <= |M| && n <= |v| && Elim(M, n, |v|).Systematic?
    ensures InKernel(Elim(M, n, |v|).mat, v) <==> InKernel(M, v)
  {
    if n > 0 {
      ElimKernel(M, n - 1, v);
      StepKernel(Elim(M, n - 1, |v|).mat, n - 1, v);
    }
  }

  // ---------- the shape of the result ----------

  /** The first n columns are those of the identity. */
  ghost predicate Reduced(M: seq<seq<bool>>, n: nat) {
    && n <= |M|
    && forall r, c :: 0 <= r < |M| && 0 <= c < n ==> c < |M[r]| && M[r][c] == (r == c)
  }

  /** The collected pivot bit is set exactly when some row from row on has it. */
  lemma {:induction false} GatherPivot(A: seq<seq<bool>>, row: nat, k: nat, cols: nat)
    requires IsMat(A, cols) && row < k <= |A| && row < cols
    ensures !Gather(A, row, k, cols)[row] <==> forall r :: row <= r < k ==> !A[r][row]
  {
    if k > row + 1 {
      GatherPivot(A, row, k - 1, cols);
    }
  }

  lemma {:induction false} GatherZero(A: seq<seq<bool>>, row: nat, k: nat, cols: nat, c: nat)
    requires IsMat(A, cols) && row < k <= |A| && row < cols && c < row && Reduced(A, row)
    ensures !Gather(A, row, k, cols)[c]
  {
    if k > row + 1 {
      GatherZero(A, row, k - 1, cols, c);
    }
  }

  lemma {:induction false} StepReduced(A: seq<seq<bool>>, row: nat, cols: nat)
    requires IsMat(A, cols) && row < |A| && row < cols && Reduced(A, row) && Gather(A, row, |A|, cols)[row]
    ensures Reduced(Cleared(A, row, Gather(A, row, |A|, cols), cols), row + 1)
  {
    hide Gather;
    var p := Gather(A, row, |A|, cols);
    var S := Cleared(A, row, p, cols);
    forall r, c | 0 <= r < |A| && 0 <= c < row + 1
      ensures S[r][c] == (r == c)
    {
      if c < row {
        GatherZero(A, row, |A|, cols, c);
      }
    }
  }

  lemma {:induction false} ElimReduced(M: seq<seq<bool>>, n: nat, cols: nat)
    requires IsMat(M, cols) && n <= |M| && n <= cols && Elim(M, n, cols).Systematic?
    ensures Reduced(Elim(M, n, cols).mat, n)
  {
    if n > 0 {
      ElimReduced(M, n - 1, cols);
      StepReduced(Elim(M, n - 1, cols).mat, n - 1, cols);
    }
  }

  // ---------- elimination fails exactly on dependent columns ----------

  /** A nonzero vector on the first n columns that the matrix maps to zero. */
  ghost predicate Witness(M: seq<seq<bool>>, v: seq<bool>, n: nat) {
    && n <= |v| && IsMat(M, |v|) && InKernel(M, v)
    && (forall c :: n <= c < |v| ==> !v[c])
    && exists c :: 0 <= c < n && v[c]
  }

  /** When the pivot is missing, its column is the sum of the unit columns before it. */
  lemma {:induction false} MissingPivot(A: seq<seq<bool>>, row: nat, cols: nat) returns (v: seq<bool>)
    requires IsMat(A, cols) && row < |A| && row < cols && Reduced(A, row) && !Gather(A, row, |A|, cols)[row]
    ensures |v| == cols && Witness(A, v, row + 1)
  {
    hide Gather;
    GatherPivot(A, row, |A|, cols);
    v := seq(cols, c requires 0 <= c < cols => if c < row then A[c][row] else c == row);
    assert v[row];
    forall r | 0 <= r < |A|
      ensures !Dot(A[r], v, cols)
    {
      DotShort(A[r], v, row + 1, cols);
      DotUnit(A[r], v, row, r);
    }
  }

  lemma {:induction false} SingularWitness(M: seq<seq<bool>>, n: nat, cols: nat) returns (v: seq<bool>)
    requires IsMat(M, cols) && n <= |M| && n <= cols && Elim(M, n, cols).Singular?
    ensures |v| == cols && Witness(M, v, n)
  {
    hide Gather, Cleared;
    if Elim(M, n - 1, cols).Singular? {
      v := SingularWitness(M, n - 1, cols);
    } else {
      ElimReduced(M, n - 1, cols);
      v := MissingPivot(Elim(M, n - 1, cols).mat, n - 1, cols);
      ElimKernel(M, n - 1, v);
    }
  }

  lemma {:induction false} SystematicIndependent(M: seq<seq<bool>>, n: nat, v: seq<bool>)
    requires IsMat(M, |v|) && n <= |M| && n <= |v| && Elim(M, n, |v|).Systematic?
    ensures !Witness(M, v, n)
  {
    hide Elim;
    if Witness(M, v, n) {
      ElimKernel(M, n, v);
      ElimReduced(M, n, |v|);
      var A := Elim(M, n, |v|).mat;
      forall c | 0 <= c < |v|
        ensures !v[c]
      {
        if c < n {
          DotShort(A[c], v, n, |v|);
          DotUnit(A[c], v, n, c);
          assert !Dot(A[c], v, |v|);
        }
      }
    }
  }

  /** Key generation rejects a matrix exactly when its first n columns are linearly dependent. */
  lemma {:induction false} SingularIff(M: seq<seq<bool>>, n: nat, cols: nat)
    requires IsMat(M, cols) && n <= |M| && n <= cols
    ensures Elim(M, n, cols).Singular? <==> exists v :: |v| == cols && Witness(M, v, n)
  {
    hide Elim, Witness;
    if Elim(M, n, cols).Singular? {
      var v := SingularWitness(M, n, cols);
    } else {
      forall v | |v| == cols
        ensures !Witness(M, v, n)
      {
        SystematicIndependent(M, n, v);
      }
    }
  }

  // ---------- syndromes ----------

  /** The products of all rows with e. */
  function Times(M: seq<seq<bool>>, e: seq<bool>): (s: seq<bool>)
    requires IsMat(M, |e|)
    ensures |s| == |M|
  {
    seq(|M|, r requires 0 <= r < |M| => Dot(M[r], e, |e|))
  }

  function Padded(c: seq<bool>, n: nat): (r: seq<bool>)
    requires |c| <= n
    ensures |r| == n
  {
    c + seq(n - |c|, i => false)
  }

  /** A systematic matrix maps c, extended by zeros, to c itself. */
  lemma {:induction false} SystematicFixes(A: seq<seq<bool>>, c: seq<bool>, cols: nat)
    requires IsMat(A, cols) && |c| == |A| <= cols && Reduced(A, |A|)
    ensures Times(A, Padded(c, cols)) == c
  {
    var z := Padded(c, cols);
    forall r | 0 <= r < |A|
      ensures Dot(A[r], z, cols) == c[r]
    {
      DotShort(A[r], z, |c|, cols);
      DotUnit(A[r], z, |c|, r);
    }
  }

  /** The ciphertext c of e under the public (reduced) matrix, extended by zeros, has the same products as e
      with the secret (original) matrix. */
  lemma {:induction false} SameSyndrome(H: seq<seq<bool>>, e: seq<bool>)
    requires IsMat(H, |e|) && |H| <= |e| && Elim(H, |H|, |e|).Systematic?
    ensures var c := Times(Elim(H, |H|, |e|).mat, e);
            Times(H, Padded(c, |e|)) == Times(H, e)
  {
    hide Elim, Dot, Padded;
    var A := Elim(H, |H|, |e|).mat;
    var c := Times(A, e);
    var z := Padded(c, |e|);
    var v := Sum(e, z);
    ElimReduced(H, |H|, |e|);
    SystematicFixes(A, c, |e|);
    forall r | 0 <= r < |A|
      ensures !Dot(A[r], v, |v|)
    {
      DotSumRight(A[r], e, z, |e|);
      assert Times(A, z)[r] == Dot(A[r], z, |z|);
    }
    ElimKernel(H, |H|, v);
    forall r | 0 <= r < |H|
      ensures Times(H, z)[r] == Times(H, e)[r]
    {
      DotSumRight(H[r], e, z, |e|);
      assert !Dot(H[r], v, |v|);
    }
  }
}
