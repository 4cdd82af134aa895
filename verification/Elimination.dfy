/** The Gaussian elimination of pk_gen.c on rows of bytes, in place. */
module Elimination {
  import opened Bits
  import opened OutBits
  import opened BitMatrix

  // ---------- rows of bytes as rows of bits ----------

  ghost function RowBits(row: seq<int>): (r: seq<bool>)
    requires Bytes(row)
    ensures |r| == 8 * |row|
  {
    seq(8 * |row|, P requires 0 <= P < 8 * |row| => OutBit(row, P))
  }

  ghost predicate ByteMat(m: seq<seq<int>>, width: nat) {
    forall r :: 0 <= r < |m| ==> |m[r]| == width && Bytes(m[r])
  }

  ghost function MatBits(m: seq<seq<int>>, width: nat): (r: seq<seq<bool>>)
    requires ByteMat(m, width)
    ensures |r| == |m| && IsMat(r, 8 * width)
  {
    seq(|m|, r requires 0 <= r < |m| => RowBits(m[r]))
  }

  lemma MatBitsUpdate(m: seq<seq<int>>, r: nat, row: seq<int>, width: nat)
    requires ByteMat(m, width) && r < |m| && |row| == width && Bytes(row)
    ensures ByteMat(m[r := row], width)
    ensures MatBits(m[r := row], width) == MatBits(m, width)[r := RowBits(row)]
  {
  }

  lemma RowBitsEqual(a: seq<int>, b: seq<int>)
    requires Bytes(a) && Bytes(b) && |a| == |b| && RowBits(a) == RowBits(b)
    ensures a == b
  {
    hide Bit;
    Pow2Values();
    forall c | 0 <= c < |a|
      ensures a[c] == b[c]
    {
      forall i | 0 <= i < 8
        ensures Bit(a[c], i) == Bit(b[c], i)
      {
        assert RowBits(a)[8 * c + i] == RowBits(b)[8 * c + i];
      }
      BitExt(a[c], b[c], 8);
    }
  }

  /** Bit j of byte i stands in column 8i+j. */
  lemma ColumnBit(m: seq<seq<int>>, r: nat, i: nat, j: nat, width: nat)
    requires ByteMat(m, width) && r < |m| && i < width && j < 8
    ensures 0 <= m[r][i] < 256 && MatBits(m, width)[r][8 * i + j] == Bit(m[r][i], j)
  {
    hide Bit;
  }

  // ---------- masked row addition ----------

  /** row[c] ^= other[c] & mask, for all c */
  function XorMasked(a: seq<int>, b: seq<int>, mask: nat): (r: seq<int>)
    requires |a| == |b| && (forall c :: 0 <= c < |a| ==> 0 <= a[c] && 0 <= b[c])
    ensures |r| == |a|
  {
    seq(|a|, c requires 0 <= c < |a| => Xor(a[c], And(b[c], mask)))
  }

  /** mask = -((b >> j) & 1) */
  function MaskOf(b: nat, j: nat): (r: nat)
    ensures r == 0 || r == 255
  {
    (256 - Shr(b, j) % 2) % 256
  }

  lemma MaskBit(b: nat, j: nat)
    ensures MaskOf(b, j) == if Bit(b, j) then 255 else 0
  {
    BitIsShift(b, j);
  }

  lemma MaskedByte(a: nat, b: nat, mask: nat)
    requires a < 256 && b < 256 && (mask == 0 || mask == 255)
    ensures Xor(a, And(b, mask)) == (if mask == 255 then Xor(a, b) else a) < 256
  {
    SmallPowers();
    AndOnes(b, 8, 255);
    AndZero(b);
    XorZero(a);
    XorBound(a, b, 8);
  }

  lemma {:induction false} XorMaskedBits(a: seq<int>, b: seq<int>, mask: nat)
    requires Bytes(a) && Bytes(b) && |a| == |b| && (mask == 0 || mask == 255)
    ensures Bytes(XorMasked(a, b, mask))
    ensures RowBits(XorMasked(a, b, mask)) == AddIf(RowBits(a), RowBits(b), mask == 255)
  {
    hide Bit, Xor, And;
    var r := XorMasked(a, b, mask);
    forall c | 0 <= c < |a|
      ensures 0 <= r[c] < 256
    {
      MaskedByte(a[c], b[c], mask);
    }
    forall P | 0 <= P < 8 * |a|
      ensures RowBits(r)[P] == AddIf(RowBits(a), RowBits(b), mask == 255)[P]
    {
      MaskedByte(a[P / 8], b[P / 8], mask);
      XorBit(a[P / 8], b[P / 8], P % 8);
    }
  }

  /** The loops over c. */
  method AddMasked(mat: array<seq<int>>, dst: nat, src: nat, mask: nat, ghost width: nat)
    requires ByteMat(mat[..], width) && dst < mat.Length && src < mat.Length && dst != src
    requires mask == 0 || mask == 255
    modifies mat
    ensures ByteMat(mat[..], width)
    ensures MatBits(mat[..], width) == old(MatBits(mat[..], width))
              [dst := AddIf(old(MatBits(mat[..], width))[dst], old(MatBits(mat[..], width))[src], mask == 255)]
  {
    hide Xor, And, RowBits, AddIf;
    ghost var was := mat[..];
    ghost var a, b := mat[dst], mat[src];
    ghost var r := XorMasked(a, b, mask);
    var c := 0;
    while c < |mat[dst]|
      invariant c <= |mat[dst]| == width
      invariant mat[..] == was[dst := mat[dst]]
      invariant forall d :: 0 <= d < width ==> mat[dst][d] == if d < c then r[d] else a[d]
    {
      mat[dst] := mat[dst][c := Xor(mat[dst][c], And(mat[src][c], mask))];
      c := c + 1;
    }
    assert mat[dst] == r;
    XorMaskedBits(a, b, mask);
    MatBitsUpdate(was, dst, r, width);
  }

  // ---------- one pivot ----------

  /** The loop over k that adds lower rows to the pivot row. */
  method CollectPivot(mat: array<seq<int>>, i: nat, j: nat, row: nat, ghost width: nat)
    requires ByteMat(mat[..], width) && row == i * 8 + j && j < 8 && row < mat.Length <= 8 * width
    modifies mat
    ensures ByteMat(mat[..], width)
    ensures var A := old(MatBits(mat[..], width));
            MatBits(mat[..], width) == A[row := Gather(A, row, |A|, 8 * width)]
  {
    hide Bytes, RowBits, AddIf, MatBits, MaskOf;
    ghost var A := MatBits(mat[..], width);
    GatherStart(A, row, 8 * width);
    for k := row + 1 to mat.Length
      invariant ByteMat(mat[..], width)
      invariant MatBits(mat[..], width) == A[row := Gather(A, row, k, 8 * width)]
    {
      ColumnBit(mat[..], row, i, j, width);
      ColumnBit(mat[..], k, i, j, width);
      XorBit(mat[row][i], mat[k][i], j);
      var mask := Xor(mat[row][i], mat[k][i]);
      MaskBit(mask, j);
      mask := MaskOf(mask, j);
      AddMasked(mat, row, k, mask, width);
      GatherNext(A, row, k, 8 * width);
    }
  }

  lemma GatherStart(A: seq<seq<bool>>, row: nat, cols: nat)
    requires IsMat(A, cols) && row < |A| && row < cols
    ensures A == A[row := Gather(A, row, row + 1, cols)]
  {
  }

  lemma GatherNext(A: seq<seq<bool>>, row: nat, k: nat, cols: nat)
    requires IsMat(A, cols) && row < k < |A| && row < cols
    ensures var p := Gather(A, row, k, cols);
            Gather(A, row, k + 1, cols) == AddIf(p, A[k], p[row] != A[k][row])
  {
  }

  /** The rows before k have been cleared. */
  ghost function ClearedUpTo(A: seq<seq<bool>>, row: nat, p: seq<bool>, k: int, cols: nat): (r: seq<seq<bool>>)
    requires IsMat(A, cols) && |p| == cols && row < cols
    ensures |r| == |A| && IsMat(r, cols)
  {
    seq(|A|, r requires 0 <= r < |A| => if r < k || r == row then ClearedRow(A, row, p, r, cols) else A[r])
  }

  /** The loop over k that clears the pivot column in the other rows. */
  method ClearColumn(mat: array<seq<int>>, i: nat, j: nat, row: nat, ghost A: seq<seq<bool>>, ghost width: nat)
    requires ByteMat(mat[..], width) && row == i * 8 + j && j < 8 && row < mat.Length <= 8 * width
    requires IsMat(A, 8 * width) && |A| == mat.Length
    requires MatBits(mat[..], width) == A[row := MatBits(mat[..], width)[row]]
    modifies mat
    ensures ByteMat(mat[..], width)
    ensures MatBits(mat[..], width) == Cleared(A, row, old(MatBits(mat[..], width)[row]), 8 * width)
  {
    hide Bytes, RowBits, AddIf, MatBits, MaskOf;
    ghost var p := MatBits(mat[..], width)[row];
    for k := 0 to mat.Length
      invariant ByteMat(mat[..], width)
      invariant MatBits(mat[..], width) == ClearedUpTo(A, row, p, k, 8 * width)
    {
      if k != row {
        ColumnBit(mat[..], k, i, j, width);
        MaskBit(mat[k][i], j);
        var mask := MaskOf(mat[k][i], j);
        AddMasked(mat, k, row, mask, width);
      }
      ClearedNext(A, row, p, k, 8 * width);
    }
    ClearedEnd(A, row, p, 8 * width);
  }

  lemma ClearedNext(A: seq<seq<bool>>, row: nat, p: seq<bool>, k: nat, cols: nat)
    requires IsMat(A, cols) && |p| == cols && row < cols && row < |A| && k < |A|
    ensures var C := ClearedUpTo(A, row, p, k, cols);
            && C[row] == p
            && (k != row ==> C[k] == A[k])
            && ClearedUpTo(A, row, p, k + 1, cols) == if k == row then C else C[k := AddIf(A[k], p, A[k][row])]
  {
    hide AddIf;
  }

  lemma ClearedEnd(A: seq<seq<bool>>, row: nat, p: seq<bool>, cols: nat)
    requires IsMat(A, cols) && |p| == cols && row < cols
    ensures ClearedUpTo(A, row, p, |A|, cols) == Cleared(A, row, p, cols)
  {
  }

  /** The matrix after n pivots, from the bits M. */
  ghost predicate Eliminated(m: seq<seq<int>>, M: seq<seq<bool>>, n: nat, width: nat) {
    && ByteMat(m, width) && |m| == |M| && IsMat(M, 8 * width) && n <= |M| <= 8 * width
    && Elim(M, n, 8 * width) == Systematic(MatBits(m, width))
  }

  /** One round of the loop over j. */
  method PivotRound(mat: array<seq<int>>, i: nat, j: nat, row: nat, ghost M: seq<seq<bool>>, ghost width: nat)
    returns (ok: bool)
    requires Eliminated(mat[..], M, row, width) && row == i * 8 + j && j < 8 && row < mat.Length
    modifies mat
    ensures ok ==> Eliminated(mat[..], M, row + 1, width)
    ensures !ok ==> Elim(M, row + 1, 8 * width).Singular?
  {
    hide Bytes, MatBits, Gather, Cleared, MaskOf, IsMat;
    ghost var A := MatBits(mat[..], width);
    CollectPivot(mat, i, j, row, width);
    ghost var p := Gather(A, row, |A|, 8 * width);
    ColumnBit(mat[..], row, i, j, width);
    MaskBit(mat[row][i], j);
    if MaskOf(mat[row][i], j) == 0 {
      return false;
    }
    ClearColumn(mat, i, j, row, A, width);
    ok := true;
  }

  /** The direct elimination of pk_gen.c; ok is false where the source returns -1. */
  method Eliminate(mat: array<seq<int>>, ghost M: seq<seq<bool>>, ghost width: nat) returns (ok: bool)
    requires ByteMat(mat[..], width) && mat.Length <= 8 * width && M == MatBits(mat[..], width)
    modifies mat
    ensures ok <==> Elim(M, |M|, 8 * width).Systematic?
    ensures ok ==> Eliminated(mat[..], M, |M|, width)
  {
    hide Bytes, MatBits, Gather, Cleared, MaskOf, ByteMat;
    var n := mat.Length;
    for i := 0 to (n + 7) / 8
      invariant Eliminated(mat[..], M, if 8 * i < n then 8 * i else n, width)
    {
      var j := 0;
      while j < 8
        invariant j <= 8 && Eliminated(mat[..], M, if 8 * i + j < n then 8 * i + j else n, width)
      {
        var row := i * 8 + j;
        if row >= n {
          break;
        }
        var found := PivotRound(mat, i, j, row, M, width);
        if !found {
          SingularLater(M, row + 1, n, 8 * width);
          return false;
        }
        j := j + 1;
      }
    }
    ok := true;
  }

  lemma {:induction false} SingularLater(M: seq<seq<bool>>, m: nat, n: nat, cols: nat)
    requires IsMat(M, cols) && m <= n <= |M| && n <= cols && Elim(M, m, cols).Singular?
    ensures Elim(M, n, cols).Singular?
  {
    if m < n {
      SingularLater(M, m, n - 1, cols);
    }
  }
}
