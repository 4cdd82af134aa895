/** versat_mceliece.c: the elimination with the row operations pipelined through the McEliece accelerator.
    The accelerator is the one hardware assumption: configuration takes effect when a run starts, and each run
    combines the row read by the run before, writes back the row combined by the run before, and reads a row. */
module VersatElimination {
  import opened Bits
  import opened OutBits
  import opened LittleEndian
  import opened BitMatrix
  import opened Elimination

  // ---------- the data path ----------

  /** a ^ (b & mask) on 32-bit words: byte c meets byte c % 4 of the mask constant. */
  function Combine(a: seq<int>, b: seq<int>, maskInt: nat): (r: seq<int>)
    requires |a| == |b| && (forall c :: 0 <= c < |a| ==> 0 <= a[c] && 0 <= b[c])
    ensures |r| == |a|
  {
    seq(|a|, c requires 0 <= c < |a| => Xor(a[c], And(b[c], ByteOf(maskInt, c % 4))))
  }

  lemma CombineBytes(a: seq<int>, b: seq<int>, maskInt: nat)
    requires Bytes(a) && Bytes(b) && |a| == |b|
    ensures Bytes(Combine(a, b, maskInt))
  {
    hide ByteOf, Xor, And;
    forall c | 0 <= c < |a|
      ensures 0 <= Combine(a, b, maskInt)[c] < 256
    {
      var m := And(b[c], ByteOf(maskInt, c % 4));
      AndBound(b[c], ByteOf(maskInt, c % 4));
      SmallPowers();
      XorBound(a[c], m, 8);
    }
  }

  /** mask | mask << 8 | mask << 16 | mask << 24 */
  function Replicate(mask: nat): nat {
    Or(Or(Or(mask, Shl(mask, 8)), Shl(mask, 16)), Shl(mask, 24))
  }

  lemma ReplicateByte(mask: nat, m: nat)
    requires mask < 256 && m < 4
    ensures ByteOf(Replicate(mask), m) == mask
  {
    hide Bit, Or, Shl, ByteOf;
    SmallPowers();
    forall i | 0 <= i < 8
      ensures Bit(ByteOf(Replicate(mask), m), i) == Bit(mask, i)
    {
      ByteBit(Replicate(mask), m, i);
      ReplicateBit(mask, m, i);
    }
    BitExt(ByteOf(Replicate(mask), m), mask, 8);
  }

  lemma ReplicateBit(mask: nat, m: nat, i: nat)
    requires mask < Pow2(8) && m < 4 && i < 8
    ensures Bit(Replicate(mask), 8 * m + i) == Bit(mask, i)
  {
    hide Bit, Or, Shl;
    var x := 8 * m + i;
    var u := Or(mask, Shl(mask, 8));
    OrBit(Or(u, Shl(mask, 16)), Shl(mask, 24), x);
    OrBit(u, Shl(mask, 16), x);
    OrBit(mask, Shl(mask, 8), x);
    BitShl(mask, 8, x);
    BitShl(mask, 16, x);
    BitShl(mask, 24, x);
    forall y | 8 <= y
      ensures !Bit(mask, y)
    {
      BitHigh(mask, 8, y);
    }
  }

  lemma CombineReplicated(a: seq<int>, b: seq<int>, mask: nat)
    requires Bytes(a) && Bytes(b) && |a| == |b| && mask < 256
    ensures Combine(a, b, Replicate(mask)) == XorMasked(a, b, mask)
  {
    hide ByteOf, Xor, And, Replicate;
    forall c | 0 <= c < |a|
      ensures Combine(a, b, Replicate(mask))[c] == XorMasked(a, b, mask)[c]
    {
      ReplicateByte(mask, c % 4);
    }
  }

  // ---------- the order of the rows ----------

  /** The row before x, skipping the pivot row: how toCompute and toWrite are found. */
  function Prev(x: int, row: nat): int { if x - 1 == row then x - 2 else x - 1 }

  lemma PrevBefore(x: int, row: nat)
    ensures Prev(x, row) < x && Prev(x, row) != row
  {
  }

  /** All rows up to w except the pivot row, in order. */
  ghost function Others(row: nat, w: int): seq<int>
    decreases if w < 0 then 0 else w + 1
  {
    if w < 0 then [] else Others(row, Prev(w, row)) + [w]
  }

  /** How many rows other than the pivot row come before k. */
  function Before(k: nat, row: nat): nat { if k > row then k - 1 else k }

  lemma PrevSteps(k: nat, row: nat)
    ensures k == row ==> Prev(k + 1, row) == Prev(k, row) && Before(k + 1, row) == Before(k, row)
    ensures k != row ==> Prev(k + 1, row) == k && Before(k + 1, row) == Before(k, row) + 1
    ensures k != row ==> (Before(k, row) >= 1 <==> Prev(k, row) >= 0)
    ensures k != row ==> (Before(k, row) >= 2 <==> Prev(Prev(k, row), row) >= 0)
    ensures var w := Prev(Prev(k, row), row);
            Others(row, w) == if w < 0 then Others(row, Prev(w, row)) else Others(row, Prev(w, row)) + [w]
  {
  }

  lemma PrevStart(row: nat)
    ensures Prev(0, row) == -1 && Before(0, row) == 0 && Others(row, Prev(Prev(-1, row), row)) == []
  {
  }

  /** Others lists every row up to w but the pivot row, once, in increasing order. */
  lemma {:induction false} OthersOnce(row: nat, w: int)
    requires w != row
    ensures forall x :: x in Others(row, w) <==> 0 <= x <= w && x != row
    ensures forall i, j :: 0 <= i < j < |Others(row, w)| ==> Others(row, w)[i] < Others(row, w)[j]
    decreases if w < 0 then 0 else w + 1
  {
    if w >= 0 {
      OthersOnce(row, Prev(w, row));
      var o := Others(row, Prev(w, row));
      forall i | 0 <= i < |o|
        ensures o[i] < w
      {
        assert o[i] in o;
      }
    }
  }

  lemma {:induction false} ClearedWrite(A: seq<seq<bool>>, row: nat, p: seq<bool>, w: int, cols: nat)
    requires IsMat(A, cols) && |p| == cols && row < cols && row < |A| && w < |A| && w != row
    ensures var C := ClearedUpTo(A, row, p, Prev(w, row) + 1, cols);
            ClearedUpTo(A, row, p, w + 1, cols) == if w < 0 then C else C[w := ClearedRow(A, row, p, w, cols)]
  {
    hide ClearedRow;
  }

  lemma ClearedLater(A: seq<seq<bool>>, row: nat, p: seq<bool>, w: int, k: nat, cols: nat)
    requires IsMat(A, cols) && |p| == cols && row < cols && row < |A| && k < |A| && w < k && k != row
    ensures ClearedUpTo(A, row, p, w + 1, cols)[k] == A[k]
  {
  }

  /** Rows that are not yet written are read as they were before the pivot. */
  lemma ReadAhead(m: seq<seq<int>>, A: seq<seq<bool>>, p: seq<bool>, row: nat, w: int, k: nat, width: nat)
    requires ByteMat(m, width) && IsMat(A, 8 * width) && |p| == 8 * width && row < 8 * width && row < |A|
    requires MatBits(m, width) == ClearedUpTo(A, row, p, Prev(w, row) + 1, 8 * width) && w < k && k != row
    ensures k < |A| ==> Bytes(m[k]) && |m[k]| == width && RowBits(m[k]) == A[k]
  {
    hide ClearedRow, RowBits;
    if k < |A| {
      assert MatBits(m, width)[k] == RowBits(m[k]);
    }
  }

  /** Writing the combined row back extends the part that is done. */
  lemma WriteBack(m: seq<seq<int>>, A: seq<seq<bool>>, p: seq<bool>, row: nat, w: int, combined: seq<int>, width: nat)
    requires ByteMat(m, width) && IsMat(A, 8 * width) && |p| == 8 * width && row < 8 * width && row < |A|
    requires MatBits(m, width) == ClearedUpTo(A, row, p, Prev(w, row) + 1, 8 * width) && w < |A| && w != row
    requires Bytes(combined) && |combined| == width
    requires 0 <= w ==> RowBits(combined) == ClearedRow(A, row, p, w, 8 * width)
    ensures w < 0 ==> MatBits(m, width) == ClearedUpTo(A, row, p, w + 1, 8 * width)
    ensures w >= 0 ==> ByteMat(m[w := combined], width) &&
                       MatBits(m[w := combined], width) == ClearedUpTo(A, row, p, w + 1, 8 * width)
  {
    hide ClearedRow, RowBits, MatBits, ClearedUpTo, Prev;
    ClearedWrite(A, row, p, w, 8 * width);
    if w >= 0 {
      MatBitsUpdate(m, w, combined, width);
    }
  }

  // ---------- the accelerator and its driver ----------

  class McElieceUnit {
    const width: nat

    // configuration registers: row.enableRead, row.ext_addr, mask.constant, mat.in0_wr, writer.enableWrite,
    // writer.ext_addr
    var readEnabled: bool
    var readRow: nat
    var maskConstant: nat
    var matWrite: bool
    var writeEnabled: bool
    var writeRow: nat

    // contents of the unit: the mat memory, the row read and the row combined by the last run
    var mat: seq<int>
    var rowData: seq<int>
    var combined: seq<int>

    // the static variables savedMask of the two loop functions
    var savedMask1: nat
    var savedMask2: nat

    // the rows written back so far
    ghost var written: seq<int>

    ghost predicate Valid()
      reads this
    {
      && |mat| == |rowData| == |combined| == width
      && Bytes(mat) && Bytes(rowData) && Bytes(combined)
    }

    /** Between two pivots nothing is pending. */
    ghost predicate Idle()
      reads this
    {
      Valid() && savedMask1 == 0 && !writeEnabled
    }

    constructor (width: nat)
      ensures this.width == width && Idle()
    {
      this.width := width;
      readEnabled, matWrite, writeEnabled := false, false, false;
      readRow, writeRow, maskConstant, savedMask1, savedMask2 := 0, 0, 0, 0, 0;
      mat, rowData, combined := seq(width, _ => 0), seq(width, _ => 0), seq(width, _ => 0);
      written := [];
    }

    /** One run. What the row unit holds after a run without a read is not determined. */
    method StartAccelerator(memory: array<seq<int>>)
      requires Valid() && ByteMat(memory[..], width)
      requires readEnabled ==> readRow < memory.Length
      requires writeEnabled ==> writeRow < memory.Length && (readEnabled ==> readRow != writeRow)
      modifies memory, this`mat, this`rowData, this`combined, this`written
      ensures Valid() && ByteMat(memory[..], width)
      ensures mat == if matWrite then Combine(old(mat), old(rowData), maskConstant) else old(mat)
      ensures combined == Combine(old(rowData), old(mat), maskConstant)
      ensures readEnabled ==> rowData == old(memory[readRow])
      ensures memory[..] == if writeEnabled then old(memory[..])[writeRow := old(combined)] else old(memory[..])
      ensures written == if writeEnabled then old(written) + [writeRow] else old(written)
    {
      hide Combine;
      CombineBytes(mat, rowData, maskConstant);
      CombineBytes(rowData, mat, maskConstant);
      var b := Combine(mat, rowData, maskConstant);
      var d := Combine(rowData, mat, maskConstant);
      var junk: seq<int> := *;
      var next := if readEnabled then memory[readRow]
                  else if |junk| == width && Plausible(junk) then junk else rowData;
      if writeEnabled {
        memory[writeRow] := combined;
        written := written + [writeRow];
      }
      if matWrite {
        mat := b;
      }
      rowData, combined := next, d;
    }

    predicate Plausible(s: seq<int>)
      ensures Plausible(s) ==> Bytes(s)
    {
      forall i :: 0 <= i < |s| ==> 0 <= s[i] < 256
    }

    /** VersatMcElieceLoop1 */
    method Loop1(memory: array<seq<int>>, k: nat, mask: nat, first: bool)
      requires Valid() && !writeEnabled && ByteMat(memory[..], width) && k < memory.Length
      requires savedMask1 < 256
      modifies memory, this
      ensures Valid() && !writeEnabled && memory[..] == old(memory[..]) && written == old(written)
      ensures rowData == memory[k] && savedMask1 == mask && savedMask2 == old(savedMask2)
      ensures mat == if first then old(mat) else XorMasked(old(mat), old(rowData), old(savedMask1))
    {
      hide Combine, XorMasked, Replicate, ByteMat;
      readEnabled, readRow := true, k;
      if first {
        matWrite := false;
      } else {
        CombineReplicated(mat, rowData, savedMask1);
        maskConstant := Replicate(savedMask1);
        matWrite := true;
      }
      StartAccelerator(memory);
      savedMask1 := mask;
    }

    /** After the call of VersatMcElieceLoop2 for row k: row k is read, the row before it is combined, the row
        before that one and all earlier rows are written. A is the matrix before the pivot, p the pivot row. */
    ghost predicate Pipeline(memory: seq<seq<int>>, A: seq<seq<bool>>, p: seq<bool>, row: nat, k: int)
      reads this
    {
      && Valid() && ByteMat(memory, width) && |memory| == |A| && IsMat(A, 8 * width) && |p| == 8 * width
      && row < |A| <= 8 * width && k != row && savedMask2 < 256
      && (k < |A| ==> RowBits(mat) == p)
      && MatBits(memory, width) == ClearedUpTo(A, row, p, Prev(Prev(k, row), row) + 1, 8 * width)
      && (0 <= k < |A| ==> RowBits(rowData) == A[k] && savedMask2 == if A[k][row] then 255 else 0)
      && (0 <= Prev(k, row) < |A| ==> RowBits(combined) == ClearedRow(A, row, p, Prev(k, row), 8 * width))
    }

    /** What the run for row k reads, combines and writes. */
    lemma RunFacts(memory: seq<seq<int>>, A: seq<seq<bool>>, p: seq<bool>, row: nat, k: nat)
      requires Pipeline(memory, A, p, row, Prev(k, row)) && k != row && k <= |A| + 1
      ensures var c := Prev(k, row); var w := Prev(c, row);
              && w < c < k && w < |A| && w != row && c != row
              && (k < |A| ==> RowBits(memory[k]) == A[k])
              && (0 <= c < |A| ==> var d := Combine(rowData, mat, Replicate(savedMask2));
                                   Bytes(d) && RowBits(d) == ClearedRow(A, row, p, c, 8 * width))
              && (w < 0 ==> MatBits(memory, width) == ClearedUpTo(A, row, p, w + 1, 8 * width))
              && (w >= 0 ==> ByteMat(memory[w := combined], width) &&
                             MatBits(memory[w := combined], width) == ClearedUpTo(A, row, p, w + 1, 8 * width))
    {
      hide Combine, Replicate, MatBits, RowBits, ClearedUpTo, ClearedRow, Bytes, IsMat, Prev;
      var c := Prev(k, row);
      PrevBefore(k, row);
      PrevBefore(c, row);
      ReadAhead(memory, A, p, row, Prev(c, row), k, width);
      WriteBack(memory, A, p, row, Prev(c, row), combined, width);
      if 0 <= c < |A| {
        CombineClears(A, row, p, c, rowData, mat, savedMask2, width);
      }
    }

    /** VersatMcElieceLoop2 */
    method Loop2(memory: array<seq<int>>, timesCalled: nat, k: nat, row: nat, mask: nat,
                 ghost A: seq<seq<bool>>, ghost p: seq<bool>)
      requires Pipeline(memory[..], A, p, row, Prev(k, row)) && k != row && k <= memory.Length + 1
      requires timesCalled >= 1 <==> Prev(k, row) >= 0
      requires timesCalled >= 2 <==> Prev(Prev(k, row), row) >= 0
      requires mask < 256 && (k < memory.Length ==> mask == if A[k][row] then 255 else 0)
      modifies memory, this
      ensures Pipeline(memory[..], A, p, row, k)
      ensures var w := Prev(Prev(k, row), row); written == if w >= 0 then old(written) + [w] else old(written)
      ensures savedMask1 == old(savedMask1)
    {
      hide Combine, XorMasked, Replicate, ByteMat, MatBits, RowBits, ClearedUpTo, ClearedRow, Bytes, IsMat, AddIf, Prev;
      RunFacts(memory[..], A, p, row, k);
      Configure(memory.Length, timesCalled, k, row);
      StartAccelerator(memory);
      savedMask2 := mask;
    }

    /** The configuration that VersatMcElieceLoop2 writes before it starts the accelerator. */
    method Configure(n: nat, timesCalled: nat, k: nat, row: nat)
      requires timesCalled >= 1 <==> Prev(k, row) >= 0
      requires timesCalled >= 2 <==> Prev(Prev(k, row), row) >= 0
      modifies this`matWrite, this`readEnabled, this`readRow, this`maskConstant, this`writeEnabled, this`writeRow
      ensures readEnabled == (k < n) && (k < n ==> readRow == k && !matWrite)
      ensures k >= n ==> matWrite == old(matWrite)
      ensures 0 <= Prev(k, row) < n ==> maskConstant == Replicate(savedMask2)
      ensures var w := Prev(Prev(k, row), row); writeEnabled == (w >= 0) && (w >= 0 ==> writeRow == w)
    {
      hide Replicate, Prev;
      var toRead: int := k;
      var toCompute := Prev(toRead, row);
      var toWrite := Prev(toCompute, row);
      if toRead < n {
        matWrite := false;
        readEnabled, readRow := true, toRead;
      } else {
        readEnabled := false;
      }
      if timesCalled >= 1 && toCompute >= 0 && toCompute < n {
        maskConstant := Replicate(savedMask2);
      } else {
        writeEnabled := false;
      }
      if timesCalled >= 2 && toWrite >= 0 {
        writeEnabled, writeRow := true, toWrite;
      } else {
        writeEnabled := false;
      }
    }

    /** The loop over k that collects the pivot row in the mat memory of the unit, with its pivot byte kept
        up to date in memory, and the last run. */
    method CollectPivot(memory: array<seq<int>>, i: nat, j: nat, row: nat)
      requires Idle() && ByteMat(memory[..], width) && row == i * 8 + j && j < 8 && row < memory.Length <= 8 * width
      modifies memory, this
      ensures Idle() && ByteMat(memory[..], width)
      ensures memory[..] == old(memory[..])[row := memory[row]] && written == old(written)
      ensures savedMask2 == old(savedMask2)
      ensures var A := old(MatBits(memory[..], width)); var p := Gather(A, row, |A|, 8 * width);
              RowBits(mat) == p && 0 <= memory[row][i] && Bit(memory[row][i], j) == p[row]
    {
      hide XorMasked, MatBits, RowBits, AddIf, MaskOf, Bit, Xor, And;
      ghost var A, was := MatBits(memory[..], width), memory[..];
      mat := memory[row];
      MatBitsRow(was, row, width);
      GatherStart(A, row, 8 * width);
      ColumnBit(was, row, i, j, width);
      var first := true;
      for k := row + 1 to memory.Length
        invariant first == (k == row + 1)
        invariant Valid() && !writeEnabled && ByteMat(memory[..], width)
        invariant written == old(written) && savedMask2 == old(savedMask2)
        invariant memory[..] == was[row := memory[row]]
        invariant 0 <= memory[row][i] && Bit(memory[row][i], j) == Gather(A, row, k, 8 * width)[row]
        invariant first ==> savedMask1 == 0 && RowBits(mat) == A[row]
        invariant !first ==> rowData == was[k - 1] && RowBits(mat) == Gather(A, row, k - 1, 8 * width)
        invariant !first ==> savedMask1 == if Gather(A, row, k - 1, 8 * width)[row] != A[k - 1][row] then 255 else 0
      {
        ColumnBit(was, k, i, j, width);
        XorBit(memory[row][i], memory[k][i], j);
        var mask := Xor(memory[row][i], memory[k][i]);
        MaskBit(mask, j);
        mask := MaskOf(mask, j);
        if !first {
          PipelineCombine(A, was, mat, rowData, savedMask1, row, k - 1, width);
        }
        Loop1(memory, k, mask, first);
        GatherNext(A, row, k, 8 * width);
        PivotByte(memory[row][i], memory[k][i], mask, j);
        AddIfAt(Gather(A, row, k, 8 * width), A[k], mask == 255, row);
        memory[row] := memory[row][i := Xor(memory[row][i], And(memory[k][i], mask))];
        first := false;
      }
      if first {
        XorMaskedBits(mat, rowData, savedMask1);
        AddIfNot(A[row], RowBits(rowData));
      } else {
        PipelineCombine(A, was, mat, rowData, savedMask1, row, memory.Length - 1, width);
      }
      Loop1(memory, memory.Length - 1, 0, false);
    }

    /** The loop over k that clears the pivot column in the other rows, and the two runs that drain the pipeline. */
    method ClearColumn(memory: array<seq<int>>, i: nat, j: nat, row: nat, ghost A: seq<seq<bool>>)
      requires Idle() && ByteMat(memory[..], width) && row == i * 8 + j && j < 8 && row < memory.Length <= 8 * width
      requires IsMat(A, 8 * width) && |A| == memory.Length
      requires MatBits(memory[..], width) == A[row := RowBits(mat)] && savedMask2 < 256
      modifies memory, this
      ensures Idle() && ByteMat(memory[..], width) && savedMask2 < 256
      ensures MatBits(memory[..], width) == Cleared(A, row, old(RowBits(mat)), 8 * width)
      ensures written == old(written) + Others(row, Prev(memory.Length, row))
    {
      hide MatBits, RowBits, ClearedUpTo, ClearedRow, MaskOf, Bit, IsMat, Cleared, Bytes, Prev, Before, Others;
      hide Pipeline;
      ghost var p, base := RowBits(mat), written;
      PipelineStart(memory[..], A, p, row);
      PrevStart(row);
      var index := 0;
      for k := 0 to memory.Length
        invariant index == Before(k, row) && savedMask1 == 0
        invariant Pipeline(memory[..], A, p, row, Prev(k, row))
        invariant written == base + Others(row, Prev(Prev(Prev(k, row), row), row))
      {
        PrevSteps(k, row);
        if k != row {
          PipelineRow(memory[..], A, p, row, k);
          ColumnBit(memory[..], k, i, j, width);
          assert 0 <= memory[k][i] < 256;
          MaskBit(memory[k][i], j);
          var mask := MaskOf(memory[k][i], j);
          Loop2(memory, index, k, row, mask, A, p);
          index := index + 1;
        }
      }
      PrevSteps(memory.Length, row);
      Loop2(memory, index, memory.Length, row, 0, A, p);
      index := index + 1;
      PrevSteps(memory.Length + 1, row);
      Loop2(memory, index, memory.Length + 1, row, 0, A, p);
      PipelineEnd(memory[..], A, p, row);
      writeEnabled := false;
    }

    lemma PipelineStart(memory: seq<seq<int>>, A: seq<seq<bool>>, p: seq<bool>, row: nat)
      requires Valid() && ByteMat(memory, width) && |memory| == |A| && IsMat(A, 8 * width) && p == RowBits(mat)
      requires row < |A| <= 8 * width && MatBits(memory, width) == A[row := p] && savedMask2 < 256
      ensures Pipeline(memory, A, p, row, -1)
    {
      hide MatBits, RowBits;
    }

    lemma PipelineRow(memory: seq<seq<int>>, A: seq<seq<bool>>, p: seq<bool>, row: nat, k: nat)
      requires Pipeline(memory, A, p, row, Prev(k, row)) && k < |A| && k != row
      ensures ByteMat(memory, width) && MatBits(memory, width)[k] == A[k]
    {
      hide MatBits, RowBits, ClearedUpTo, ClearedRow;
      ClearedLater(A, row, p, Prev(Prev(Prev(k, row), row), row), k, 8 * width);
    }

    lemma PipelineEnd(memory: seq<seq<int>>, A: seq<seq<bool>>, p: seq<bool>, row: nat)
      requires Pipeline(memory, A, p, row, |A| + 1) && row < |A|
      ensures Valid() && ByteMat(memory, width) && IsMat(A, 8 * width) && |p| == 8 * width && savedMask2 < 256
      ensures MatBits(memory, width) == Cleared(A, row, p, 8 * width)
    {
      hide MatBits, RowBits, ClearedUpTo, ClearedRow, Cleared, Bytes, IsMat;
      ClearedLast(A, row, p, 8 * width);
    }

    /** One round of the loop over j. */
    method PivotRound(memory: array<seq<int>>, i: nat, j: nat, row: nat, ghost M: seq<seq<bool>>) returns (ok: bool)
      requires Idle() && savedMask2 < 256
      requires Eliminated(memory[..], M, row, width) && row == i * 8 + j && j < 8 && row < memory.Length
      modifies memory, this
      ensures Idle() && savedMask2 < 256
      ensures ok ==> Eliminated(memory[..], M, row + 1, width)
      ensures ok ==> written == old(written) + Others(row, Prev(memory.Length, row))
      ensures !ok ==> Elim(M, row + 1, 8 * width).Singular? && written == old(written)
    {
      hide MatBits, RowBits, Gather, Cleared, MaskOf, IsMat, Bit, Bytes;
      ghost var A, was := MatBits(memory[..], width), memory[..];
      CollectPivot(memory, i, j, row);
      MaskBit(memory[row][i], j);
      if MaskOf(memory[row][i], j) == 0 {
        return false;
      }
      memory[row] := mat;
      MatBitsUpdate(was, row, mat, width);
      assert memory[..] == was[row := mat];
      ClearColumn(memory, i, j, row, A);
      ok := true;
    }

    /** The elimination of Versat_pk_gen: same status and same matrix as the direct one. */
    method Eliminate(memory: array<seq<int>>, ghost M: seq<seq<bool>>) returns (ok: bool)
      requires Idle() && savedMask2 < 256
      requires ByteMat(memory[..], width) && memory.Length <= 8 * width && M == MatBits(memory[..], width)
      modifies memory, this
      ensures Idle() && savedMask2 < 256
      ensures ok <==> Elim(M, |M|, 8 * width).Systematic?
      ensures ok ==> Eliminated(memory[..], M, |M|, width)
    {
      hide Bytes, MatBits, Gather, Cleared, MaskOf, ByteMat, Idle;
      var n := memory.Length;
      for i := 0 to (n + 7) / 8
        invariant Idle() && savedMask2 < 256
        invariant Eliminated(memory[..], M, if 8 * i < n then 8 * i else n, width)
      {
        var j := 0;
        while j < 8
          invariant j <= 8 && Idle() && savedMask2 < 256
          invariant Eliminated(memory[..], M, if 8 * i + j < n then 8 * i + j else n, width)
        {
          var row := i * 8 + j;
          if row >= n {
            break;
          }
          var found := PivotRound(memory, i, j, row, M);
          if !found {
            SingularLater(M, row + 1, n, 8 * width);
            return false;
          }
          j := j + 1;
        }
      }
      ok := true;
    }
  }

  // ---------- lemmas for the driver ----------

  lemma MatBitsRow(m: seq<seq<int>>, r: int, width: nat)
    requires ByteMat(m, width)
    ensures 0 <= r < |m| ==> Bytes(m[r]) && |m[r]| == width && MatBits(m, width)[r] == RowBits(m[r])
  {
  }

  /** The run after the next one writes back row k with its pivot column cleared. */
  lemma CombineClears(A: seq<seq<bool>>, row: nat, p: seq<bool>, k: nat, rowData: seq<int>, mat: seq<int>,
                      mask: nat, width: nat)
    requires IsMat(A, 8 * width) && |p| == 8 * width && row < 8 * width && k < |A| && k != row
    requires Bytes(rowData) && Bytes(mat) && |rowData| == |mat| == width
    requires RowBits(mat) == p && RowBits(rowData) == A[k] && mask == if A[k][row] then 255 else 0
    ensures Bytes(Combine(rowData, mat, Replicate(mask)))
    ensures RowBits(Combine(rowData, mat, Replicate(mask))) == ClearedRow(A, row, p, k, 8 * width)
  {
    hide Combine, XorMasked, RowBits, AddIf, Replicate;
    CombineReplicated(rowData, mat, mask);
    XorMaskedBits(rowData, mat, mask);
  }

  lemma ClearedLast(A: seq<seq<bool>>, row: nat, p: seq<bool>, cols: nat)
    requires IsMat(A, cols) && |p| == cols && row < cols && row < |A|
    ensures ClearedUpTo(A, row, p, Prev(|A|, row) + 1, cols) == Cleared(A, row, p, cols)
  {
  }

  /** The run for the next row adds row k to the collected pivot row. */
  lemma PipelineCombine(A: seq<seq<bool>>, was: seq<seq<int>>, mat: seq<int>, rowData: seq<int>, mask: nat,
                        row: nat, k: nat, width: nat)
    requires ByteMat(was, width) && A == MatBits(was, width) && row < k < |A| && row < 8 * width
    requires Bytes(mat) && |mat| == width && RowBits(mat) == Gather(A, row, k, 8 * width) && rowData == was[k]
    requires mask == if Gather(A, row, k, 8 * width)[row] != A[k][row] then 255 else 0
    ensures Bytes(rowData) && |rowData| == width
    ensures Bytes(XorMasked(mat, rowData, mask))
    ensures RowBits(XorMasked(mat, rowData, mask)) == Gather(A, row, k + 1, 8 * width)
  {
    hide XorMasked, RowBits, AddIf, MatBits;
    MatBitsRow(was, k, width);
    XorMaskedBits(mat, rowData, mask);
    GatherNext(A, row, k, 8 * width);
  }

  /** The pivot byte computed beside the accelerator. */
  lemma PivotByte(a: nat, b: nat, mask: nat, j: nat)
    requires a < 256 && b < 256 && (mask == 0 || mask == 255)
    ensures Xor(a, And(b, mask)) < 256
    ensures Bit(Xor(a, And(b, mask)), j) == (Bit(a, j) != (mask == 255 && Bit(b, j)))
  {
    MaskedByte(a, b, mask);
    XorBit(a, b, j);
  }

  lemma AddIfAt(a: seq<bool>, b: seq<bool>, m: bool, c: nat)
    requires |a| == |b| && c < |a|
    ensures AddIf(a, b, m)[c] == (a[c] != (m && b[c]))
  {
  }

  lemma AddIfNot(a: seq<bool>, b: seq<bool>)
    requires |a| == |b|
    ensures AddIf(a, b, false) == a
  {
  }
}
