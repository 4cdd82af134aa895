/** The output bit string of controlbits.c: bit position pos is bit pos % 8 of byte pos / 8,
    and control bits are xored into the positions pos, pos+step, pos+2*step, ... */
module OutBits {
  import opened Bits
  import opened Network

  ghost predicate Bytes(s: seq<int>) {
    forall i :: 0 <= i < |s| ==> 0 <= s[i] < 256
  }

  /** 1 & (out[pos/8] >> (pos & 7)) */
  ghost predicate OutBit(s: seq<int>, pos: nat)
    requires Bytes(s) && pos < 8 * |s|
  {
    Bit(s[pos / 8], pos % 8)
  }

  /** The k with P = pos + step*k, or -1 when P is not in the progression. */
  function Index(pos: nat, step: nat, P: nat): int
    requires step > 0
  {
    if P >= pos && (P - pos) % step == 0 then (P - pos) / step else -1
  }

  /** The value of the progression bits, pos, step at position P; false outside the progression. */
  predicate Prog(bits: seq<bool>, pos: nat, step: nat, P: nat)
    requires step > 0
  {
    var k := Index(pos, step, P);
    0 <= k < |bits| && bits[k]
  }

  lemma OutBitAt(s: seq<int>, b: nat, i: nat)
    requires Bytes(s) && b < |s| && i < 8
    ensures 0 <= s[b] && OutBit(s, 8 * b + i) == Bit(s[b], i)
  {
    hide Bit;
    assert (8 * b + i) / 8 == b && (8 * b + i) % 8 == i;
  }

  /** Exactly the positions of the progression are toggled, each by its bit. */
  ghost predicate Toggled(before: seq<int>, after: seq<int>, bits: seq<bool>, pos: nat, step: nat)
    requires step > 0
  {
    && Bytes(before) && Bytes(after) && |after| == |before|
    && forall P :: 0 <= P < 8 * |before| ==> OutBit(after, P) == (OutBit(before, P) != Prog(bits, pos, step, P))
  }

  lemma IndexAt(pos: nat, step: nat, k: nat)
    requires step > 0
    ensures step * k >= 0 && Index(pos, step, pos + step * k) == k
  {
    MulLe(step, 0, k);
    DivUnique(step * k, step, k, 0);
  }

  lemma IndexIs(pos: nat, step: nat, P: nat)
    requires step > 0
    ensures Index(pos, step, P) >= -1
    ensures var k := Index(pos, step, P); k >= 0 ==> P == pos + step * k
  {
    if P >= pos {
      DivBasics(P - pos, step);
    }
  }

  lemma IndexShift(pos: nat, step: nat, m: nat, P: nat)
    requires step > 0
    ensures step * m >= 0
    ensures var k := Index(pos, step, P); Index(pos + step * m, step, P) == if k >= m then k - m else -1
  {
    var k, k' := Index(pos, step, P), Index(pos + step * m, step, P);
    MulLe(step, 0, m);
    IndexIs(pos, step, P);
    IndexIs(pos + step * m, step, P);
    if k >= m {
      assert step * k == step * m + step * (k - m);
      IndexAt(pos + step * m, step, k - m);
    } else if k' >= 0 {
      assert step * (m + k') == step * m + step * k';
      IndexAt(pos, step, m + k');
    }
  }

  lemma IndexDouble(pos: nat, step: nat, P: nat)
    requires step > 0
    ensures var k := Index(pos, step, P); Index(pos, 2 * step, P) == if k >= 0 && k % 2 == 0 then k / 2 else -1
  {
    hide Index;
    var k, j := Index(pos, step, P), Index(pos, 2 * step, P);
    IndexIs(pos, step, P);
    IndexIs(pos, 2 * step, P);
    if k >= 0 {
      TwiceStep(step, k);
      if k % 2 == 0 {
        IndexAt(pos, 2 * step, k / 2);
      } else if j >= 0 {
        TwiceStep(step, 2 * j);
        IndexAt(pos, step, 2 * j);
      }
    } else if j >= 0 {
      TwiceStep(step, 2 * j);
      IndexAt(pos, step, 2 * j);
    }
  }

  lemma TwiceStep(step: nat, k: nat)
    ensures step * k == (2 * step) * (k / 2) + if k % 2 == 0 then 0 else step
  {
    var h := k / 2;
    assert k == 2 * h + k % 2;
    DoubleFirst(step, h);
    if k % 2 == 0 {
      assert step * (2 * h) == 2 * (step * h);
    } else {
      assert step * (2 * h + 1) == 2 * (step * h) + step;
    }
  }

  /** The progression holds bit k at position pos + step*k and nothing anywhere else. */
  lemma ProgIff(bits: seq<bool>, pos: nat, step: nat, P: nat)
    requires step > 0
    ensures Prog(bits, pos, step, P) <==> exists k :: 0 <= k < |bits| && P == pos + step * k && bits[k]
  {
    hide Index;
    var k := Index(pos, step, P);
    IndexIs(pos, step, P);
    if j: nat :| j < |bits| && P == pos + step * j && bits[j] {
      IndexAt(pos, step, j);
    }
    if 0 <= k < |bits| && bits[k] {
      assert P == pos + step * k;
    }
  }

  /** The progression of a concatenation is the union of two progressions without common position. */
  lemma {:induction false} ProgConcat(u: seq<bool>, v: seq<bool>, pos: nat, step: nat, P: nat)
    requires step > 0
    ensures step * |u| >= 0
    ensures Prog(u + v, pos, step, P) == (Prog(u, pos, step, P) != Prog(v, pos + step * |u|, step, P))
  {
    hide Index;
    IndexShift(pos, step, |u|, P);
  }

  /** The progression of interleaved bits is the union of two progressions with twice the step. */
  lemma {:induction false} ProgInterleave(u: seq<bool>, v: seq<bool>, pos: nat, step: nat, P: nat)
    requires step > 0 && |u| == |v|
    ensures Prog(Interleave(u, v), pos, step, P) == (Prog(u, pos, 2 * step, P) != Prog(v, pos + step, 2 * step, P))
  {
    hide Index;
    IndexIs(pos, step, P);
    IndexDouble(pos, step, P);
    IndexShift(pos, step, 1, P);
    IndexDouble(pos + step, step, P);
  }

  // ---------- flattening layers ----------

  function Flat(ls: seq<seq<bool>>): seq<bool> {
    if ls == [] then [] else ls[0] + Flat(ls[1..])
  }

  lemma FlatConcat(a: seq<seq<bool>>, b: seq<seq<bool>>)
    ensures Flat(a + b) == Flat(a) + Flat(b)
  {
    if a == [] {
      assert a + b == b;
    } else {
      assert (a + b)[1..] == a[1..] + b;
      FlatConcat(a[1..], b);
    }
  }

  /** Bit i of layer t stands at position t*h+i. */
  lemma {:induction false} FlatAt(ls: seq<seq<bool>>, h: nat, t: nat, i: nat)
    requires forall k :: 0 <= k < |ls| ==> |ls[k]| == h
    requires t < |ls| && i < h
    ensures |Flat(ls)| == |ls| * h
    ensures 0 <= t * h + i < |Flat(ls)| && Flat(ls)[t * h + i] == ls[t][i]
  {
    FlatLength(ls, h);
    MulLe(h, t + 1, |ls|);
    MulLe(h, 0, t);
    if t > 0 {
      FlatAt(ls[1..], h, t - 1, i);
      assert t * h == h + (t - 1) * h;
    }
  }

  lemma FlatLength(ls: seq<seq<bool>>, h: nat)
    requires forall k :: 0 <= k < |ls| ==> |ls[k]| == h
    ensures |Flat(ls)| == |ls| * h
  {
    if ls != [] {
      FlatLength(ls[1..], h);
      assert |ls| * h == h + (|ls| - 1) * h;
    }
  }

  // ---------- one toggle ----------

  /** out[pos >> 3] ^= v << (pos & 7) */
  method XorOut(out: array<int>, pos: nat, v: nat)
    requires Bytes(out[..]) && pos < 8 * out.Length && v < 2
    modifies out
    ensures Toggled(old(out[..]), out[..], [v == 1], pos, 1)
  {
    ghost var before := out[..];
    ShiftedBit(v, pos % 8);
    XorBound(out[pos / 8], Shl(v, pos % 8), 8);
    out[pos / 8] := Xor(out[pos / 8], Shl(v, pos % 8));
    assert Bytes(out[..]);
    forall P | 0 <= P < 8 * |before|
      ensures OutBit(out[..], P) == (OutBit(before, P) != Prog([v == 1], pos, 1, P))
    {
      if P / 8 == pos / 8 {
        XoredBit(before[pos / 8], v, pos % 8, P % 8);
      }
    }
  }

  lemma ShiftedBit(v: nat, i: nat)
    requires v < 2 && i < 8
    ensures Shl(v, i) < Pow2(8) == 256
  {
    Pow2Values();
    Pow2Mono(i, 7);
    Pow2Add(1, 7);
    MulLe(Pow2(i), v, 1);
  }

  lemma XoredBit(b: nat, v: nat, i: nat, j: nat)
    requires v < 2
    ensures Bit(Xor(b, Shl(v, i)), j) == (Bit(b, j) != (v == 1 && i == j))
  {
    Bits.XorBit(b, Shl(v, i), j);
    BitShl(v, i, j);
    if j > i {
      BitHigh(v, 1, j - i);
    }
  }

  lemma ToggledBytes(s0: seq<int>, s1: seq<int>, bits: seq<bool>, pos: nat, step: nat)
    requires step > 0 && Toggled(s0, s1, bits, pos, step)
    ensures Bytes(s0) && Bytes(s1) && |s1| == |s0|
  {
  }

  /** Toggling the next bit of a progression. */
  lemma {:induction false} ToggleNext(s0: seq<int>, s1: seq<int>, s2: seq<int>, bits: seq<bool>, k: nat, pos: nat,
      step: nat)
    requires step > 0 && k < |bits|
    requires step * k >= 0 && Toggled(s0, s1, bits[..k], pos, step) && Toggled(s1, s2, [bits[k]], pos + step * k, 1)
    ensures Toggled(s0, s2, bits[..k + 1], pos, step)
  {
    hide Index;
    forall P | 0 <= P < 8 * |s0|
      ensures OutBit(s2, P) == (OutBit(s0, P) != Prog(bits[..k + 1], pos, step, P))
    {
      IndexIs(pos, step, P);
      IndexIs(pos + step * k, 1, P);
      IndexAt(pos, step, k);
      IndexAt(pos + step * k, 1, 0);
    }
  }

  lemma ToggleNone(s: seq<int>, pos: nat, step: nat)
    requires step > 0 && Bytes(s)
    ensures Toggled(s, s, [], pos, step)
  {
  }

  /** The four parts of one level of the recursion: first layer, last layer, and the two halves between them. */
  lemma {:induction false} ToggleParts(s0: seq<int>, s1: seq<int>, s2: seq<int>, s3: seq<int>, s4: seq<int>,
                                       f: seq<bool>, a: seq<bool>, b: seq<bool>, l: seq<bool>, pos: nat, step: nat,
                                       posM: nat, posL: nat)
    requires step > 0 && |a| == |b|
    requires posM == pos + step * |f| && posL == posM + step * (2 * |a|)
    requires Toggled(s0, s1, f, pos, step) && Toggled(s1, s2, l, posL, step)
    requires Toggled(s2, s3, a, posM, 2 * step) && Toggled(s3, s4, b, posM + step, 2 * step)
    ensures Toggled(s0, s4, f + Interleave(a, b) + l, pos, step)
  {
    var m := Interleave(a, b);
    assert f + m + l == f + (m + l);
    forall P | 0 <= P < 8 * |s0|
      ensures OutBit(s4, P) == (OutBit(s0, P) != Prog(f + (m + l), pos, step, P))
    {
      hide Prog, OutBit;
      ProgConcat(f, m + l, pos, step, P);
      ProgConcat(m, l, posM, step, P);
      ProgInterleave(a, b, posM, step, P);
    }
  }
}
