/** When the while (1) loop of controlbitsfrompermutation ends, for all permutations of a given width. */
module ControlBitsLoop {
  import opened Bits
  import opened Permutation
  import opened Network
  import opened OutBits
  import opened ControlBits
  import opened ControlBitsCheck

  /** The number with the given bits, lowest first. */
  function Number(bits: seq<bool>): nat {
    if bits == [] then 0 else B2N(bits[0]) + 2 * Number(bits[1..])
  }

  lemma {:induction false} NumberBit(bits: seq<bool>, i: nat)
    requires i < |bits|
    ensures Number(bits) < Pow2(|bits|) && Bit(Number(bits), i) == bits[i]
  {
    NumberBound(bits);
    if i > 0 {
      NumberBit(bits[1..], i - 1);
      assert Number(bits) / 2 == Number(bits[1..]);
    }
  }

  lemma NumberBound(bits: seq<bool>)
    ensures Number(bits) < Pow2(|bits|)
  {
  }

  /** The byte string that cbrecursion leaves for the layers ls. */
  ghost function Stored(ls: seq<seq<bool>>, w: nat): (out: seq<int>)
    requires IsControl(ls, w)
    ensures |out| == OutSize(w)
  {
    OutSizePositive(w);
    seq(OutSize(w), b requires 0 <= b < OutSize(w) => Number(StoredBits(Flat(ls), b)))
  }

  function StoredBits(bits: seq<bool>, b: nat): (r: seq<bool>)
    ensures |r| == 8
  {
    seq(8, i requires 0 <= i < 8 => 8 * b + i < |bits| && bits[8 * b + i])
  }

  lemma {:induction false} StoredBit(ls: seq<seq<bool>>, w: nat, P: nat)
    requires IsControl(ls, w) && P < 8 * OutSize(w)
    ensures Bytes(Stored(ls, w)) && OutBit(Stored(ls, w), P) == (P < |Flat(ls)| && Flat(ls)[P])
  {
    hide Bit, Number, Flat;
    SmallPowers();
    forall b | 0 <= b < OutSize(w)
      ensures 0 <= Stored(ls, w)[b] < 256
    {
      NumberBit(StoredBits(Flat(ls), b), 0);
    }
    NumberBit(StoredBits(Flat(ls), P / 8), P % 8);
  }

  lemma {:induction false} StoredHolds(p: seq<nat>, w: nat)
    requires w > 0 && IsPerm(p) && |p| == Pow2(w)
    ensures Holds(Stored(Control(p, w), w), p, w)
  {
    hide Flat, Stored, Control, OutSize;
    var ls := Control(p, w);
    var out := Stored(ls, w);
    OutSizePositive(w);
    LayerStart(w, 0, OutSize(w));
    StoredBit(ls, w, 0);
    forall t, i | 0 <= t < 2 * w - 1 && 0 <= i < Pow2(w - 1)
      ensures HeldAt(out, ls, w, t, i)
    {
      LayerStart(w, t, |out|);
      FlatAt(ls, Pow2(w - 1), t, i);
      MulLe(Pow2(w - 1), t + 1, 2 * w - 1);
      assert (t + 1) * Pow2(w - 1) == t * Pow2(w - 1) + Pow2(w - 1);
      StoredBit(ls, w, t * Pow2(w - 1) + i);
    }
  }

  /** The loop ends, and then after one round, for every permutation of width w if and only if w is not 2 or 3. */
  lemma {:induction false} EndsForAllIff(w: nat)
    requires w > 0
    ensures (forall out, p :: Holds(out, p, w) ==> CheckPasses(out, p, w)) <==> w != 2 && w != 3
  {
    hide Holds, CheckPasses, Stored, Control, SwapPairs, IsPerm;
    if w != 2 && w != 3 {
      forall out, p | Holds(out, p, w)
        ensures CheckPasses(out, p, w)
      {
        CheckAlwaysPasses(out, p, w);
      }
    } else {
      SmallSizes(w);
      var p := SwapPairs(Pow2(w));
      SwapPairsPerm(Pow2(w));
      StoredHolds(p, w);
      CheckFails(Stored(Control(p, w), w), w);
      assert Holds(Stored(Control(p, w), w), p, w) && !CheckPasses(Stored(Control(p, w), w), p, w);
    }
  }
}
