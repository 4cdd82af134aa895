/** util.c: loading and storing words in little-endian order. */
module LittleEndian {
  import opened Bits
  import opened OutBits
  import opened Transpose

  /** The little-endian value of a byte string. */
  function LoadLE(s: seq<int>): (r: nat)
    requires Bytes(s)
  {
    if s == [] then 0 else Or(Shl(LoadLE(s[1..]), 8), s[0])
  }

  lemma LoadBound(s: seq<int>)
    requires Bytes(s)
    ensures LoadLE(s) < Pow2(8 * |s|)
  {
    if s != [] {
      LoadBound(s[1..]);
      Pow2Values();
      Pow2Add(8, 8 * |s| - 8);
      MulLe(Pow2(8), LoadLE(s[1..]) + 1, Pow2(8 * |s| - 8));
      Pow2Mono(8, 8 * |s|);
      OrIsAdd(LoadLE(s[1..]), s[0], 8);
    }
  }

  /** Bit i of byte m stands at position 8m+i. */
  lemma {:induction false} LoadBit(s: seq<int>, m: nat, i: nat)
    requires Bytes(s) && m < |s| && i < 8
    ensures Bit(LoadLE(s), 8 * m + i) == Bit(s[m], i)
  {
    hide Bit, Shl, Or;
    var t := LoadLE(s[1..]);
    OrBit(Shl(t, 8), s[0], 8 * m + i);
    BitShl(t, 8, 8 * m + i);
    if m > 0 {
      LoadBit(s[1..], m - 1, i);
      assert s[0] < Pow2(8) by { Pow2Values(); }
      BitHigh(s[0], 8, 8 * m + i);
    }
  }

  lemma LoadOne(mem: seq<int>, j: nat)
    requires Bytes(mem) && j < |mem|
    ensures Bytes(mem[j..j + 1]) && LoadLE(mem[j..j + 1]) == mem[j]
  {
    assert mem[j..j + 1][1..] == [];
    assert Shl(0, 8) == 0;
  }

  /** load4 (k = 4) and load8 (k = 8). */
  method Load(mem: array<int>, base: nat, k: nat) returns (ret: nat)
    requires Bytes(mem[..]) && k > 0 && base + k <= mem.Length
    ensures Bytes(mem[base..base + k]) && ret == LoadLE(mem[base..base + k])
  {
    ret := mem[base + k - 1];
    var i := k - 2;
    LoadOne(mem[..], base + k - 1);
    while i >= 0
      invariant -1 <= i <= k - 2
      invariant Bytes(mem[base + i + 1..base + k]) && ret == LoadLE(mem[base + i + 1..base + k])
    {
      assert mem[base + i..base + k][1..] == mem[base + i + 1..base + k];
      ret := Shl(ret, 8);
      ret := Or(ret, mem[base + i]);
      i := i - 1;
    }
    assert mem[base + i + 1..base + k] == mem[base..base + k];
  }

  /** (in >> 8m) & 0xFF */
  function ByteOf(v: nat, m: nat): (r: nat)
    ensures r < 256
  {
    AndBound(Shr(v, 8 * m), 0xFF);
    And(Shr(v, 8 * m), 0xFF)
  }

  lemma ByteBit(v: nat, m: nat, i: nat)
    requires i < 8
    ensures Bit(ByteOf(v, m), i) == Bit(v, 8 * m + i)
  {
    hide Bit, Shr, And;
    AndBit(Shr(v, 8 * m), 0xFF, i);
    Pow2Values();
    OnesBit(8, i);
    BitShr(v, 8 * m, i);
  }

  /** store8 */
  method Store8(mem: array<int>, base: nat, v: nat)
    requires Bytes(mem[..]) && base + 8 <= mem.Length
    modifies mem
    ensures Bytes(mem[..])
    ensures forall j :: 0 <= j < mem.Length ==>
      mem[j] == if base <= j < base + 8 then ByteOf(v, j - base) else old(mem[j])
  {
    hide ByteOf;
    for k := 0 to 8
      invariant Bytes(mem[..])
      invariant forall j :: 0 <= j < mem.Length ==>
        mem[j] == if base <= j < base + k then ByteOf(v, j - base) else old(mem[j])
    {
      mem[base + k] := ByteOf(v, k);
    }
  }

  /** What store8 writes, load8 reads back. */
  lemma StoreThenLoad(v: nat, s: seq<int>)
    requires v < U64 && |s| == 8 && forall m :: 0 <= m < 8 ==> s[m] == ByteOf(v, m)
    ensures Bytes(s) && LoadLE(s) == v
  {
    hide ByteOf, LoadLE, Bit;
    LoadBound(s);
    Pow2Values();
    forall x | 0 <= x < 64
      ensures Bit(LoadLE(s), x) == Bit(v, x)
    {
      LoadBit(s, x / 8, x % 8);
      ByteBit(v, x / 8, x % 8);
    }
    BitExt(LoadLE(s), v, 64);
  }
}
