/** gen_e of encrypt.c and the end of decrypt.c: error vectors of weight t, written and read bit by bit. */
module ErrorVector {
  import opened Bits
  import opened OutBits
  import opened GaloisField
  import opened FieldCode
  import opened PackedSort
  import opened Support

  // ---------- choosing the positions ----------

  /** The values below n, in order. */
  function InRangeOnly(nums: seq<int>, n: int): (r: seq<int>)
    ensures |r| <= |nums|
  {
    if nums == [] then []
    else
      var r := InRangeOnly(nums[..|nums| - 1], n);
      if nums[|nums| - 1] < n then r + [nums[|nums| - 1]] else r
  }

  lemma InRangeGrows(nums: seq<int>, n: int, m: nat)
    requires m <= |nums|
    ensures InRangeOnly(nums[..m], n) <= InRangeOnly(nums, n)
  {
    if m < |nums| {
      InRangeGrows(nums[..|nums| - 1], n, m);
      assert nums[..|nums| - 1][..m] == nums[..m];
    } else {
      assert nums[..m] == nums;
    }
  }

  /** The positions of nums that hold the values kept: increasing, and all the positions with values below n. */
  ghost predicate Kept(at: seq<nat>, nums: seq<int>, n: int) {
    && (forall a, b :: 0 <= a < b < |at| ==> at[a] < at[b])
    && (forall a :: 0 <= a < |at| ==> at[a] < |nums| && nums[at[a]] < n)
    && (forall i :: 0 <= i < |nums| && nums[i] < n ==> i in at)
  }

  lemma KeptIs(at: seq<nat>, nums: seq<int>, n: int)
    requires Kept(at, nums, n)
    ensures forall a, b :: 0 <= a < b < |at| ==> at[a] < at[b]
    ensures forall i :: i in at <==> 0 <= i < |nums| && nums[i] < n
  {
  }

  lemma KeptNone(n: int)
    ensures Kept([], [], n)
  {
  }

  lemma KeptNext(at: seq<nat>, nums: seq<int>, n: int)
    requires nums != [] && Kept(at, nums[..|nums| - 1], n)
    ensures Kept(if nums[|nums| - 1] < n then at + [|nums| - 1] else at, nums, n)
  {
    var k := |nums| - 1;
    var next := if nums[k] < n then at + [k] else at;
    forall i | 0 <= i < |nums| && nums[i] < n
      ensures i in next
    {
      if i < k {
        assert nums[..k][i] < n;
        assert i in at;
      } else {
        assert next[|next| - 1] == i;
      }
    }
  }

  /** What is kept are the values below n, once for each of their positions and in the order of these. */
  lemma {:induction false} InRangePositions(nums: seq<int>, n: int) returns (at: seq<nat>)
    ensures Kept(at, nums, n) && |at| == |InRangeOnly(nums, n)|
    ensures forall a :: 0 <= a < |at| ==> at[a] < |nums| && InRangeOnly(nums, n)[a] == nums[at[a]]
  {
    hide Kept;
    if nums == [] {
      at := [];
      KeptNone(n);
    } else {
      var k: nat := |nums| - 1;
      var first := InRangePositions(nums[..k], n);
      KeptNext(first, nums, n);
      at := if nums[k] < n then first + [k] else first;
    }
  }

  lemma KeptValues(got: seq<int>, at: seq<nat>, nums: seq<int>, n: int)
    requires got <= InRangeOnly(nums, n) && |at| == |InRangeOnly(nums, n)|
    requires forall a :: 0 <= a < |at| ==> at[a] < |nums| && InRangeOnly(nums, n)[a] == nums[at[a]]
    ensures |got| <= |at| && forall a :: 0 <= a < |got| ==> at[a] < |nums| && got[a] == nums[at[a]]
  {
    hide InRangeOnly;
  }

  /** The loop that moves the indices below n, stopping after t of them. */
  method CountIndices(nums: array<int>, ind: array<int>, n: int, t: nat) returns (count: nat, ghost at: seq<nat>)
    requires nums != ind && ind.Length == t
    modifies ind
    ensures count <= t && count <= |InRangeOnly(nums[..], n)| && ind[..count] == InRangeOnly(nums[..], n)[..count]
    ensures count < t ==> |InRangeOnly(nums[..], n)| == count
    ensures count == if |at| < t then |at| else t
    ensures forall a, b :: 0 <= a < b < |at| ==> at[a] < at[b]
    ensures forall i :: i in at <==> 0 <= i < nums.Length && nums[i] < n
    ensures forall a :: 0 <= a < count ==> at[a] < nums.Length && ind[a] == nums[at[a]]
  {
    hide Kept;
    count := 0;
    var i := 0;
    while i < nums.Length && count < t
      invariant i <= nums.Length && count <= t
      invariant ind[..count] == InRangeOnly(nums[..i], n)
    {
      assert nums[..i + 1][..i] == nums[..i];
      if nums[i] < n {
        ind[count] := nums[i];
        count := count + 1;
      }
      i := i + 1;
    }
    assert nums[..nums.Length] == nums[..];
    InRangeGrows(nums[..], n, i);
    assert nums[..][..i] == nums[..i];
    at := InRangePositions(nums[..], n);
    KeptValues(ind[..count], at, nums[..], n);
    KeptIs(at, nums[..], n);
  }

  /** The loops over pairs. */
  method HasRepetition(ind: array<int>) returns (eq: bool)
    ensures eq <==> !Distinct(ind[..])
    ensures eq <==> exists a, b :: 0 <= a < b < ind.Length && ind[a] == ind[b]
  {
    eq := false;
    var i := 1;
    while i < ind.Length
      invariant 1 <= i && (eq <==> exists a, b :: 0 <= a < b < Min(i, ind.Length) && ind[a] == ind[b])
    {
      for j := 0 to i
        invariant eq <==>
                  (exists a, b :: 0 <= a < b < i && ind[a] == ind[b]) ||
                  (exists a :: 0 <= a < j && ind[a] == ind[i])
      {
        if ind[i] == ind[j] {
          eq := true;
        }
      }
      i := i + 1;
    }
  }

  // ---------- the error vector ----------

  /** same_mask: 0xFF when the 16-bit values are equal, 0 otherwise. */
  function SameMask(x: nat, y: nat): nat {
    var m := (Xor(x, y) - 1) % UINT32_END;
    var top := Shr(m, 31);
    And((UINT32_END - top) % UINT32_END, 0xFF)
  }

  lemma SameMaskIs(x: nat, y: nat)
    requires x < 0x1_0000 && y < 0x1_0000
    ensures SameMask(x, y) == if x == y then 0xFF else 0
  {
    hide Xor, And, Shr, Pow2;
    Pow2Values();
    XorBound(x, y, 16);
    XorEqual(x, y);
    TopOf((Xor(x, y) - 1) % UINT32_END);
    AndMask(UINT32_END - 1, 8);
    AndZero(0xFF);
  }

  lemma TopOf(m: nat)
    ensures Shr(m, 31) == m / 0x8000_0000
  {
    Pow2Values();
  }

  /** Bit i of byte b is set when 8b+i is one of the first k positions. */
  ghost predicate Marks(e: int, b: nat, ind: seq<int>, k: nat) {
    && 0 <= e < 256 && k <= |ind|
    && forall i :: 0 <= i < 8 ==> (Bit(e, i) <==> 8 * b + i in ind[..k])
  }

  lemma {:induction false} MarkNext(e: nat, b: nat, ind: seq<int>, k: nat, v: nat, m: nat)
    requires Marks(e, b, ind, k) && k < |ind| && ind[k] >= 0
    requires v == Shl(1, ind[k] % 8) && m == (if b == ind[k] / 8 then 0xFF else 0)
    ensures Marks(Or(e, And(v, m)), b, ind, k + 1)
  {
    hide Bit, Or, And, Shl;
    assert ind[..k + 1] == ind[..k] + [ind[k]];
    OneBit(1, ind[k] % 8);
    SetBit(e, 1, ind[k] % 8, 0);
    AndZero(v);
    OrZero(e);
    AndOnes(v, 8, 0xFF);
    forall i | 0 <= i < 8
      ensures Bit(Or(e, And(v, m)), i) <==> 8 * b + i in ind[..k + 1]
    {
      SetBit(e, 1, ind[k] % 8, i);
    }
  }

  lemma MarkNone(b: nat, ind: seq<int>)
    ensures Marks(0, b, ind, 0)
  {
    forall i | 0 <= i < 8
      ensures !Bit(0, i)
    {
      BitZero(i);
    }
  }

  /** The last loops of gen_e: exactly the chosen positions are set. */
  method WriteError(e: array<int>, ind: array<int>)
    requires e != ind && e.Length <= 0x2000
    requires forall k :: 0 <= k < ind.Length ==> 0 <= ind[k] < 8 * e.Length
    modifies e
    ensures Bytes(e[..])
    ensures forall P :: 0 <= P < 8 * e.Length ==> (OutBit(e[..], P) <==> P in ind[..])
  {
    hide Or, And, Shl, SameMask, Bit;
    var val := new nat[ind.Length](_ => 0);
    for j := 0 to ind.Length
      invariant forall k :: 0 <= k < j ==> val[k] == Shl(1, ind[k] % 8)
    {
      val[j] := Shl(1, ind[j] % 8);
    }
    for i := 0 to e.Length
      invariant forall k :: 0 <= k < ind.Length ==> val[k] == Shl(1, ind[k] % 8)
      invariant forall b :: 0 <= b < i ==> Marks(e[b], b, ind[..], ind.Length)
    {
      e[i] := 0;
      MarkNone(i, ind[..]);
      for j := 0 to ind.Length
        invariant forall k :: 0 <= k < ind.Length ==> val[k] == Shl(1, ind[k] % 8)
        invariant forall b :: 0 <= b < i ==> Marks(e[b], b, ind[..], ind.Length)
        invariant Marks(e[i], i, ind[..], j)
      {
        SameMaskIs(i, ind[j] / 8);
        var mask := SameMask(i, ind[j] / 8);
        MarkNext(e[i], i, ind[..], j, val[j], mask);
        e[i] := Or(e[i], And(val[j], mask));
      }
    }
    forall P | 0 <= P < 8 * e.Length
      ensures 0 <= e[P / 8] < 256 && (Bit(e[P / 8], P % 8) <==> P in ind[..])
    {
      assert Marks(e[P / 8], P / 8, ind[..], ind.Length);
      assert ind[..][..ind.Length] == ind[..];
      assert 8 * (P / 8) + P % 8 == P;
    }
    BytesOf(e[..]);
  }

  lemma BytesOf(e: seq<int>)
    requires forall P :: 0 <= P < 8 * |e| ==> 0 <= e[P / 8] < 256
    ensures Bytes(e)
  {
    forall b | 0 <= b < |e|
      ensures 0 <= e[b] < 256
    {
      assert (8 * b) / 8 == b;
    }
  }

  // ---------- weights ----------

  /** The number of set bits. */
  function Weight(v: seq<bool>): (w: nat)
    ensures w <= |v|
  {
    if v == [] then 0 else Weight(v[..|v| - 1]) + B2N(v[|v| - 1])
  }

  ghost function Ones(v: seq<bool>): (r: set<int>)
    ensures forall P :: P in r <==> 0 <= P < |v| && v[P]
  {
    set P | 0 <= P < |v| && v[P]
  }

  lemma {:induction false} WeightOnes(v: seq<bool>)
    ensures Weight(v) == |Ones(v)|
  {
    if v == [] {
      assert Ones(v) == {};
    } else {
      var n := |v| - 1;
      WeightOnes(v[..n]);
      if v[n] {
        assert Ones(v) == Ones(v[..n]) + {n};
      } else {
        assert Ones(v) == Ones(v[..n]);
      }
    }
  }

  lemma {:induction false} DistinctSize(s: seq<int>)
    requires Distinct(s)
    ensures |set x | x in s| == |s|
  {
    var all := set x | x in s;
    if s == [] {
      assert all == {};
    } else {
      var n := |s| - 1;
      DistinctSize(s[..n]);
      assert all == (set x | x in s[..n]) + {s[n]};
    }
  }

  /** A vector whose set bits are t distinct positions has weight t. */
  lemma {:induction false} ChosenWeight(v: seq<bool>, ind: seq<int>)
    requires Distinct(ind) && forall k :: 0 <= k < |ind| ==> 0 <= ind[k] < |v|
    requires forall P :: 0 <= P < |v| ==> (v[P] <==> P in ind)
    ensures Weight(v) == |ind|
  {
    WeightOnes(v);
    DistinctSize(ind);
    assert Ones(v) == set x | x in ind;
  }

  // ---------- the end of decrypt ----------

  /** Bit i of the recovered vector: the locator vanishes at the i-th support element. */
  function ZeroBits(images: seq<Gf>): (r: seq<bool>)
    ensures |r| == |images|
  {
    seq(|images|, i requires 0 <= i < |images| => images[i] == 0)
  }

  /** The first i bits of e are those of v, the others are zero. */
  ghost predicate Written(e: seq<int>, v: seq<bool>, i: nat) {
    && Bytes(e) && i <= |v| == 8 * |e|
    && forall P :: 0 <= P < |v| ==> OutBit(e, P) == (P < i && v[P])
  }

  lemma WrittenStart(e: seq<int>, v: seq<bool>)
    requires |v| == 8 * |e| && forall b :: 0 <= b < |e| ==> e[b] == 0
    ensures Written(e, v, 0)
  {
    forall P | 0 <= P < |v|
      ensures !OutBit(e, P)
    {
      BitZero(P % 8);
    }
  }

  lemma {:induction false} WrittenNext(e: seq<int>, v: seq<bool>, i: nat)
    requires Written(e, v, i) && i < |v|
    ensures 0 <= e[i / 8] < 256
    ensures Written(e[i / 8 := Or(e[i / 8], Shl(B2N(v[i]), i % 8))], v, i + 1)
  {
    hide Bit, Or, Shl;
    var t := e[i / 8 := Or(e[i / 8], Shl(B2N(v[i]), i % 8))];
    SetBit(e[i / 8], B2N(v[i]), i % 8, 0);
    forall P | 0 <= P < |v|
      ensures OutBit(t, P) == (P < i + 1 && v[P])
    {
      assert OutBit(e, P) == (P < i && v[P]);
      if P / 8 == i / 8 {
        SetBit(e[i / 8], B2N(v[i]), i % 8, P % 8);
        assert (P % 8 == i % 8) == (P == i);
      }
    }
  }

  /** The loop over the support: writes the recovered vector and counts its weight. */
  method RecoverError(e: array<int>, images: array<Gf>) returns (w: nat)
    requires images.Length == 8 * e.Length
    modifies e
    ensures Written(e[..], ZeroBits(images[..]), images.Length) && w == Weight(ZeroBits(images[..]))
    ensures Bytes(e[..])
    ensures forall P :: 0 <= P < images.Length ==> (OutBit(e[..], P) <==> images[P] == 0)
    ensures w == |set P | 0 <= P < images.Length && images[P] == 0|
  {
    hide Or, Shl, Bit, Written, Weight, IsZero;
    for i := 0 to e.Length
      invariant forall b :: 0 <= b < i ==> e[b] == 0
    {
      e[i] := 0;
    }
    ghost var v := ZeroBits(images[..]);
    WrittenStart(e[..], v);
    w := 0;
    WeightNone(v);
    for i := 0 to images.Length
      invariant Written(e[..], v, i) && w == Weight(v[..i])
    {
      var t := IsZero(images[i]) % 2;
      assert t == B2N(v[i]);
      WrittenNext(e[..], v, i);
      WeightNext(v, i);
      e[i / 8] := Or(e[i / 8], Shl(t, i % 8));
      w := w + t;
    }
    assert v[..images.Length] == v;
    WrittenAll(e[..], v);
    WeightOnes(v);
    assert Ones(v) == set P | 0 <= P < images.Length && images[P] == 0;
  }

  lemma WrittenAll(e: seq<int>, v: seq<bool>)
    requires Written(e, v, |v|)
    ensures Bytes(e) && |v| == 8 * |e| && forall P :: 0 <= P < |v| ==> OutBit(e, P) == v[P]
  {
  }

  lemma WeightNone(v: seq<bool>)
    ensures Weight(v[..0]) == 0
  {
  }

  lemma WeightNext(v: seq<bool>, i: nat)
    requires i < |v|
    ensures Weight(v[..i + 1]) == Weight(v[..i]) + B2N(v[i])
  {
    assert v[..i + 1][..i] == v[..i];
  }

  /** check: accumulates the weight and the syndrome differences, and is 0 exactly for weight t and equal
      syndromes. The two shifts see only values up to 2^15, since weights and field elements are below 2^12. */
  method FinalCheck(w: nat, t: nat, s: array<Gf>, s_cmp: array<Gf>) returns (result: nat)
    requires w < 4096 && t < 4096 && s.Length == s_cmp.Length
    ensures result == 0 || result == 1
    ensures result == 0 <==> w == t && s[..] == s_cmp[..]
  {
    hide Or, Xor, Shr;
    Pow2Values();
    var check: nat := Xor(w, t);
    XorBound(w, t, 12);
    XorEqual(w, t);
    for i := 0 to s.Length
      invariant check < 4096
      invariant check == 0 <==> w == t && forall k :: 0 <= k < i ==> s[k] == s_cmp[k]
    {
      XorEqual(s[i], s_cmp[i]);
      XorBound(s[i], s_cmp[i], 12);
      OrBothZero(check, Xor(s[i], s_cmp[i]));
      OrBound(check, Xor(s[i], s_cmp[i]), 12);
      check := Or(check, Xor(s[i], s_cmp[i]));
    }
    CheckBit(check);
    result := Xor(Shr((check - 1) % 0x1_0000, 15), 1);
  }

  lemma CheckBit(check: nat)
    requires check < 4096
    ensures Xor(Shr((check - 1) % 0x1_0000, 15), 1) == if check == 0 then 0 else 1
  {
    hide Xor, Shr, Pow2;
    Shift15((check - 1) % 0x1_0000);
    XorOne(0);
    XorOne(1);
  }

  lemma Shift15(v: nat)
    ensures Shr(v, 15) == v / 0x8000
  {
    Pow2Add(15, 1);
    Pow2Values();
  }
}
