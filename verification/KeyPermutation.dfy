/** pk_gen.c: the permutation of the support, extracted by sorting random words packed above their positions. */
module KeyPermutation {
  import opened Bits
  import opened MergeExchange
  import opened Sort
  import opened Permutation
  import opened PackedSort

  const KEY_WEIGHT: nat := 0x8000_0000

  /** buf[i] = perm[i] << 31 | i */
  ghost predicate PackedWords(a: seq<int>, perm: seq<int>) {
    && |a| == |perm| && |perm| <= KEY_WEIGHT
    && forall i :: 0 <= i < |a| ==> 0 <= perm[i] < 0x1_0000_0000 && a[i] == perm[i] * KEY_WEIGHT + i
  }

  lemma WordParts(a: seq<int>, perm: seq<int>, i: nat)
    requires PackedWords(a, perm) && i < |a|
    ensures 0 <= a[i] < 0x8000_0000_0000_0000 && a[i] / KEY_WEIGHT == perm[i] && a[i] % KEY_WEIGHT == i
  {
    DivUnique(a[i], KEY_WEIGHT, perm[i], i);
  }

  lemma WordsDistinct(a: seq<int>, perm: seq<int>)
    requires PackedWords(a, perm)
    ensures Distinct(a)
  {
    forall i, j | 0 <= i < j < |a|
      ensures a[i] != a[j]
    {
      WordParts(a, perm, i);
      WordParts(a, perm, j);
    }
  }

  /** The low fields of the sorted words. */
  ghost function Positions(r: seq<int>): (p: seq<nat>)
    ensures |p| == |r|
  {
    seq(|r|, i requires 0 <= i < |r| => r[i] % KEY_WEIGHT)
  }

  /** Word y of the sorted buffer is the packed word of position Positions(r)[y]. */
  lemma SortedWord(a: seq<int>, r: seq<int>, perm: seq<int>, y: nat)
    requires PackedWords(a, perm) && multiset(r) == multiset(a) && y < |r|
    ensures |r| == |perm|
    ensures var x := Positions(r)[y]; x < |perm| && r[y] == a[x] && r[y] / KEY_WEIGHT == perm[x]
  {
    SameLength(a, r);
    var x := FindIn(a, r, y);
    WordParts(a, perm, x);
  }

  lemma {:induction false} PositionsPerm(a: seq<int>, r: seq<int>, perm: seq<int>)
    requires PackedWords(a, perm) && multiset(r) == multiset(a)
    ensures IsPerm(Positions(r)) && |r| == |perm|
  {
    var p := Positions(r);
    SameLength(a, r);
    WordsDistinct(a, perm);
    SameDistinct(a, r);
    forall i | 0 <= i < |p|
      ensures p[i] < |p|
    {
      SortedWord(a, r, perm, i);
    }
    forall i, j | 0 <= i < j < |p|
      ensures p[i] != p[j]
    {
      SortedWord(a, r, perm, i);
      SortedWord(a, r, perm, j);
    }
  }

  /** No two neighbours of the sorted buffer have the same key. */
  ghost predicate KeysDiffer(r: seq<int>) {
    forall i :: 1 <= i < |r| ==> r[i - 1] / KEY_WEIGHT != r[i] / KEY_WEIGHT
  }

  lemma {:induction false} KeysIncrease(r: seq<int>, i: nat, j: nat)
    requires Sorted(r) && KeysDiffer(r) && i < j < |r|
    ensures r[i] / KEY_WEIGHT < r[j] / KEY_WEIGHT
  {
    DivMono(r[j - 1], r[j], KEY_WEIGHT);
    if i < j - 1 {
      KeysIncrease(r, i, j - 1);
    }
  }

  /** The test on neighbours finds every duplicate, and only duplicates. */
  lemma {:induction false} DuplicateTest(a: seq<int>, r: seq<int>, perm: seq<int>)
    requires PackedWords(a, perm) && Sorted(r) && multiset(r) == multiset(a)
    ensures KeysDiffer(r) <==> Distinct(perm)
  {
    var p := Positions(r);
    PositionsPerm(a, r, perm);
    if KeysDiffer(r) {
      forall x, z | 0 <= x < z < |perm|
        ensures perm[x] != perm[z]
      {
        var i, j := IndexOf(p, x), IndexOf(p, z);
        SortedWord(a, r, perm, i);
        SortedWord(a, r, perm, j);
        if i < j {
          KeysIncrease(r, i, j);
        } else {
          KeysIncrease(r, j, i);
        }
      }
    }
    if Distinct(perm) {
      forall i | 1 <= i < |r|
        ensures r[i - 1] / KEY_WEIGHT != r[i] / KEY_WEIGHT
      {
        SortedWord(a, r, perm, i - 1);
        SortedWord(a, r, perm, i);
        assert p[i - 1] != p[i];
      }
    }
  }

  /** The permutation puts the random words in strictly increasing order. */
  ghost predicate Orders(p: seq<nat>, perm: seq<int>) {
    && IsPerm(p) && |p| == |perm|
    && forall i, j :: 0 <= i < j < |p| ==> perm[p[i]] < perm[p[j]]
  }

  /** perm[p[0]] < perm[p[1]] < ..., each position once. */
  lemma OrdersAt(p: seq<nat>, perm: seq<int>, i: nat, j: nat)
    requires Orders(p, perm) && i < j < |p|
    ensures |p| == |perm| && p[i] < |perm| && p[j] < |perm| && p[i] != p[j] && perm[p[i]] < perm[p[j]]
  {
  }

  lemma PositionsOrder(a: seq<int>, r: seq<int>, perm: seq<int>)
    requires PackedWords(a, perm) && Sorted(r) && multiset(r) == multiset(a) && KeysDiffer(r)
    ensures Orders(Positions(r), perm)
  {
    PositionsPerm(a, r, perm);
    var p := Positions(r);
    forall i, j | 0 <= i < j < |p|
      ensures perm[p[i]] < perm[p[j]]
    {
      SortedWord(a, r, perm, i);
      SortedWord(a, r, perm, j);
      KeysIncrease(r, i, j);
    }
  }

  /** buf[i] & GFMASK for 2^w words */
  lemma MaskPosition(v: nat, w: nat)
    requires w <= 31 && v % KEY_WEIGHT < Pow2(w)
    ensures And(v, Pow2(w) - 1) == v % KEY_WEIGHT
  {
    hide Pow2;
    AndMask(v, w);
    Pow2Values();
    Pow2Add(31 - w, w);
    Regroup(v / KEY_WEIGHT, Pow2(31 - w), Pow2(w), v % KEY_WEIGHT);
  }

  lemma Regroup(q: nat, a: nat, b: nat, x: nat)
    requires x < b
    ensures (q * (a * b) + x) % b == x
  {
    assert q * (a * b) == (q * a) * b;
    DivUnique(q * (a * b) + x, b, q * a, x);
  }

  /** The filling loop. */
  method FillWords(buf: array<int>, perm: array<int>)
    requires buf != perm && buf.Length == perm.Length <= KEY_WEIGHT && InRange(perm[..], 0, 0x1_0000_0000)
    modifies buf
    ensures PackedWords(buf[..], perm[..])
  {
    hide Or;
    Pow2Values();
    for i := 0 to perm.Length
      invariant forall k :: 0 <= k < i ==> buf[k] == perm[k] * KEY_WEIGHT + k
    {
      buf[i] := perm[i];
      buf[i] := Shl(buf[i], 31);
      OrIsAdd(perm[i], i, 31);
      buf[i] := Or(buf[i], i);
    }
  }

  /** The loop over neighbours. */
  method CheckKeys(buf: array<int>) returns (ok: bool)
    requires buf.Length > 0 && InRange(buf[..], 0, 0x8000_0000_0000_0000)
    ensures ok <==> KeysDiffer(buf[..])
  {
    Pow2Values();
    for i := 1 to buf.Length
      invariant forall k :: 1 <= k < i && k < buf.Length ==> buf[k - 1] / KEY_WEIGHT != buf[k] / KEY_WEIGHT
    {
      if Shr(buf[i - 1], 31) == Shr(buf[i], 31) {
        return false;
      }
    }
    ok := true;
  }

  /** The loop that writes pi. */
  method StorePositions(buf: array<int>, pi: array<int>, ghost w: nat)
    requires buf != pi && buf.Length == pi.Length == Pow2(w) && w <= 31
    requires InRange(buf[..], 0, 0x8000_0000_0000_0000)
    requires forall i :: 0 <= i < buf.Length ==> Positions(buf[..])[i] < Pow2(w)
    modifies pi
    ensures pi[..] == Positions(buf[..])
  {
    hide And, Pow2;
    for i := 0 to pi.Length
      invariant forall k :: 0 <= k < i ==> pi[k] == Positions(buf[..])[k]
    {
      assert Positions(buf[..])[i] < Pow2(w);
      MaskPosition(buf[i], w);
      pi[i] := And(buf[i], buf.Length - 1);
    }
  }

  /** pk_gen.c:67-84 on 2^w random words: rejects exactly the duplicates, and otherwise yields the permutation
      that sorts the words. */
  method ExtractPermutation(perm: array<int>, pi: array<int>, ghost w: nat) returns (ok: bool)
    requires perm != pi && perm.Length == pi.Length == Pow2(w) && w <= 31 && InRange(perm[..], 0, 0x1_0000_0000)
    modifies pi
    ensures ok <==> Distinct(perm[..])
    ensures ok ==> forall i :: 0 <= i < pi.Length ==> pi[i] >= 0
    ensures ok ==> Orders(pi[..], perm[..])
    ensures !ok ==> pi[..] == old(pi[..])
  {
    hide PackedWords, Orders, KeysDiffer, Distinct, Sorted, Pow2, Positions;
    var n := perm.Length;
    assert n <= KEY_WEIGHT by { Pow2Mono(w, 31); Pow2Values(); }
    var buf := new int[n];
    FillWords(buf, perm);
    ghost var a := buf[..];
    WordsBelow(a, perm[..]);
    assert buf[0..n] == a;
    UInt64Sort(buf, n);
    ghost var r := buf[..];
    assert buf[0..n] == r;
    SortedBelow(a, r);
    DuplicateTest(a, r, perm[..]);
    ok := CheckKeys(buf);
    if !ok {
      return;
    }
    PositionsPerm(a, r, perm[..]);
    PositionsOrder(a, r, perm[..]);
    PermBelow(Positions(r));
    StorePositions(buf, pi, w);
  }

  lemma WordsBelow(a: seq<int>, perm: seq<int>)
    requires PackedWords(a, perm)
    ensures InRange(a, 0, 0x8000_0000_0000_0000)
  {
  }

  lemma SortedBelow(a: seq<int>, r: seq<int>)
    requires InRange(a, 0, 0x8000_0000_0000_0000) && multiset(r) == multiset(a)
    ensures InRange(r, 0, 0x8000_0000_0000_0000)
  {
    forall y | 0 <= y < |r|
      ensures 0 <= r[y] < 0x8000_0000_0000_0000
    {
      var x := FindIn(a, r, y);
    }
  }

  lemma PermBelow(p: seq<nat>)
    requires IsPerm(p)
    ensures forall i :: 0 <= i < |p| ==> p[i] < |p|
  {
  }
}
