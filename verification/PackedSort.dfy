/** Sorting words that hold a key above a value: when the keys are a permutation, sorting applies
    the inverse of that permutation to the values. This is how controlbits.c composes and inverts. */
module PackedSort {
  import opened Bits
  import opened MergeExchange
  import opened Permutation
  import opened Network

  /** a[x] holds key hi[x] above value lo[x], with S the weight of the key. */
  ghost predicate Packed(a: seq<int>, hi: seq<nat>, lo: seq<nat>, S: nat) {
    && |a| == |hi| == |lo|
    && forall x :: 0 <= x < |a| ==> lo[x] < S && a[x] == hi[x] * S + lo[x]
  }

  /** The value stored under key y. */
  ghost function Permuted(hi: seq<nat>, lo: seq<nat>): (r: seq<nat>)
    requires IsPerm(hi) && |lo| == |hi|
    ensures |r| == |hi|
  {
    seq(|hi|, y requires 0 <= y < |hi| => lo[IndexOf(hi, y)])
  }

  lemma PermutedAt(hi: seq<nat>, lo: seq<nat>, x: nat)
    requires IsPerm(hi) && |lo| == |hi| && x < |hi|
    ensures Permuted(hi, lo)[hi[x]] == lo[x]
  {
    assert IndexOf(hi, hi[x]) == x;
  }

  ghost predicate Distinct(s: seq<int>) {
    forall i, j :: 0 <= i < j < |s| ==> s[i] != s[j]
  }

  lemma DistinctCount(s: seq<int>, v: int)
    requires Distinct(s)
    ensures multiset(s)[v] <= 1
  {
    if |s| > 0 {
      var t := s[..|s| - 1];
      assert s == t + [s[|s| - 1]];
      DistinctCount(t, v);
      if v == s[|s| - 1] {
        assert v !in t;
      }
    }
  }

  lemma CountDistinct(s: seq<int>, i: nat, j: nat)
    requires i < j < |s| && multiset(s)[s[i]] <= 1
    ensures s[i] != s[j]
  {
    var a, b := s[..j], s[j..];
    assert s == a + b;
    assert s[i] == a[i] && s[i] in multiset(a);
    assert b[0] == s[j] && s[j] in multiset(b);
  }

  lemma SameDistinct(a: seq<int>, r: seq<int>)
    requires Distinct(a) && multiset(r) == multiset(a)
    ensures Distinct(r)
  {
    forall i, j | 0 <= i < j < |r|
      ensures r[i] != r[j]
    {
      DistinctCount(a, r[i]);
      CountDistinct(r, i, j);
    }
  }

  lemma SameLength(a: seq<int>, r: seq<int>)
    requires multiset(r) == multiset(a)
    ensures |r| == |a|
  {
    assert |multiset(r)| == |r| && |multiset(a)| == |a|;
  }

  lemma FindIn(a: seq<int>, r: seq<int>, y: nat) returns (x: nat)
    requires multiset(r) == multiset(a) && y < |r|
    ensures x < |a| && a[x] == r[y]
  {
    assert r[y] in multiset(r);
    assert r[y] in a;
    x :| 0 <= x < |a| && a[x] == r[y];
  }

  /** A strictly increasing sequence of n numbers below n is 0, 1, ..., n-1. */
  lemma StrictIsIdentity(g: seq<int>, y: nat)
    requires forall i :: 0 <= i < |g| ==> 0 <= g[i] < |g|
    requires forall i, j :: 0 <= i < j < |g| ==> g[i] < g[j]
    requires y < |g|
    ensures g[y] == y
  {
    AtLeast(g, y);
    AtMost(g, y);
  }

  lemma AtLeast(g: seq<int>, y: nat)
    requires forall i :: 0 <= i < |g| ==> 0 <= g[i] < |g|
    requires forall i, j :: 0 <= i < j < |g| ==> g[i] < g[j]
    requires y < |g|
    ensures g[y] >= y
  {
    if y > 0 {
      AtLeast(g, y - 1);
    }
  }

  lemma AtMost(g: seq<int>, y: nat)
    requires forall i :: 0 <= i < |g| ==> 0 <= g[i] < |g|
    requires forall i, j :: 0 <= i < j < |g| ==> g[i] < g[j]
    requires y < |g|
    ensures g[y] <= y
    decreases |g| - y
  {
    if y + 1 < |g| {
      AtMost(g, y + 1);
    }
  }

  lemma PackedKey(a: seq<int>, hi: seq<nat>, lo: seq<nat>, S: nat, x: nat)
    requires Packed(a, hi, lo, S) && x < |a|
    ensures S > 0 && a[x] / S == hi[x] && a[x] % S == lo[x]
  {
    DivUnique(a[x], S, hi[x], lo[x]);
  }

  lemma PackedDistinct(a: seq<int>, hi: seq<nat>, lo: seq<nat>, S: nat)
    requires Packed(a, hi, lo, S) && IsPerm(hi)
    ensures Distinct(a)
  {
    forall i, j | 0 <= i < j < |a|
      ensures a[i] != a[j]
    {
      PackedKey(a, hi, lo, S, i);
      PackedKey(a, hi, lo, S, j);
    }
  }

  lemma DivMono(a: int, b: int, S: nat)
    requires S > 0 && a <= b
    ensures a / S <= b / S
  {
    if a / S > b / S {
      MulLe(S, b / S + 1, a / S);
    }
  }

  /** The keys of the sorted words are 0, 1, ..., n-1. */
  lemma {:induction false} SortedKeys(a: seq<int>, r: seq<int>, hi: seq<nat>, lo: seq<nat>, S: nat, y: nat)
    requires Packed(a, hi, lo, S) && IsPerm(hi) && S > 0
    requires Sorted(r) && multiset(r) == multiset(a) && y < |r|
    ensures r[y] / S == y
  {
    SameLength(a, r);
    PackedDistinct(a, hi, lo, S);
    SameDistinct(a, r);
    var g := seq(|r|, i requires 0 <= i < |r| => r[i] / S);
    forall i | 0 <= i < |g|
      ensures 0 <= g[i] < |g|
    {
      var x := FindIn(a, r, i);
      PackedKey(a, hi, lo, S, x);
    }
    forall i, j | 0 <= i < j < |g|
      ensures g[i] < g[j]
    {
      var x := FindIn(a, r, i);
      var z := FindIn(a, r, j);
      PackedKey(a, hi, lo, S, x);
      PackedKey(a, hi, lo, S, z);
      DivMono(r[i], r[j], S);
      assert r[i] != r[j];
    }
    StrictIsIdentity(g, y);
  }

  /** Sorting packed words permutes the values by the inverse of the keys. */
  lemma {:induction false} SortPermutes(a: seq<int>, r: seq<int>, hi: seq<nat>, lo: seq<nat>, S: nat)
    requires Packed(a, hi, lo, S) && IsPerm(hi)
    requires Sorted(r) && multiset(r) == multiset(a)
    ensures Packed(r, Identity(|hi|), Permuted(hi, lo), S)
  {
    SameLength(a, r);
    forall y | 0 <= y < |r|
      ensures Permuted(hi, lo)[y] < S && r[y] == y * S + Permuted(hi, lo)[y]
    {
      var x := IndexOf(hi, y);
      var z := FindIn(r, a, x);
      PackedKey(a, hi, lo, S, x);
      SortedKeys(a, r, hi, lo, S, z);
    }
  }
}
