/** GF_mul of gf.c: multiplication in GF(2^12)[y] / (y^t + y^3 + y + z), with z the element x of GF(2^12). */
module ExtensionField {
  import opened GaloisField
  import opened FieldCode

  /** Coefficients of 1, y, ..., y^(t-1). */
  type Vec = seq<Gf>

  const Z: Gf := 2

  function VAdd(a: Vec, b: Vec): (r: Vec)
    requires |a| == |b|
    ensures |r| == |a|
  {
    seq(|a|, i requires 0 <= i < |a| => Add(a[i], b[i]))
  }

  function Scale(c: Gf, a: Vec): (r: Vec)
    ensures |r| == |a|
  {
    seq(|a|, i requires 0 <= i < |a| => Mul(c, a[i]))
  }

  function Zeros(t: nat): (r: Vec)
    ensures |r| == t
  {
    seq(t, i => 0)
  }

  /** Multiplication by y: y^t is replaced by y^3 + y + z. */
  function MulY(a: Vec): (r: Vec)
    requires |a| >= 4
    ensures |r| == |a|
  {
    var top := a[|a| - 1];
    seq(|a|, i requires 0 <= i < |a| =>
      if i == 0 then Mul(top, Z) else if i == 1 || i == 3 then Add(a[i - 1], top) else a[i - 1])
  }

  /** y^k */
  function Y(k: nat, t: nat): (r: Vec)
    requires t >= 4
    ensures |r| == t
  {
    if k == 0 then Zeros(t)[0 := 1] else MulY(Y(k - 1, t))
  }

  /** The residue of the polynomial p of any degree. */
  function Residue(p: Vec, t: nat): (r: Vec)
    requires t >= 4
    ensures |r| == t
  {
    if p == [] then Zeros(t)
    else VAdd(Residue(p[..|p| - 1], t), Scale(p[|p| - 1], Y(|p| - 1, t)))
  }

  /** The sum of a_i y^i b over the first n coefficients of a. */
  function Product(a: Vec, b: Vec, n: nat): (r: Vec)
    requires |b| >= 4 && n <= |a|
    ensures |r| == |b|
  {
    if n == 0 then Zeros(|b|)
    else VAdd(Product(a, b, n - 1), Scale(a[n - 1], Shifted(b, n - 1)))
  }

  /** y^n b */
  function Shifted(b: Vec, n: nat): (r: Vec)
    requires |b| >= 4
    ensures |r| == |b|
  {
    if n == 0 then b else MulY(Shifted(b, n - 1))
  }

  /** Multiplication in the quotient ring. */
  function EMul(a: Vec, b: Vec): (r: Vec)
    requires |a| == |b| >= 4
    ensures |r| == |a|
  {
    Product(a, b, |a|)
  }

  // ---------- vector laws ----------

  lemma VAddLaws(a: Vec, b: Vec, c: Vec)
    requires |a| == |b| == |c|
    ensures VAdd(a, b) == VAdd(b, a) && VAdd(VAdd(a, b), c) == VAdd(a, VAdd(b, c))
    ensures VAdd(a, Zeros(|a|)) == a && VAdd(a, a) == Zeros(|a|)
  {
    hide Add;
    forall i | 0 <= i < |a|
      ensures VAdd(a, b)[i] == VAdd(b, a)[i] && VAdd(VAdd(a, b), c)[i] == VAdd(a, VAdd(b, c))[i]
      ensures VAdd(a, Zeros(|a|))[i] == a[i] && VAdd(a, a)[i] == 0
    {
      AddLaws(a[i], b[i], c[i]);
    }
  }

  lemma VAddSwap(a: Vec, b: Vec, c: Vec, d: Vec)
    requires |a| == |b| == |c| == |d|
    ensures VAdd(VAdd(a, b), VAdd(c, d)) == VAdd(VAdd(a, c), VAdd(b, d))
  {
    hide Add;
    forall i | 0 <= i < |a|
      ensures VAdd(VAdd(a, b), VAdd(c, d))[i] == VAdd(VAdd(a, c), VAdd(b, d))[i]
    {
      AddSwap(a[i], b[i], c[i], d[i]);
    }
  }

  lemma ScaleAdd(c: Gf, a: Vec, b: Vec)
    requires |a| == |b|
    ensures Scale(c, VAdd(a, b)) == VAdd(Scale(c, a), Scale(c, b))
  {
    hide Add, Mul;
    forall i | 0 <= i < |a|
      ensures Scale(c, VAdd(a, b))[i] == VAdd(Scale(c, a), Scale(c, b))[i]
    {
      MulAddRight(c, a[i], b[i]);
    }
  }

  lemma AddScale(c: Gf, d: Gf, a: Vec)
    ensures Scale(Add(c, d), a) == VAdd(Scale(c, a), Scale(d, a))
  {
    hide Add, Mul;
    forall i | 0 <= i < |a|
      ensures Scale(Add(c, d), a)[i] == VAdd(Scale(c, a), Scale(d, a))[i]
    {
      MulAddLeft(c, d, a[i]);
    }
  }

  lemma ScaleScale(c: Gf, d: Gf, a: Vec)
    ensures Scale(c, Scale(d, a)) == Scale(Mul(c, d), a)
  {
    hide Mul;
    forall i | 0 <= i < |a|
      ensures Scale(c, Scale(d, a))[i] == Scale(Mul(c, d), a)[i]
    {
      MulAssoc(c, d, a[i]);
    }
  }

  lemma ScaleConstants(a: Vec, c: Gf, t: nat)
    ensures Scale(0, a) == Zeros(|a|) && Scale(1, a) == a && Scale(c, Zeros(t)) == Zeros(t)
  {
    hide Mul;
    MulZero(c);
    forall i | 0 <= i < |a|
      ensures Scale(0, a)[i] == 0 && Scale(1, a)[i] == a[i]
    {
      MulZero(a[i]);
      MulOne(a[i]);
    }
  }

  // ---------- multiplication by y is linear ----------

  lemma MulYAdd(a: Vec, b: Vec)
    requires |a| == |b| >= 4
    ensures MulY(VAdd(a, b)) == VAdd(MulY(a), MulY(b))
  {
    hide Add, Mul;
    var t := |a|;
    MulAddLeft(a[t - 1], b[t - 1], Z);
    forall i | 0 <= i < t
      ensures MulY(VAdd(a, b))[i] == VAdd(MulY(a), MulY(b))[i]
    {
      if i == 1 || i == 3 {
        AddSwap(a[i - 1], b[i - 1], a[t - 1], b[t - 1]);
      }
    }
  }

  lemma MulYScale(c: Gf, a: Vec)
    requires |a| >= 4
    ensures MulY(Scale(c, a)) == Scale(c, MulY(a))
  {
    hide Add, Mul;
    var t := |a|;
    MulAssoc(c, a[t - 1], Z);
    forall i | 0 <= i < t
      ensures MulY(Scale(c, a))[i] == Scale(c, MulY(a))[i]
    {
      if i == 1 || i == 3 {
        MulAddRight(c, a[i - 1], a[t - 1]);
      }
    }
  }

  lemma MulYZeros(t: nat)
    requires t >= 4
    ensures MulY(Zeros(t)) == Zeros(t)
  {
    hide Add, Mul;
    MulZero(Z);
    AddLaws(0, 0, 0);
  }

  lemma {:induction false} ShiftedAdd(a: Vec, b: Vec, n: nat)
    requires |a| == |b| >= 4
    ensures Shifted(VAdd(a, b), n) == VAdd(Shifted(a, n), Shifted(b, n))
  {
    hide VAdd, MulY;
    if n > 0 {
      ShiftedAdd(a, b, n - 1);
      MulYAdd(Shifted(a, n - 1), Shifted(b, n - 1));
    }
  }

  lemma {:induction false} ShiftedScale(c: Gf, a: Vec, n: nat)
    requires |a| >= 4
    ensures Shifted(Scale(c, a), n) == Scale(c, Shifted(a, n))
  {
    hide Scale, MulY;
    if n > 0 {
      ShiftedScale(c, a, n - 1);
      MulYScale(c, Shifted(a, n - 1));
    }
  }

  lemma {:induction false} ShiftedY(k: nat, n: nat, t: nat)
    requires t >= 4
    ensures Shifted(Y(k, t), n) == Y(k + n, t)
  {
    hide MulY;
    if n > 0 {
      ShiftedY(k, n - 1, t);
    }
  }

  // ---------- powers of y ----------

  /** Below t the powers of y are the unit vectors. */
  lemma {:induction false} YUnit(k: nat, t: nat)
    requires t >= 4 && k < t
    ensures Y(k, t) == Zeros(t)[k := 1]
  {
    hide Add, Mul;
    if k > 0 {
      YUnit(k - 1, t);
      MulZero(Z);
      AddLaws(0, 0, 0);
      AddLaws(1, 0, 0);
    }
  }

  /** The defining relation y^t = y^3 + y + z, shifted. */
  lemma {:induction false} YReduce(k: nat, t: nat)
    requires t >= 4
    ensures Y(k + t, t) == VAdd(VAdd(Y(k + 3, t), Y(k + 1, t)), Scale(Z, Y(k, t)))
  {
    hide Add, Mul, VAdd, Scale, MulY, Y;
    if k == 0 {
      YTop(t);
    } else {
      YReduce(k - 1, t);
      YStep(k + t, t);
      YStep(k + 3, t);
      YStep(k + 1, t);
      YStep(k, t);
      MulYAdd(VAdd(Y(k + 2, t), Y(k, t)), Scale(Z, Y(k - 1, t)));
      MulYAdd(Y(k + 2, t), Y(k, t));
      MulYScale(Z, Y(k - 1, t));
    }
  }

  lemma YStep(k: nat, t: nat)
    requires t >= 4 && k > 0
    ensures Y(k, t) == MulY(Y(k - 1, t))
  {
  }

  lemma YTop(t: nat)
    requires t >= 4
    ensures Y(t, t) == VAdd(VAdd(Y(3, t), Y(1, t)), Scale(Z, Y(0, t)))
  {
    hide Add, Mul;
    YUnit(t - 1, t);
    YUnit(3, t);
    YUnit(1, t);
    AddLaws(0, 0, 0);
    AddLaws(1, 0, 0);
    AddLaws(0, 1, 0);
    AddLaws(Z, 0, 0);
    MulOne(Z);
    MulZero(Z);
    var top := MulY(Zeros(t)[t - 1 := 1]);
    forall i | 0 <= i < t
      ensures top[i] == VAdd(VAdd(Y(3, t), Y(1, t)), Scale(Z, Y(0, t)))[i]
    {
    }
  }

  /** z is the element x of GF(2^12). */
  lemma MulZ(c: Gf)
    ensures Mul(c, Z) == MulX(c)
  {
    hide Add;
    MulComm(c, Z);
    MulZTimes(c);
  }

  lemma MulZTimes(c: Gf)
    ensures Mul(Z, c) == MulX(c)
  {
    hide Add, Mul, MulX;
    assert MulX(1) == 2 by { MulXOne(); }
    MulMulX(1, c);
    MulOne(c);
  }

  lemma MulXOne()
    ensures MulX(1) == 2
  {
    AddLaws(2, 0, 0);
  }

  // ---------- residues ----------

  lemma ResidueStep(p: Vec, t: nat)
    requires t >= 4 && p != []
    ensures Residue(p, t) == VAdd(Residue(p[..|p| - 1], t), Scale(p[|p| - 1], Y(|p| - 1, t)))
  {
  }

  /** Adding c to one coefficient. */
  lemma {:induction false} ResidueUpdate(p: Vec, t: nat, k: nat, c: Gf)
    requires t >= 4 && k < |p|
    ensures Residue(p[k := Add(p[k], c)], t) == VAdd(Residue(p, t), Scale(c, Y(k, t)))
  {
    hide Add, VAdd, Scale, Y;
    var n := |p| - 1;
    var q := p[k := Add(p[k], c)];
    ResidueStep(p, t);
    ResidueStep(q, t);
    var r := Residue(p[..n], t);
    if k < n {
      assert q[..n] == p[..n][k := Add(p[..n][k], c)];
      ResidueUpdate(p[..n], t, k, c);
      VAddLaws(r, Scale(c, Y(k, t)), Scale(p[n], Y(n, t)));
      VAddLaws(Scale(c, Y(k, t)), Scale(p[n], Y(n, t)), r);
      VAddLaws(r, Scale(p[n], Y(n, t)), Scale(c, Y(k, t)));
    } else {
      assert q[..n] == p[..n];
      AddScale(p[n], c, Y(n, t));
      VAddLaws(r, Scale(p[n], Y(n, t)), Scale(c, Y(n, t)));
    }
  }

  lemma {:induction false} ResidueZeros(p: Vec, t: nat)
    requires t >= 4 && forall i :: 0 <= i < |p| ==> p[i] == 0
    ensures Residue(p, t) == Zeros(t)
  {
    hide Add, Mul, VAdd, Scale, Y;
    if p != [] {
      ResidueZeros(p[..|p| - 1], t);
      ScaleConstants(Y(|p| - 1, t), 0, t);
      VAddLaws(Zeros(t), Zeros(t), Zeros(t));
    }
  }

  /** A polynomial of degree below t is its own residue. */
  lemma {:induction false} ResidueSmall(p: Vec, t: nat)
    requires t >= 4 && |p| <= t
    ensures Residue(p, t) == p + Zeros(t - |p|)
  {
    hide Add, Mul;
    if p != [] {
      var n := |p| - 1;
      ResidueSmall(p[..n], t);
      YUnit(n, t);
      MulZero(p[n]);
      MulOne(p[n]);
      AddLaws(0, 0, 0);
      AddLaws(p[n], 0, 0);
      forall i | 0 <= i < t
        ensures Residue(p, t)[i] == (p + Zeros(t - |p|))[i]
      {
        if i < n {
          AddLaws(p[i], 0, 0);
        }
      }
    }
  }

  // ---------- GF_mul ----------

  /** One round of the reduction loop: y^i is replaced using y^t = y^3 + y + z. */
  lemma {:induction false} FoldTop(p: Vec, t: nat, i: nat)
    requires 4 <= t <= i && |p| == i + 1
    ensures var c := p[i];
            var p1 := p[i - t + 3 := Add(p[i - t + 3], c)];
            var p2 := p1[i - t + 1 := Add(p1[i - t + 1], c)];
            var p3 := p2[i - t := Add(p2[i - t], Mul(c, Z))];
            Residue(p3[..i], t) == Residue(p, t)
  {
    hide Add, Mul, VAdd, Scale, Y;
    var c := p[i];
    var q0 := p[..i];
    var q1 := q0[i - t + 3 := Add(q0[i - t + 3], c)];
    var q2 := q1[i - t + 1 := Add(q1[i - t + 1], c)];
    var q3 := q2[i - t := Add(q2[i - t], Mul(c, Z))];
    ResidueUpdate(q0, t, i - t + 3, c);
    ResidueUpdate(q1, t, i - t + 1, c);
    ResidueUpdate(q2, t, i - t, Mul(c, Z));
    ResidueStep(p, t);
    YReduce(i - t, t);
    var u, v, w := Y(i - t + 3, t), Y(i - t + 1, t), Y(i - t, t);
    ScaleAdd(c, VAdd(u, v), Scale(Z, w));
    ScaleAdd(c, u, v);
    ScaleScale(c, Z, w);
    var r := Residue(q0, t);
    VAddLaws(r, Scale(c, u), Scale(c, v));
    VAddLaws(r, VAdd(Scale(c, u), Scale(c, v)), Scale(Mul(c, Z), w));
    var p1 := p[i - t + 3 := Add(p[i - t + 3], c)];
    var p2 := p1[i - t + 1 := Add(p1[i - t + 1], c)];
    var p3 := p2[i - t := Add(p2[i - t], Mul(c, Z))];
    assert p1[..i] == q1;
    assert p2[..i] == q2;
    assert p3[..i] == q3;
  }

  lemma ProductStep(a: Vec, b: Vec, n: nat)
    requires |b| >= 4 && n < |a|
    ensures Product(a, b, n + 1) == VAdd(Product(a, b, n), Scale(a[n], Shifted(b, n)))
  {
  }

  /** One term in0[i] * in1[j] y^(i+j). */
  lemma {:induction false} TermAdded(p: Vec, b: Vec, t: nat, i: nat, j: nat, c: Gf, base: Vec)
    requires t == |b| >= 4 && j < t && i + j < |p| && |base| == t
    requires Residue(p, t) == VAdd(base, Scale(c, Shifted(Residue(b[..j], t), i)))
    ensures Residue(p[i + j := Add(p[i + j], Mul(c, b[j]))], t) ==
            VAdd(base, Scale(c, Shifted(Residue(b[..j + 1], t), i)))
  {
    hide Add, Mul, VAdd, Scale, Y, MulY;
    ResidueUpdate(p, t, i + j, Mul(c, b[j]));
    assert b[..j + 1][..j] == b[..j];
    ResidueStep(b[..j + 1], t);
    var r := Residue(b[..j], t);
    ShiftedAdd(r, Scale(b[j], Y(j, t)), i);
    ShiftedScale(b[j], Y(j, t), i);
    ShiftedY(j, i, t);
    ScaleAdd(c, Shifted(r, i), Scale(b[j], Y(i + j, t)));
    ScaleScale(c, b[j], Y(i + j, t));
    VAddLaws(base, Scale(c, Shifted(r, i)), Scale(Mul(c, b[j]), Y(i + j, t)));
  }

  /** The inner loop over j. */
  method AddRow(prod: array<Gf>, in0: Vec, in1: Vec, i: nat)
    requires |in0| == |in1| >= 4 && i < |in0| && prod.Length == 2 * |in0| - 1
    requires Residue(prod[..], |in0|) == Product(in0, in1, i)
    modifies prod
    ensures Residue(prod[..], |in0|) == Product(in0, in1, i + 1)
  {
    hide Add, Mul, VAdd, Scale, MulY, Residue, Shifted, Product;
    ghost var t, base := |in0|, Product(in0, in1, i);
    RowStart(in0[i], i, base);
    assert in1[..0] == [];
    for j := 0 to |in1|
      invariant Residue(prod[..], t) == VAdd(base, Scale(in0[i], Shifted(Residue(in1[..j], t), i)))
    {
      var m := GfMul(in0[i], in1[j]);
      TermAdded(prod[..], in1, t, i, j, in0[i], base);
      prod[i + j] := Add(prod[i + j], m);
    }
    assert in1[..|in1|] == in1;
    ResidueSmall(in1, t);
    assert in1 + Zeros(0) == in1;
    ProductStep(in0, in1, i);
  }

  lemma RowStart(c: Gf, i: nat, base: Vec)
    requires |base| >= 4
    ensures VAdd(base, Scale(c, Shifted(Residue([], |base|), i))) == base
  {
    hide Add, Mul, VAdd, Scale, MulY;
    ShiftedZeros(|base|, i);
    ScaleConstants(base, c, |base|);
    VAddLaws(base, base, base);
  }

  lemma {:induction false} ShiftedZeros(t: nat, i: nat)
    requires t >= 4
    ensures Shifted(Zeros(t), i) == Zeros(t)
  {
    hide MulY;
    if i > 0 {
      ShiftedZeros(t, i - 1);
      MulYZeros(t);
    }
  }

  /** The body of the reduction loop. */
  method FoldRound(prod: array<Gf>, t: nat, i: nat)
    requires 4 <= t <= i < prod.Length
    modifies prod
    ensures Residue(prod[..i], t) == old(Residue(prod[..i + 1], t))
  {
    hide Add, Mul, Residue;
    ghost var p := prod[..i + 1];
    FoldTop(p, t, i);
    prod[i - t + 3] := Add(prod[i - t + 3], prod[i]);
    prod[i - t + 1] := Add(prod[i - t + 1], prod[i]);
    var m := GfMul(prod[i], 2);
    prod[i - t + 0] := Add(prod[i - t + 0], m);
    FoldedPrefix(p, prod[..i + 1], t, i);
    assert prod[..i + 1][..i] == prod[..i];
  }

  /** GF_mul */
  method GFMul(in0: Vec, in1: Vec) returns (out: Vec)
    requires |in0| == |in1| >= 4
    ensures out == EMul(in0, in1)
  {
    hide Add, Mul, VAdd, Scale, MulY, Residue, Shifted, Product;
    var t := |in0|;
    var prod := new Gf[2 * t - 1](_ => 0);
    for i := 0 to 2 * t - 1
      invariant forall k :: 0 <= k < i ==> prod[k] == 0
    {
      prod[i] := 0;
    }
    ResidueZeros(prod[..], t);
    ProductNone(in0, in1);
    for i := 0 to t
      invariant Residue(prod[..], t) == Product(in0, in1, i)
    {
      AddRow(prod, in0, in1, i);
    }
    var i := (t - 1) * 2;
    assert prod[..i + 1] == prod[..];
    while i >= t
      invariant t - 1 <= i <= 2 * t - 2
      invariant Residue(prod[..i + 1], t) == Product(in0, in1, t)
    {
      FoldRound(prod, t, i);
      i := i - 1;
    }
    out := prod[..t];
    ResidueSmall(out, t);
    assert out + Zeros(0) == out;
  }

  lemma FoldedPrefix(p: Vec, q: Vec, t: nat, i: nat)
    requires 4 <= t <= i && |p| == i + 1 == |q|
    requires var c := p[i];
             var p1 := p[i - t + 3 := Add(p[i - t + 3], c)];
             var p2 := p1[i - t + 1 := Add(p1[i - t + 1], c)];
             q == p2[i - t := Add(p2[i - t], Mul(c, Z))]
    ensures Residue(q[..i], t) == Residue(p, t)
  {
    hide Add, Mul, Residue;
    FoldTop(p, t, i);
  }

  lemma ProductNone(a: Vec, b: Vec)
    requires |b| >= 4
    ensures Product(a, b, 0) == Zeros(|b|)
  {
  }

  // ---------- the product is commutative ----------

  lemma {:induction false} ProductAddRight(a: Vec, b: Vec, c: Vec, n: nat)
    requires |b| == |c| >= 4 && n <= |a|
    ensures Product(a, VAdd(b, c), n) == VAdd(Product(a, b, n), Product(a, c, n))
  {
    hide VAdd, Scale, Shifted;
    if n == 0 {
      VAddLaws(Zeros(|b|), Zeros(|b|), Zeros(|b|));
    } else {
      ProductAddRight(a, b, c, n - 1);
      ShiftedAdd(b, c, n - 1);
      ScaleAdd(a[n - 1], Shifted(b, n - 1), Shifted(c, n - 1));
      VAddSwap(Product(a, b, n - 1), Product(a, c, n - 1), Scale(a[n - 1], Shifted(b, n - 1)), Scale(a[n - 1],
        Shifted(c, n - 1)));
    }
  }

  lemma {:induction false} ProductScaleRight(a: Vec, c: Gf, b: Vec, n: nat)
    requires |b| >= 4 && n <= |a|
    ensures Product(a, Scale(c, b), n) == Scale(c, Product(a, b, n))
  {
    hide VAdd, Scale, Shifted, Mul;
    if n == 0 {
      ScaleConstants(b, c, |b|);
    } else {
      ProductScaleRight(a, c, b, n - 1);
      ShiftedScale(c, b, n - 1);
      ScaleAdd(c, Product(a, b, n - 1), Scale(a[n - 1], Shifted(b, n - 1)));
      ScaleScale(c, a[n - 1], Shifted(b, n - 1));
      ScaleScale(a[n - 1], c, Shifted(b, n - 1));
      MulComm(c, a[n - 1]);
    }
  }

  /** Multiplying by y^k is shifting. */
  lemma {:induction false} ProductY(a: Vec, k: nat, t: nat, n: nat)
    requires t >= 4 && n <= |a|
    ensures Product(a, Y(k, t), n) == Shifted(Residue(a[..n], t), k)
  {
    hide VAdd, Scale, Shifted, Y;
    if n == 0 {
      ShiftedZeros(t, k);
    } else {
      ProductY(a, k, t, n - 1);
      assert a[..n][..n - 1] == a[..n - 1];
      ResidueStep(a[..n], t);
      ShiftedAdd(Residue(a[..n - 1], t), Scale(a[n - 1], Y(n - 1, t)), k);
      ShiftedScale(a[n - 1], Y(n - 1, t), k);
      ShiftedY(n - 1, k, t);
      ShiftedY(k, n - 1, t);
    }
  }

  lemma {:induction false} ProductResidue(a: Vec, b: Vec, n: nat)
    requires |a| == |b| >= 4 && n <= |b|
    ensures Product(a, Residue(b[..n], |a|), |a|) == Product(b, a, n)
  {
    hide VAdd, Scale, Shifted, Y, Product;
    var t := |a|;
    if n == 0 {
      ProductNone(b, a);
      ProductZeros(a, t);
    } else {
      ProductResidue(a, b, n - 1);
      assert b[..n][..n - 1] == b[..n - 1];
      ResidueStep(b[..n], t);
      ProductAddRight(a, Residue(b[..n - 1], t), Scale(b[n - 1], Y(n - 1, t)), t);
      ProductScaleRight(a, b[n - 1], Y(n - 1, t), t);
      ProductY(a, n - 1, t, t);
      assert a[..t] == a;
      ResidueSmall(a, t);
      assert a + Zeros(0) == a;
      ProductStep(b, a, n - 1);
    }
  }

  lemma ProductZeros(a: Vec, t: nat)
    requires t >= 4 && t <= |a|
    ensures Product(a, Zeros(t), t) == Zeros(t)
  {
    hide VAdd, Scale, Product, Mul;
    ScaleConstants(Zeros(t), 0, t);
    ProductScaleRight(a, 0, Zeros(t), t);
    ScaleConstants(Product(a, Zeros(t), t), 0, t);
  }

  lemma {:induction false} EMulComm(a: Vec, b: Vec)
    requires |a| == |b| >= 4
    ensures EMul(a, b) == EMul(b, a)
  {
    hide VAdd, Scale, Shifted, Y, Product, Residue;
    ProductResidue(a, b, |a|);
    assert b[..|a|] == b;
    ResidueSmall(b, |a|);
    assert b + Zeros(0) == b;
  }

  // ---------- and associative and distributive ----------

  lemma {:induction false} ShiftedMulY(b: Vec, n: nat)
    requires |b| >= 4
    ensures Shifted(MulY(b), n) == MulY(Shifted(b, n))
  {
    hide MulY;
    if n > 0 {
      ShiftedMulY(b, n - 1);
    }
  }

  lemma {:induction false} ProductMulY(a: Vec, b: Vec, n: nat)
    requires |b| >= 4 && n <= |a|
    ensures Product(a, MulY(b), n) == MulY(Product(a, b, n))
  {
    hide VAdd, Scale, Shifted, MulY;
    if n == 0 {
      MulYZeros(|b|);
    } else {
      ProductMulY(a, b, n - 1);
      ShiftedMulY(b, n - 1);
      MulYScale(a[n - 1], Shifted(b, n - 1));
      MulYAdd(Product(a, b, n - 1), Scale(a[n - 1], Shifted(b, n - 1)));
    }
  }

  lemma {:induction false} ProductShifted(a: Vec, b: Vec, k: nat, n: nat)
    requires |b| >= 4 && n <= |a|
    ensures Product(a, Shifted(b, k), n) == Shifted(Product(a, b, n), k)
  {
    hide MulY, Product;
    if k > 0 {
      ProductShifted(a, b, k - 1, n);
      ProductMulY(a, Shifted(b, k - 1), n);
    }
  }

  lemma {:induction false} ProductSwap(c: Vec, a: Vec, b: Vec, n: nat)
    requires |b| >= 4 && n <= |a| && |b| <= |c|
    ensures Product(c, Product(a, b, n), |b|) == Product(a, Product(c, b, |b|), n)
  {
    hide VAdd, Scale, Shifted, Product;
    if n == 0 {
      ProductNone(a, b);
      ProductNone(a, Product(c, b, |b|));
      ProductZeros(c, |b|);
    } else {
      ProductSwap(c, a, b, n - 1);
      ProductStep(a, b, n - 1);
      ProductStep(a, Product(c, b, |b|), n - 1);
      ProductAddRight(c, Product(a, b, n - 1), Scale(a[n - 1], Shifted(b, n - 1)), |b|);
      ProductScaleRight(c, a[n - 1], Shifted(b, n - 1), |b|);
      ProductShifted(c, b, n - 1, |b|);
    }
  }

  lemma {:induction false} EMulAssoc(a: Vec, b: Vec, c: Vec)
    requires |a| == |b| == |c| >= 4
    ensures EMul(EMul(a, b), c) == EMul(a, EMul(b, c))
  {
    hide Product;
    ProductSwap(c, a, b, |a|);
    EMulComm(EMul(a, b), c);
    EMulComm(b, c);
  }

  lemma EMulAdd(a: Vec, b: Vec, c: Vec)
    requires |a| == |b| == |c| >= 4
    ensures EMul(a, VAdd(b, c)) == VAdd(EMul(a, b), EMul(a, c))
    ensures EMul(VAdd(b, c), a) == VAdd(EMul(b, a), EMul(c, a))
  {
    hide VAdd, Product;
    ProductAddRight(a, b, c, |a|);
    EMulComm(a, VAdd(b, c));
    EMulComm(a, b);
    EMulComm(a, c);
  }

  /** The product of two powers of y; with the unit vectors of YUnit and the reduction of YReduce this fixes the
      product. */
  lemma {:induction false} EMulY(m: nat, n: nat, t: nat)
    requires t >= 4
    ensures EMul(Y(m, t), Y(n, t)) == Y(m + n, t)
  {
    hide VAdd, Scale, Shifted, Product, Residue, Y;
    var a := Y(m, t);
    ProductY(a, n, t, t);
    assert a[..t] == a;
    ResidueSmall(a, t);
    assert a + Zeros(0) == a;
    ShiftedY(m, n, t);
  }

  lemma {:induction false} EMulScale(c: Gf, a: Vec, b: Vec)
    requires |a| == |b| >= 4
    ensures EMul(a, Scale(c, b)) == Scale(c, EMul(a, b)) == EMul(Scale(c, a), b)
  {
    hide Product, Scale;
    ProductScaleRight(a, c, b, |a|);
    ProductScaleRight(b, c, a, |a|);
    EMulComm(a, b);
    EMulComm(Scale(c, a), b);
  }

  /** 1 is the unit. */
  lemma {:induction false} EMulOne(b: Vec)
    requires |b| >= 4
    ensures EMul(Y(0, |b|), b) == b == EMul(b, Y(0, |b|))
  {
    hide VAdd, Scale, Shifted, Product, Residue, Y;
    ProductY(b, 0, |b|, |b|);
    assert b[..|b|] == b;
    ResidueSmall(b, |b|);
    assert b + Zeros(0) == b;
    assert Shifted(b, 0) == b by { ShiftedNone(b); }
    EMulComm(Y(0, |b|), b);
  }

  lemma ShiftedNone(b: Vec)
    requires |b| >= 4
    ensures Shifted(b, 0) == b
  {
  }
}
