/** Polynomials over the byte field: Horner evaluation, division by a linear factor, and interpolation.

    A polynomial is the sequence of its coefficients, constant term first. */
module Polynomial {
  import opened Gf256

  // ---------- Evaluation ----------

  function Eval(p: seq<bv8>, x: bv8): bv8 {
    if p == [] then 0 else Add(Mul(Eval(p[1..], x), x), p[0])
  }

  method Gf256Eval(coefficients: seq<bv8>, x: bv8) returns (result: bv8)
    ensures result == Eval(coefficients, x)
  {
    result := 0;
    for i := |coefficients| downto 0
      invariant result == Eval(coefficients[i..], x)
    {
      var product := Gf256Mul(result, x);
      result := product ^ coefficients[i];
      hide Mul;
      assert coefficients[i..][1..] == coefficients[i + 1..];
    }
  }

  /** The sum of the first `n` terms c_i * x^i. */
  function TermSum(p: seq<bv8>, x: bv8, n: nat): bv8
    requires n <= |p|
  {
    if n == 0 then 0 else Add(TermSum(p, x, n - 1), Mul(p[n - 1], Pow(x, n - 1)))
  }

  /** Horner's rule computes the sum of all terms. */
  lemma HornerIsTermSum(p: seq<bv8>, x: bv8)
    ensures Eval(p, x) == TermSum(p, x, |p|)
  {
    hide Add, Mul;
    if p != [] {
      HornerIsTermSum(p[1..], x);
      TermSumShift(p, x, |p|);
      BytesAreAField(Mul(TermSum(p[1..], x, |p| - 1), x), p[0], 0);
    }
  }

  lemma {:induction false} TermSumShift(p: seq<bv8>, x: bv8, n: nat)
    requires 0 < n <= |p|
    ensures TermSum(p, x, n) == Add(p[0], Mul(TermSum(p[1..], x, n - 1), x))
  {
    hide Add, Mul;
    if n == 1 {
      BytesAreAField(p[0], 0, 0);
      BytesAreAField(0, x, 0);
      BytesAreAField(x, 0, 0);
      assert TermSum(p, x, 1) == Add(TermSum(p, x, 0), Mul(p[0], Pow(x, 0)));
    } else {
      TermSumShift(p, x, n - 1);
      var before, c, xp := TermSum(p[1..], x, n - 2), p[n - 1], Pow(x, n - 2);
      MulAddLeft(before, Mul(c, xp), x);
      MulAssociates(c, xp, x);
      MulCommutes(xp, x);
      AddLaws(p[0], Mul(before, x), Mul(c, Mul(x, xp)));
    }
  }

  // ---------- Division by x - r ----------

  /** The quotient of `p` by x - r. */
  function DivideOut(p: seq<bv8>, r: bv8): (q: seq<bv8>)
    ensures |q| == if p == [] then 0 else |p| - 1
  {
    if |p| <= 1 then [] else [Eval(p[1..], r)] + DivideOut(p[1..], r)
  }

  /** The polynomial v + (x - r) * q(x). */
  function Attach(q: seq<bv8>, r: bv8, v: bv8): (p: seq<bv8>)
    ensures |p| == |q| + 1
  {
    if q == [] then [v] else [Add(v, Mul(q[0], r))] + Attach(q[1..], r, q[0])
  }

  lemma {:induction false} EvalAttach(q: seq<bv8>, r: bv8, v: bv8, x: bv8)
    ensures Eval(Attach(q, r, v), x) == Add(v, Mul(Eval(q, x), Add(x, r)))
  {
    hide Add, Mul;
    EvalConstant(v, x);
    MulZeroLeft(Add(x, r));
    if q == [] {
      AddLaws(v, 0, 0);
    } else {
      var p, d := Attach(q, r, v), Eval(q[1..], x);
      assert p[1..] == Attach(q[1..], r, q[0]);
      EvalAttach(q[1..], r, q[0], x);
      // Eval(p, x) == (q0 + d (x + r)) x + (v + q0 r)
      MulAddLeft(q[0], Mul(d, Add(x, r)), x);
      MulAssociates(d, Add(x, r), x);
      MulCommutes(Add(x, r), x);
      MulAssociates(d, x, Add(x, r));
      // v + (d x + q0) (x + r)
      MulAddLeft(Mul(d, x), q[0], Add(x, r));
      MulAddRight(q[0], x, r);
      Rearrange(Mul(q[0], x), Mul(Mul(d, x), Add(x, r)), v, Mul(q[0], r));
    }
  }

  lemma Rearrange(a: bv8, b: bv8, c: bv8, d: bv8)
    ensures Add(Add(a, b), Add(c, d)) == Add(c, Add(b, Add(a, d)))
  {
    hide Add;
    AddLaws(Add(a, b), c, d);
    AddLaws(Add(a, b), c, 0);
    AddLaws(c, Add(a, b), d);
    AddLaws(a, b, d);
    AddLaws(b, a, d);
  }

  lemma EvalConstant(c: bv8, x: bv8)
    ensures Eval([c], x) == c
  {
    hide Add, Mul;
    assert Eval([c], x) == Add(Mul(Eval([], x), x), c);
    MulZeroLeft(x);
    AddLaws(c, 0, 0);
  }

  /** Dividing by x - r and attaching the value at r gives the polynomial back. */
  lemma {:induction false} AttachDivideOut(p: seq<bv8>, r: bv8)
    requires p != []
    ensures Attach(DivideOut(p, r), r, Eval(p, r)) == p
  {
    hide Add, Mul;
    if |p| == 1 {
      EvalConstant(p[0], r);
      assert p == [p[0]];
    } else {
      AttachDivideOut(p[1..], r);
      var v := Eval(p[1..], r);
      AddLaws(Mul(v, r), p[0], 0);
      AddLaws(Eval(p, r), Mul(v, r), 0);
      assert DivideOut(p, r)[1..] == DivideOut(p[1..], r);
      assert Attach(DivideOut(p, r), r, Eval(p, r)) == [p[0]] + p[1..];
    }
  }

  lemma EvalDivideOut(p: seq<bv8>, r: bv8, x: bv8)
    requires p != []
    ensures Eval(p, x) == Add(Eval(p, r), Mul(Eval(DivideOut(p, r), x), Add(x, r)))
  {
    AttachDivideOut(p, r);
    EvalAttach(DivideOut(p, r), r, Eval(p, r), x);
  }

  lemma {:induction false} DivideOutKeepsLead(p: seq<bv8>, r: bv8)
    requires |p| >= 2
    ensures DivideOut(p, r)[|p| - 2] == p[|p| - 1]
  {
    hide Add, Mul;
    if |p| == 2 {
      assert p[1..] == [p[1]];
      EvalConstant(p[1], r);
    } else {
      DivideOutKeepsLead(p[1..], r);
    }
  }

  // ---------- Interpolation: existence and uniqueness ----------

  ghost predicate Distinct(xs: seq<bv8>) {
    forall i, j :: 0 <= i < j < |xs| ==> xs[i] != xs[j]
  }

  function Init<T>(s: seq<T>): seq<T>
    requires s != []
  {
    s[..|s| - 1]
  }

  function Last<T>(s: seq<T>): T
    requires s != []
  {
    s[|s| - 1]
  }

  function Values(p: seq<bv8>, xs: seq<bv8>): (ys: seq<bv8>) {
    seq(|xs|, i requires 0 <= i < |xs| => Eval(p, xs[i]))
  }

  /** The difference quotient of the points against the point (r, v). */
  function Slopes(xs: seq<bv8>, ys: seq<bv8>, r: bv8, v: bv8): seq<bv8>
    requires |xs| == |ys|
  {
    seq(|xs|, i requires 0 <= i < |xs| => Mul(Add(ys[i], v), Inv(Add(xs[i], r))))
  }

  /** A polynomial with |xs| coefficients through the given points. */
  function Interpolant(xs: seq<bv8>, ys: seq<bv8>): (p: seq<bv8>)
    requires |xs| == |ys|
    ensures |p| == |xs|
    decreases |xs|
  {
    if xs == [] then []
    else
      var slopes := Slopes(Init(xs), Init(ys), Last(xs), Last(ys));
      Attach(Interpolant(Init(xs), slopes), Last(xs), Last(ys))
  }

  lemma DivideMultiply(y: bv8, v: bv8, d: bv8)
    requires d != 0
    ensures Add(v, Mul(Mul(Add(y, v), Inv(d)), d)) == y
  {
    hide Add, Mul, Inv;
    MulAssociates(Add(y, v), Inv(d), d);
    MulCommutes(Inv(d), d);
    InverseCorrect(d);
    BytesAreAField(Add(y, v), 0, 0);
    AddLaws(v, y, 0);
  }

  lemma {:induction false} InterpolantFits(xs: seq<bv8>, ys: seq<bv8>)
    requires |xs| == |ys| && Distinct(xs)
    ensures Values(Interpolant(xs, ys), xs) == ys
    decreases |xs|
  {
    hide Add, Mul, Inv, Eval, Attach;
    if xs != [] {
      var r, v := Last(xs), Last(ys);
      var slopes := Slopes(Init(xs), Init(ys), r, v);
      var q := Interpolant(Init(xs), slopes);
      InterpolantFits(Init(xs), slopes);
      forall i | 0 <= i < |xs| ensures Eval(Attach(q, r, v), xs[i]) == ys[i] {
        EvalAttach(q, r, v, xs[i]);
        AddLaws(xs[i], r, 0);
        if i == |xs| - 1 {
          AddLaws(v, 0, 0);
          BytesAreAField(Eval(q, r), 0, 0);
        } else {
          assert Values(q, Init(xs))[i] == slopes[i];
          DivideMultiply(ys[i], v, Add(xs[i], r));
        }
      }
    }
  }

  lemma MulCancels(a: bv8, b: bv8, d: bv8)
    requires d != 0 && Mul(a, d) == Mul(b, d)
    ensures a == b
  {
    hide Add, Mul;
    MulAddLeft(a, b, d);
    AddLaws(Mul(a, d), Mul(b, d), 0);
    NoZeroDivisors(Add(a, b), d);
    AddLaws(a, b, 0);
  }

  /** Polynomials with as many coefficients as there are points are equal when they agree there. */
  lemma {:induction false} FitIsUnique(p: seq<bv8>, p': seq<bv8>, xs: seq<bv8>)
    requires |p| == |p'| == |xs| && Distinct(xs)
    requires Values(p, xs) == Values(p', xs)
    ensures p == p'
    decreases |xs|
  {
    hide Add, Mul, Eval, Attach, DivideOut;
    if xs != [] {
      var r := Last(xs);
      var q, q' := DivideOut(p, r), DivideOut(p', r);
      assert Values(p, xs)[|xs| - 1] == Values(p', xs)[|xs| - 1];
      forall i | 0 <= i < |xs| - 1 ensures Eval(q, xs[i]) == Eval(q', xs[i]) {
        assert Values(p, xs)[i] == Values(p', xs)[i];
        EvalDivideOut(p, r, xs[i]);
        EvalDivideOut(p', r, xs[i]);
        AddLaws(Eval(p, r), Mul(Eval(q, xs[i]), Add(xs[i], r)), 0);
        AddLaws(Eval(p, r), Mul(Eval(q', xs[i]), Add(xs[i], r)), 0);
        AddLaws(xs[i], r, 0);
        MulCancels(Eval(q, xs[i]), Eval(q', xs[i]), Add(xs[i], r));
      }
      assert Values(q, Init(xs)) == Values(q', Init(xs));
      FitIsUnique(q, q', Init(xs));
      AttachDivideOut(p, r);
      AttachDivideOut(p', r);
    }
  }

  // ---------- Interpolation at 0 by Lagrange's formula ----------

  /** x_j / (x_j - x_i), one factor of the i-th basis polynomial at 0. */
  function Factor(xj: bv8, xi: bv8): bv8 {
    Mul(xj, Inv(Add(xj, xi)))
  }

  /** The product of the factors of x_i over the first `n` points other than the i-th. */
  function Basis(xs: seq<bv8>, i: nat, n: nat): bv8
    requires i < |xs| && n <= |xs|
  {
    if n == 0 then 1
    else if n - 1 == i then Basis(xs, i, n - 1)
    else Mul(Basis(xs, i, n - 1), Factor(xs[n - 1], xs[i]))
  }

  /** The first `n` terms of Lagrange's formula at 0. */
  function LagrangeSum(xs: seq<bv8>, ys: seq<bv8>, n: nat): bv8
    requires |xs| == |ys| && n <= |xs|
  {
    if n == 0 then 0
    else Add(LagrangeSum(xs, ys, n - 1), Mul(ys[n - 1], Basis(xs, n - 1, |xs|)))
  }

  function LagrangeAtZero(xs: seq<bv8>, ys: seq<bv8>): bv8
    requires |xs| == |ys|
  {
    LagrangeSum(xs, ys, |xs|)
  }

  function Remove<T>(s: seq<T>, k: nat): seq<T>
    requires k < |s|
  {
    s[..k] + s[k + 1..]
  }

  /** Removing point k takes its factor out of every other basis polynomial. */
  lemma {:induction false} BasisRemove(xs: seq<bv8>, k: nat, i: nat, n: nat)
    requires k < |xs| && i < |xs| && i != k && n <= |xs|
    ensures var i' := if i < k then i else i - 1;
      Basis(xs, i, n) == if n <= k then Basis(Remove(xs, k), i', n)
                         else Mul(Factor(xs[k], xs[i]), Basis(Remove(xs, k), i', n - 1))
  {
    hide Add, Mul, Factor;
    var i' := if i < k then i else i - 1;
    var f := Factor(xs[k], xs[i]);
    if n > 0 {
      BasisRemove(xs, k, i, n - 1);
      if n - 1 == k {
        MulCommutes(f, Basis(xs, i, n - 1));
      } else if n - 1 > k && n - 1 != i {
        MulAssociates(f, Basis(Remove(xs, k), i', n - 2), Factor(xs[n - 1], xs[i]));
      }
    }
  }

  lemma FactorCancels(xk: bv8, xi: bv8)
    requires xk != xi
    ensures Mul(Add(xi, xk), Factor(xk, xi)) == xk
  {
    hide Add, Mul, Inv;
    var d := Add(xk, xi);
    AddLaws(xk, xi, 0);
    MulCommutes(d, Mul(xk, Inv(d)));
    MulAssociates(xk, Inv(d), d);
    MulCommutes(Inv(d), d);
    InverseCorrect(d);
    BytesAreAField(xk, 0, 0);
  }

  function Ones(n: nat): seq<bv8> {
    seq(n, _ => 1)
  }

  /** A value that is v + (x_i - x_k) q_i contributes v * B_i + x_k * q_i * B'_i, where B' leaves out point k. */
  lemma TermRemove(xs: seq<bv8>, k: nat, i: nat, y: bv8, v: bv8, q: bv8)
    requires k < |xs| && i < |xs| && i != k && Distinct(xs)
    requires y == Add(v, Mul(q, Add(xs[i], xs[k])))
    ensures var i' := if i < k then i else i - 1;
      Mul(y, Basis(xs, i, |xs|))
        == Add(Mul(v, Basis(xs, i, |xs|)), Mul(xs[k], Mul(q, Basis(Remove(xs, k), i', |xs| - 1))))
  {
    hide Add, Mul, Basis, Factor;
    var i' := if i < k then i else i - 1;
    var d, f, b := Add(xs[i], xs[k]), Factor(xs[k], xs[i]), Basis(Remove(xs, k), i', |xs| - 1);
    BasisRemove(xs, k, i, |xs|);
    MulAddLeft(v, Mul(q, d), Mul(f, b));
    MulAssociates(q, d, Mul(f, b));
    MulAssociates(d, f, b);
    FactorCancels(xs[k], xs[i]);
    MulAssociates(q, xs[k], b);
    MulCommutes(q, xs[k]);
    MulAssociates(xs[k], q, b);
  }

  lemma {:induction false} SumRemove(xs: seq<bv8>, ys: seq<bv8>, k: nat, v: bv8, qs: seq<bv8>, n: nat)
    requires |xs| == |ys| == |qs| + 1 && k < |xs| && n <= |xs| && Distinct(xs)
    requires ys[k] == v
    requires forall i :: 0 <= i < k ==> ys[i] == Add(v, Mul(qs[i], Add(xs[i], xs[k])))
    requires forall i :: k < i < |xs| ==> ys[i] == Add(v, Mul(qs[i - 1], Add(xs[i], xs[k])))
    ensures LagrangeSum(xs, ys, n)
         == Add(Mul(v, LagrangeSum(xs, Ones(|xs|), n)),
                Mul(xs[k], LagrangeSum(Remove(xs, k), qs, if n <= k then n else n - 1)))
  {
    hide Add, Mul, Basis;
    var rest, ones := Remove(xs, k), Ones(|xs|);
    if n == 0 {
      BytesAreAField(v, 0, 0);
      BytesAreAField(xs[k], 0, 0);
      AddLaws(0, 0, 0);
    } else {
      var i := n - 1;
      SumRemove(xs, ys, k, v, qs, i);
      var basis, weights := Basis(xs, i, |xs|), LagrangeSum(xs, ones, i);
      var before := LagrangeSum(rest, qs, if i <= k then i else i - 1);
      MulOne(basis);
      MulAddRight(v, weights, basis);
      if i == k {
        AddRightCommutes(Mul(v, weights), Mul(xs[k], before), Mul(v, basis));
      } else {
        var i' := if i < k then i else i - 1;
        var part := Mul(qs[i'], Basis(rest, i', |rest|));
        TermRemove(xs, k, i, ys[i], v, qs[i']);
        MulAddRight(xs[k], before, part);
        AddSwap(Mul(v, weights), Mul(xs[k], before), Mul(v, basis), Mul(xs[k], part));
      }
    }
  }

  lemma AddRightCommutes(a: bv8, b: bv8, c: bv8)
    ensures Add(Add(a, b), c) == Add(Add(a, c), b)
  {
    hide Add;
    AddLaws(a, b, c);
    AddLaws(a, c, b);
    AddLaws(b, c, 0);
  }

  lemma RemoveDistinct(xs: seq<bv8>, k: nat)
    requires k < |xs| && Distinct(xs)
    ensures Distinct(Remove(xs, k))
  {}

  /** The Lagrange weights add up to 1. */
  lemma {:induction false} WeightsSumToOne(xs: seq<bv8>)
    requires xs != [] && Distinct(xs)
    ensures LagrangeAtZero(xs, Ones(|xs|)) == 1
    decreases |xs|
  {
    hide Add, Mul, LagrangeSum;
    var m := |xs|;
    if m == 1 {
      SingleWeight(xs);
    } else {
      var total := LagrangeAtZero(xs, Ones(m));
      forall k | 0 <= k < m
        ensures LagrangeAtZero(xs, xs) == Mul(xs[k], Add(total, 1))
      {
        RemoveDistinct(xs, k);
        WeightsSumToOne(Remove(xs, k));
        forall x ensures x == Add(xs[k], Mul(1, Add(x, xs[k]))) {
          MulOne(Add(x, xs[k]));
          AddLaws(xs[k], x, 0);
        }
        SumRemove(xs, xs, k, xs[k], Ones(m - 1), m);
        MulAddRight(xs[k], total, 1);
      }
      NoTwoFactors(xs[0], xs[m - 1], Add(total, 1));
      AddLaws(total, 1, 0);
    }
  }

  lemma SingleWeight(xs: seq<bv8>)
    requires |xs| == 1
    ensures LagrangeAtZero(xs, Ones(1)) == 1
  {
    hide Add, Mul;
    assert LagrangeSum(xs, Ones(1), 1) == Add(0, Mul(1, 1)) by {
      assert Basis(xs, 0, 1) == Basis(xs, 0, 0) == 1;
      assert LagrangeSum(xs, Ones(1), 0) == 0;
    }
    MulOne(1);
    AddLaws(1, 0, 0);
  }

  lemma NoTwoFactors(a: bv8, b: bv8, z: bv8)
    requires a != b && Mul(a, z) == Mul(b, z)
    ensures z == 0
  {
    hide Add, Mul;
    if z != 0 {
      MulCancels(a, b, z);
    }
  }

  lemma {:induction false} ConstantSum(xs: seq<bv8>, c: bv8, n: nat)
    requires n <= |xs|
    ensures LagrangeSum(xs, seq(|xs|, _ => c), n) == Mul(c, LagrangeSum(xs, Ones(|xs|), n))
  {
    hide Add, Mul, Basis;
    if n == 0 {
      BytesAreAField(c, 0, 0);
    } else {
      ConstantSum(xs, c, n - 1);
      MulOne(Basis(xs, n - 1, |xs|));
      MulAddRight(c, LagrangeSum(xs, Ones(|xs|), n - 1), Basis(xs, n - 1, |xs|));
    }
  }

  /** Lagrange's formula, one division further down. */
  lemma LagrangeDivides(p: seq<bv8>, xs: seq<bv8>)
    requires p != [] && xs != [] && Distinct(xs)
    ensures LagrangeAtZero(xs, Values(p, xs))
         == Add(Eval(p, Last(xs)),
                Mul(Last(xs), LagrangeAtZero(Init(xs), Values(DivideOut(p, Last(xs)), Init(xs)))))
  {
    hide Add, Mul, LagrangeSum, DivideOut, Eval;
    var k, r := |xs| - 1, Last(xs);
    var q := DivideOut(p, r);
    assert Remove(xs, k) == Init(xs);
    forall i | 0 <= i < k
      ensures Eval(p, xs[i]) == Add(Eval(p, r), Mul(Eval(q, xs[i]), Add(xs[i], r)))
    {
      EvalDivideOut(p, r, xs[i]);
    }
    SumRemove(xs, Values(p, xs), k, Eval(p, r), Values(q, Init(xs)), |xs|);
    WeightsSumToOne(xs);
    BytesAreAField(Eval(p, r), 0, 0);
  }

  lemma DivideOutAtZero(p: seq<bv8>, r: bv8)
    requires p != []
    ensures Eval(p, 0) == Add(Eval(p, r), Mul(r, Eval(DivideOut(p, r), 0)))
  {
    hide Add, Mul, Eval, DivideOut;
    EvalDivideOut(p, r, 0);
    AddLaws(r, 0, 0);
    MulCommutes(r, Eval(DivideOut(p, r), 0));
  }

  /** From at least as many distinct points as coefficients, Lagrange's formula gives the value at 0. */
  lemma {:induction false} LagrangeRecovers(p: seq<bv8>, xs: seq<bv8>)
    requires xs != [] && |p| <= |xs| && Distinct(xs)
    ensures LagrangeAtZero(xs, Values(p, xs)) == Eval(p, 0)
    decreases |xs|
  {
    hide Add, Mul, LagrangeSum, DivideOut;
    if |p| <= 1 {
      var c := Eval(p, 0);
      forall x ensures Eval(p, x) == c {
        if p != [] {
          assert p == [p[0]];
          EvalConstant(p[0], x);
          EvalConstant(p[0], 0);
        }
      }
      assert Values(p, xs) == seq(|xs|, _ => c);
      ConstantSum(xs, c, |xs|);
      WeightsSumToOne(xs);
      BytesAreAField(c, 0, 0);
    } else {
      hide Eval;
      LagrangeDivides(p, xs);
      LagrangeRecovers(DivideOut(p, Last(xs)), Init(xs));
      DivideOutAtZero(p, Last(xs));
    }
  }

  function Product(xs: seq<bv8>): bv8 {
    if xs == [] then 1 else Mul(Last(xs), Product(Init(xs)))
  }

  /** With one point too few, the formula is off by the leading coefficient times the product of the points. */
  lemma {:induction false} LagrangeOnePointShort(p: seq<bv8>, xs: seq<bv8>)
    requires |p| == |xs| + 1 && Distinct(xs)
    ensures LagrangeAtZero(xs, Values(p, xs)) == Add(Eval(p, 0), Mul(Last(p), Product(xs)))
    decreases |xs|
  {
    hide Add, Mul, DivideOut, Eval;
    if xs == [] {
      assert p == [Last(p)];
      EvalConstant(p[0], 0);
      BytesAreAField(p[0], 0, 0);
    } else {
      hide LagrangeSum;
      var r := Last(xs);
      var q, rest := DivideOut(p, r), Product(Init(xs));
      LagrangeDivides(p, xs);
      LagrangeOnePointShort(q, Init(xs));
      DivideOutKeepsLead(p, r);
      DivideOutAtZero(p, r);
      MulAddRight(r, Eval(q, 0), Mul(Last(p), rest));
      MulAssociates(r, Last(p), rest);
      MulCommutes(r, Last(p));
      MulAssociates(Last(p), r, rest);
      AddLaws(Eval(p, r), Mul(r, Eval(q, 0)), Mul(r, Mul(Last(p), rest)));
    }
  }

  lemma {:induction false} ProductNonZero(xs: seq<bv8>)
    requires forall i :: 0 <= i < |xs| ==> xs[i] != 0
    ensures Product(xs) != 0
    decreases |xs|
  {
    hide Mul;
    if xs != [] {
      ProductNonZero(Init(xs));
      NoZeroDivisors(Last(xs), Product(Init(xs)));
    }
  }
}
