/** Lagrange interpolation at zero, modulo a prime. */
module Lagrange {
  import opened Arithmetic
  import opened Sequences

  /* ---------------------------------------------------------------- coefficients */

  function Shifted(xs: seq<int>, y: int): (r: seq<int>)
    ensures |r| == |xs|
  {
    seq(|xs|, j requires 0 <= j < |xs| => xs[j] - y)
  }

  /** Numerator and denominator of the coefficient of node `i`: products over the other nodes. */
  function Num(xs: seq<int>, i: nat): int
    requires i < |xs|
  {
    Prod(Rest(xs, i))
  }

  function Den(xs: seq<int>, i: nat): int
    requires i < |xs|
  {
    Prod(Shifted(Rest(xs, i), xs[i]))
  }

  ghost predicate Distinct(xs: seq<int>, q: int)
    requires q > 0
  {
    forall i, j :: 0 <= i < j < |xs| ==> !Congruent(xs[i], xs[j], q)
  }

  lemma DistinctSlices(xs: seq<int>, q: int)
    requires q > 0 && Distinct(xs, q) && |xs| > 0
    ensures Distinct(xs[..|xs| - 1], q) && Distinct(xs[1..], q)
  {
  }

  ghost predicate NonZero(xs: seq<int>, q: int)
    requires q > 0
  {
    forall i :: 0 <= i < |xs| ==> !Divides(q, xs[i])
  }

  /** The defining equation of the interpolation coefficients at zero. */
  ghost predicate Coefficients(ps: seq<int>, xs: seq<int>, q: int)
    requires q > 0
  {
    && |ps| == |xs|
    && forall i :: 0 <= i < |xs| ==> Congruent(ps[i] * Den(xs, i), Num(xs, i), q)
  }

  /** The coefficients as quotients of residues. */
  function Quotients(xs: seq<int>, q: int): (ps: seq<int>)
    requires q > 1
    ensures |ps| == |xs|
  {
    seq(|xs|, i requires 0 <= i < |xs| => Num(xs, i) * Inverse(Den(xs, i), q))
  }

  /** A denominator vanishes exactly when its node occurs a second time. */
  lemma {:induction false} DenDivisible(xs: seq<int>, i: nat, q: int)
    requires IsPrime(q) && i < |xs|
    ensures Divides(q, Den(xs, i)) <==> exists j :: 0 <= j < |xs| && j != i && Congruent(xs[j], xs[i], q)
  {
    var s := Shifted(Rest(xs, i), xs[i]);
    PrimeDividesProd(q, s);
    if j :| 0 <= j < |xs| && j != i && Congruent(xs[j], xs[i], q) {
      CongruentIffDividesDifference(xs[j], xs[i], q);
      var k := if j < i then j else j - 1;
      RestAt(xs, i, k);
      assert Divides(q, s[k]);
    }
    if k :| 0 <= k < |s| && Divides(q, s[k]) {
      RestAt(xs, i, k);
      var j := if k < i then k else k + 1;
      CongruentIffDividesDifference(xs[j], xs[i], q);
    }
  }

  lemma {:induction false} DenUnit(xs: seq<int>, i: nat, q: int)
    requires IsPrime(q) && i < |xs| && Distinct(xs, q)
    ensures !Divides(q, Den(xs, i))
  {
    DenDivisible(xs, i, q);
  }

  lemma {:induction false} QuotientsAreCoefficients(xs: seq<int>, q: int)
    requires IsPrime(q) && Distinct(xs, q)
    ensures Coefficients(Quotients(xs, q), xs, q)
  {
    forall i | 0 <= i < |xs|
      ensures Congruent(Quotients(xs, q)[i] * Den(xs, i), Num(xs, i), q)
    {
      DenUnit(xs, i, q);
      QuotientSolves(Num(xs, i), Den(xs, i), q);
    }
  }

  lemma QuotientSolves(num: int, den: int, q: int)
    requires IsPrime(q) && !Divides(q, den)
    ensures Congruent(num * Inverse(den, q) * den, num, q)
  {
    PrimeGcd(q, den);
    var r := Inverse(den, q);
    CongruentMul(num, num, den * r, 1, q);
    assert num * (den * r) == num * r * den;
  }

  /** Coefficients are unique modulo `q`. */
  lemma {:induction false} CoefficientsUnique(ps: seq<int>, ps': seq<int>, xs: seq<int>, q: int, i: nat)
    requires IsPrime(q) && Distinct(xs, q) && i < |xs|
    requires Coefficients(ps, xs, q) && Coefficients(ps', xs, q)
    ensures Congruent(ps[i], ps'[i], q)
  {
    DenUnit(xs, i, q);
    assert ps[i] * Den(xs, i) == Den(xs, i) * ps[i];
    assert ps'[i] * Den(xs, i) == Den(xs, i) * ps'[i];
    CancelMod(q, Den(xs, i), ps[i], ps'[i]);
  }

  /* ---------------------------------------------------------------- removing a node */

  lemma {:induction false} PeelCoefficient(p: int, p': int, num: int, den: int, xa: int, xi: int, q: int)
    requires IsPrime(q) && !Divides(q, den)
    requires Congruent(p * (den * (xa - xi)), num * xa, q)
    requires Congruent(p' * den, num, q)
    ensures Congruent(p * (xa - xi), xa * p', q)
  {
    CongruentMul(p' * den, num, xa, xa, q);
    assert p * (den * (xa - xi)) == den * (p * (xa - xi));
    assert p' * den * xa == den * (xa * p');
    CancelMod(q, den, p * (xa - xi), xa * p');
  }

  lemma {:induction false} SplitLast(xs: seq<int>, i: nat)
    requires i < |xs| - 1
    ensures Num(xs, i) == Num(xs[..|xs| - 1], i) * xs[|xs| - 1]
    ensures Den(xs, i) == Den(xs[..|xs| - 1], i) * (xs[|xs| - 1] - xs[i])
  {
    hide Prod;
    var n := |xs| - 1;
    var r := Rest(xs[..n], i);
    assert Rest(xs, i) == r + [xs[n]];
    ProdConcat(r, [xs[n]]);
    ProdSingle(xs[n]);
    assert Shifted(Rest(xs, i), xs[i]) == Shifted(r, xs[i]) + [xs[n] - xs[i]];
    ProdConcat(Shifted(r, xs[i]), [xs[n] - xs[i]]);
    ProdSingle(xs[n] - xs[i]);
  }

  lemma {:induction false} SplitFirst(xs: seq<int>, i: nat)
    requires 0 < i < |xs|
    ensures Num(xs, i) == Num(xs[1..], i - 1) * xs[0]
    ensures Den(xs, i) == Den(xs[1..], i - 1) * (xs[0] - xs[i])
  {
    hide Prod;
    var r := Rest(xs[1..], i - 1);
    assert Rest(xs, i) == [xs[0]] + r;
    ProdConcat([xs[0]], r);
    ProdSingle(xs[0]);
    assert Shifted(Rest(xs, i), xs[i]) == [xs[0] - xs[i]] + Shifted(r, xs[i]);
    ProdConcat([xs[0] - xs[i]], Shifted(r, xs[i]));
    ProdSingle(xs[0] - xs[i]);
  }

  lemma {:induction false} PeelLast(ps: seq<int>, ps': seq<int>, xs: seq<int>, q: int, i: nat)
    requires IsPrime(q) && Distinct(xs, q) && i < |xs| - 1
    requires Coefficients(ps, xs, q) && Coefficients(ps', xs[..|xs| - 1], q)
    ensures Congruent(ps[i] * (xs[|xs| - 1] - xs[i]), xs[|xs| - 1] * ps'[i], q)
  {
    hide Congruent, Num, Den;
    var n := |xs| - 1;
    SplitLast(xs, i);
    DenUnit(xs[..n], i, q);
    PeelCoefficient(ps[i], ps'[i], Num(xs[..n], i), Den(xs[..n], i), xs[n], xs[i], q);
  }

  lemma {:induction false} PeelFirst(ps: seq<int>, ps': seq<int>, xs: seq<int>, q: int, i: nat)
    requires IsPrime(q) && Distinct(xs, q) && 0 < i < |xs|
    requires Coefficients(ps, xs, q) && Coefficients(ps', xs[1..], q)
    ensures Congruent(ps[i] * (xs[0] - xs[i]), xs[0] * ps'[i - 1], q)
  {
    hide Congruent, Num, Den;
    SplitFirst(xs, i);
    DenUnit(xs[1..], i - 1, q);
    PeelCoefficient(ps[i], ps'[i - 1], Num(xs[1..], i - 1), Den(xs[1..], i - 1), xs[0], xs[i], q);
  }

  /** Pointwise products. */
  function Times(u: seq<int>, v: seq<int>): (r: seq<int>)
    requires |u| == |v|
    ensures |r| == |u|
  {
    seq(|u|, i requires 0 <= i < |u| => u[i] * v[i])
  }

  function Dot(u: seq<int>, v: seq<int>): int
    requires |u| == |v|
  {
    Sum(Times(u, v))
  }

  lemma PeelTerm(p: int, x: int, v: int, xa: int, p': int, q: int)
    requires q > 0 && Congruent(p * (xa - x), xa * p', q)
    ensures Congruent(p * (x * v), xa * (p * v) + (-xa) * (p' * v), q)
  {
    CongruentMul(p * (xa - x), xa * p', v, v, q);
    CongruentSub(xa * (p * v), xa * (p * v), p * (xa - x) * v, xa * p' * v, q);
    assert xa * (p * v) - p * (xa - x) * v == p * (x * v);
    assert xa * (p * v) - xa * p' * v == xa * (p * v) + (-xa) * (p' * v);
  }

  /** Multiplying the values by the nodes, after splitting off one node whose term is left out of `b`. */
  lemma {:induction false} PeelSum(l: seq<int>, a: seq<int>, b: seq<int>, xa: int, q: int)
    requires q > 0 && |l| == |a| == |b|
    requires forall i :: 0 <= i < |l| ==> Congruent(l[i], xa * a[i] + (-xa) * b[i], q)
    ensures Congruent(Sum(l), xa * (Sum(a) - Sum(b)), q)
  {
    var t := seq(|l|, i requires 0 <= i < |l| => xa * a[i] + (-xa) * b[i]);
    SumCongruent(l, t, q);
    SumCombination(t, a, b, xa, -xa);
    assert xa * Sum(a) + (-xa) * Sum(b) == xa * (Sum(a) - Sum(b));
  }

  lemma OwnTerm(p: int, x: int, v: int, q: int)
    requires q > 0
    ensures Congruent(p * (x * v), x * (p * v) + (-x) * (0 * v), q)
  {
    assert p * (x * v) == x * (p * v) + (-x) * (0 * v);
  }

  lemma {:induction false} PeelLastTerm(ps: seq<int>, ps': seq<int>, xs: seq<int>, v: int, q: int, i: nat)
    requires IsPrime(q) && Distinct(xs, q) && i < |xs|
    requires Coefficients(ps, xs, q) && Coefficients(ps', xs[..|xs| - 1], q)
    ensures var xa, p' := xs[|xs| - 1], if i < |xs| - 1 then ps'[i] else 0;
            Congruent(ps[i] * (xs[i] * v), xa * (ps[i] * v) + (-xa) * (p' * v), q)
  {
    hide Congruent, Num, Den;
    if i < |xs| - 1 {
      PeelLast(ps, ps', xs, q, i);
      PeelTerm(ps[i], xs[i], v, xs[|xs| - 1], ps'[i], q);
    } else {
      OwnTerm(ps[i], xs[i], v, q);
    }
  }

  lemma {:induction false} PeelFirstTerm(ps: seq<int>, ps': seq<int>, xs: seq<int>, v: int, q: int, i: nat)
    requires IsPrime(q) && Distinct(xs, q) && i < |xs|
    requires Coefficients(ps, xs, q) && Coefficients(ps', xs[1..], q)
    ensures var xa, p' := xs[0], if i > 0 then ps'[i - 1] else 0;
            Congruent(ps[i] * (xs[i] * v), xa * (ps[i] * v) + (-xa) * (p' * v), q)
  {
    hide Congruent, Num, Den;
    if i > 0 {
      PeelFirst(ps, ps', xs, q, i);
      PeelTerm(ps[i], xs[i], v, xs[0], ps'[i - 1], q);
    } else {
      OwnTerm(ps[i], xs[i], v, q);
    }
  }

  /** Sums of pointwise products whose terms split as in `PeelTerm`. */
  lemma {:induction false} PeelDot(ps: seq<int>, b: seq<int>, xs: seq<int>, vs: seq<int>, xa: int, q: int)
    requires q > 0 && |ps| == |b| == |xs| == |vs|
    requires forall i :: 0 <= i < |xs| ==>
               Congruent(ps[i] * (xs[i] * vs[i]), xa * (ps[i] * vs[i]) + (-xa) * (b[i] * vs[i]), q)
    ensures Congruent(Dot(ps, Times(xs, vs)), xa * (Dot(ps, vs) - Dot(b, vs)), q)
  {
    hide Congruent;
    PeelSum(Times(ps, Times(xs, vs)), Times(ps, vs), Times(b, vs), xa, q);
  }

  lemma {:induction false} DotZeroLast(ps: seq<int>, vs: seq<int>)
    requires |ps| + 1 == |vs|
    ensures Dot(ps + [0], vs) == Dot(ps, vs[..|ps|])
  {
    assert Times(ps + [0], vs) == Times(ps, vs[..|ps|]) + [0];
  }

  lemma {:induction false} DotZeroFirst(ps: seq<int>, vs: seq<int>)
    requires |ps| + 1 == |vs|
    ensures Dot([0] + ps, vs) == Dot(ps, vs[1..])
  {
    assert Times([0] + ps, vs) == [0] + Times(ps, vs[1..]);
    SumConcat([0], Times(ps, vs[1..]));
    SumSingle(0);
  }

  lemma {:induction false} DotPeelLast(ps: seq<int>, ps': seq<int>, xs: seq<int>, vs: seq<int>, q: int)
    requires IsPrime(q) && Distinct(xs, q) && 0 < |xs| == |vs|
    requires Coefficients(ps, xs, q) && Coefficients(ps', xs[..|xs| - 1], q)
    ensures Congruent(Dot(ps, Times(xs, vs)), xs[|xs| - 1] * (Dot(ps, vs) - Dot(ps', vs[..|xs| - 1])), q)
  {
    hide Congruent, Num, Den, Dot;
    var n := |xs| - 1;
    var b := ps' + [0];
    DotZeroLast(ps', vs);
    forall i | 0 <= i < |xs|
      ensures Congruent(ps[i] * (xs[i] * vs[i]), xs[n] * (ps[i] * vs[i]) + (-xs[n]) * (b[i] * vs[i]), q)
    {
      PeelLastTerm(ps, ps', xs, vs[i], q, i);
    }
    PeelDot(ps, b, xs, vs, xs[n], q);
  }

  lemma {:induction false} DotPeelFirst(ps: seq<int>, ps': seq<int>, xs: seq<int>, vs: seq<int>, q: int)
    requires IsPrime(q) && Distinct(xs, q) && 0 < |xs| == |vs|
    requires Coefficients(ps, xs, q) && Coefficients(ps', xs[1..], q)
    ensures Congruent(Dot(ps, Times(xs, vs)), xs[0] * (Dot(ps, vs) - Dot(ps', vs[1..])), q)
  {
    hide Congruent, Num, Den, Dot;
    var b := [0] + ps';
    DotZeroFirst(ps', vs);
    forall i | 0 <= i < |xs|
      ensures Congruent(ps[i] * (xs[i] * vs[i]), xs[0] * (ps[i] * vs[i]) + (-xs[0]) * (b[i] * vs[i]), q)
    {
      PeelFirstTerm(ps, ps', xs, vs[i], q, i);
    }
    PeelDot(ps, b, xs, vs, xs[0], q);
  }

  /* ---------------------------------------------------------------- interpolation */

  function Ones(n: nat): (r: seq<int>)
    ensures |r| == n
  {
    seq(n, _ => 1)
  }

  /** The coefficients of distinct nodes add up to one. */
  lemma {:induction false} CoefficientsSumToOne(ps: seq<int>, xs: seq<int>, q: int)
    requires IsPrime(q) && Distinct(xs, q) && |xs| > 0
    requires Coefficients(ps, xs, q)
    ensures Congruent(Dot(ps, Ones(|xs|)), 1, q)
    decreases |xs|
  {
    var n := |xs| - 1;
    if n == 0 {
      assert Rest(xs, 0) == [];
      assert Shifted(Rest(xs, 0), xs[0]) == [];
      assert Times(ps, Ones(1)) == [ps[0]];
      SumSingle(ps[0]);
    } else {
      hide Congruent, Coefficients, Dot, Num, Den;
      DistinctSlices(xs, q);
      var front, back := Quotients(xs[..n], q), Quotients(xs[1..], q);
      QuotientsAreCoefficients(xs[..n], q);
      QuotientsAreCoefficients(xs[1..], q);
      CoefficientsSumToOne(front, xs[..n], q);
      CoefficientsSumToOne(back, xs[1..], q);
      var ones := Ones(|xs|);
      assert ones[..n] == Ones(n) == ones[1..];
      DotPeelLast(ps, front, xs, ones, q);
      DotPeelFirst(ps, back, xs, ones, q);
      TwoNodes(Dot(ps, Times(xs, ones)), Dot(ps, ones), xs[n], Dot(front, Ones(n)), xs[0], Dot(back, Ones(n)), q);
    }
  }

  lemma TwoNodes(l: int, s: int, xa: int, sa: int, xb: int, sb: int, q: int)
    requires IsPrime(q) && !Congruent(xb, xa, q)
    requires Congruent(sa, 1, q) && Congruent(sb, 1, q)
    requires Congruent(l, xa * (s - sa), q) && Congruent(l, xb * (s - sb), q)
    ensures Congruent(s, 1, q)
  {
    CongruentSub(s, s, sa, 1, q);
    CongruentSub(s, s, sb, 1, q);
    CongruentMul(xa, xa, s - sa, s - 1, q);
    CongruentMul(xb, xb, s - sb, s - 1, q);
    CongruentIffDividesDifference(xb * (s - 1), xa * (s - 1), q);
    assert xb * (s - 1) - xa * (s - 1) == (xb - xa) * (s - 1);
    EuclidLemma(q, xb - xa, s - 1);
    CongruentIffDividesDifference(xb, xa, q);
    CongruentIffDividesDifference(s, 1, q);
  }

  /** The values of the linear factors `d[i] * x + b[i]`, and of their product. */
  function Factors(d: seq<int>, b: seq<int>, x: int): (r: seq<int>)
    requires |d| == |b|
    ensures |r| == |d|
  {
    seq(|d|, i requires 0 <= i < |d| => d[i] * x + b[i])
  }

  function Eval(d: seq<int>, b: seq<int>, x: int): int
    requires |d| == |b|
  {
    Prod(Factors(d, b, x))
  }

  function Values(d: seq<int>, b: seq<int>, xs: seq<int>): (r: seq<int>)
    requires |d| == |b|
    ensures |r| == |xs|
  {
    seq(|xs|, i requires 0 <= i < |xs| => Eval(d, b, xs[i]))
  }

  lemma EvalStep(d: seq<int>, b: seq<int>, x: int)
    requires |d| == |b| > 0
    ensures Eval(d, b, x) == Eval(d[..|d| - 1], b[..|d| - 1], x) * (d[|d| - 1] * x + b[|d| - 1])
  {
    var n := |d| - 1;
    assert Factors(d, b, x)[..n] == Factors(d[..n], b[..n], x);
  }

  lemma {:induction false} EvalAtZero(d: seq<int>, b: seq<int>)
    requires |d| == |b|
    ensures Eval(d, b, 0) == Prod(b)
  {
    assert Factors(d, b, 0) == b;
  }

  /** One more factor: the sum for `F = (d * x + c) * G` from the two sums for `G`. */
  lemma {:induction false} DotOneMoreFactor(ps: seq<int>, xs: seq<int>, d: seq<int>, b: seq<int>)
    requires |ps| == |xs| && |d| == |b| > 0
    ensures var n := |d| - 1;
            var vs := Values(d[..n], b[..n], xs);
            Dot(ps, Values(d, b, xs)) == d[n] * Dot(ps, Times(xs, vs)) + b[n] * Dot(ps, vs)
  {
    var n := |d| - 1;
    var vs := Values(d[..n], b[..n], xs);
    forall i | 0 <= i < |xs|
      ensures Times(ps, Values(d, b, xs))[i] == d[n] * Times(ps, Times(xs, vs))[i] + b[n] * Times(ps, vs)[i]
    {
      EvalStep(d, b, xs[i]);
      FactorAlgebra(ps[i], vs[i], d[n], xs[i], b[n]);
    }
    SumCombination(Times(ps, Values(d, b, xs)), Times(ps, Times(xs, vs)), Times(ps, vs), d[n], b[n]);
  }

  lemma FactorAlgebra(p: int, v: int, d: int, x: int, b: int)
    ensures p * (v * (d * x + b)) == d * (p * (x * v)) + b * (p * v)
  {
  }

  /** Interpolation at zero: any `n` distinct nodes recover the constant term of every
      product of fewer than `n` linear factors. */
  lemma {:induction false} InterpolateAtZero(ps: seq<int>, xs: seq<int>, d: seq<int>, b: seq<int>, q: int)
    requires IsPrime(q) && Distinct(xs, q)
    requires Coefficients(ps, xs, q)
    requires |d| == |b| < |xs|
    ensures Congruent(Dot(ps, Values(d, b, xs)), Prod(b), q)
    decreases |xs|, |d|
  {
    if d == [] {
      assert Values(d, b, xs) == Ones(|xs|);
      CoefficientsSumToOne(ps, xs, q);
    } else {
      hide Congruent, Coefficients, Distinct, Dot, Values, Prod;
      var n, m := |d| - 1, |xs| - 1;
      DistinctSlices(xs, q);
      var front := Quotients(xs[..m], q);
      QuotientsAreCoefficients(xs[..m], q);
      InterpolateAtZero(ps, xs, d[..n], b[..n], q);
      InterpolateAtZero(front, xs[..m], d[..n], b[..n], q);
      InterpolationStep(ps, front, xs, d, b, q);
    }
  }

  lemma {:induction false} InterpolationStep(ps: seq<int>, front: seq<int>, xs: seq<int>, d: seq<int>,
      b: seq<int>, q: int)
    requires IsPrime(q) && Distinct(xs, q) && 0 < |d| == |b| < |xs|
    requires Coefficients(ps, xs, q) && Coefficients(front, xs[..|xs| - 1], q)
    requires Congruent(Dot(ps, Values(d[..|d| - 1], b[..|d| - 1], xs)), Prod(b[..|d| - 1]), q)
    requires Congruent(Dot(front, Values(d[..|d| - 1], b[..|d| - 1], xs[..|xs| - 1])), Prod(b[..|d| - 1]), q)
    ensures Congruent(Dot(ps, Values(d, b, xs)), Prod(b), q)
  {
    assert |ps| == |xs| && |front| == |xs| - 1;
    assert Prod(b) == Prod(b[..|d| - 1]) * b[|d| - 1];
    hide Congruent, Coefficients, Dot, Prod, Eval;
    var n, m := |d| - 1, |xs| - 1;
    var vs := Values(d[..n], b[..n], xs);
    assert Values(d[..n], b[..n], xs[..m]) == vs[..m];
    DotPeelLast(ps, front, xs, vs, q);
    DotOneMoreFactor(ps, xs, d, b);
    OneMoreFactor(Dot(ps, Times(xs, vs)), xs[m], Dot(ps, vs), Dot(front, vs[..m]), d[n], b[n], Prod(b[..n]), q);
  }

  lemma OneMoreFactor(l: int, xa: int, s: int, s': int, d: int, b: int, c: int, q: int)
    requires q > 0
    requires Congruent(s, c, q) && Congruent(s', c, q)
    requires Congruent(l, xa * (s - s'), q)
    ensures Congruent(d * l + b * s, c * b, q)
  {
    CongruentSub(s, c, s', c, q);
    CongruentMul(xa, xa, s - s', 0, q);
    CongruentMul(d, d, l, 0, q);
    CongruentMul(b, b, s, c, q);
    CongruentAdd(d * l, 0, b * s, b * c, q);
    assert b * c == c * b;
  }
}
