/** The two ways the verifier has of computing interpolation coefficients at zero. */
module InterpolationCoefficients {
  import opened Arithmetic
  import opened Sequences
  import opened Lagrange

  /* ---------------------------------------------------------------- the two forms */

  /** `prodX / x_i / Π (x_j - x_i)`: one shared product and two inverses per node. */
  function FastPi(xs: seq<int>, i: nat, q: int): (r: nat)
    requires q > 1 && i < |xs|
    ensures 0 <= r < q
  {
    (Prod(xs) * Inverse(xs[i], q) * Inverse(Den(xs, i), q)) % q
  }

  function FastPis(xs: seq<int>, q: int): (r: seq<int>)
    requires q > 1
    ensures |r| == |xs|
  {
    seq(|xs|, i requires 0 <= i < |xs| => FastPi(xs, i, q))
  }

  function Negated(xs: seq<int>): (r: seq<int>)
    ensures |r| == |xs|
  {
    seq(|xs|, j requires 0 <= j < |xs| => -xs[j])
  }

  function SlowNum(xs: seq<int>, i: nat): int
    requires i < |xs|
  {
    Prod(Negated(Rest(xs, i)))
  }

  function SlowDen(xs: seq<int>, i: nat): int
    requires i < |xs|
  {
    Prod(Negated(Shifted(Rest(xs, i), xs[i])))
  }

  /** `Π (-x_j) / Π (x_i - x_j)`, the textbook form. */
  function SlowPi(xs: seq<int>, i: nat, q: int): int
    requires q > 1 && i < |xs|
  {
    SlowNum(xs, i) * Inverse(SlowDen(xs, i), q)
  }

  /* ---------------------------------------------------------------- the shared product */

  lemma {:induction false} ProdSplit(xs: seq<int>, i: nat)
    requires i < |xs|
    ensures Prod(xs) == Num(xs, i) * xs[i]
  {
    hide Prod;
    var u, v := xs[..i], xs[i + 1..];
    assert xs == u + ([xs[i]] + v);
    ProdConcat(u, [xs[i]] + v);
    ProdConcat([xs[i]], v);
    ProdConcat(u, v);
    ProdSingle(xs[i]);
    assert Prod(u) * (xs[i] * Prod(v)) == Prod(u) * Prod(v) * xs[i];
  }

  lemma InverseCancels(n: int, x: int, q: int)
    requires IsPrime(q) && !Divides(q, x)
    ensures Congruent(n * x * Inverse(x, q), n, q)
  {
    PrimeGcd(q, x);
    CongruentMul(n, n, x * Inverse(x, q), 1, q);
    assert n * (x * Inverse(x, q)) == n * x * Inverse(x, q);
  }

  /** Away from zero nodes the fast form is the plain quotient, even for repeated nodes. */
  lemma {:induction false} FastIsQuotient(xs: seq<int>, i: nat, q: int)
    requires IsPrime(q) && i < |xs| && !Divides(q, xs[i])
    ensures Congruent(FastPi(xs, i, q), Num(xs, i) * Inverse(Den(xs, i), q), q)
  {
    var inv := Inverse(Den(xs, i), q);
    ProdSplit(xs, i);
    InverseCancels(Num(xs, i), xs[i], q);
    CongruentMul(Prod(xs) * Inverse(xs[i], q), Num(xs, i), inv, inv, q);
    ModIsCongruent(Prod(xs) * Inverse(xs[i], q) * inv, q);
  }

  /** The coefficients the verifier computes are the interpolation coefficients. */
  lemma {:induction false} FastPisAreCoefficients(xs: seq<int>, q: int)
    requires IsPrime(q) && Distinct(xs, q) && NonZero(xs, q)
    ensures Coefficients(FastPis(xs, q), xs, q)
  {
    hide Congruent, Num, Den, FastPi;
    forall i | 0 <= i < |xs|
      ensures Congruent(FastPis(xs, q)[i] * Den(xs, i), Num(xs, i), q)
    {
      FastSolves(xs, i, q);
    }
  }

  lemma {:induction false} FastSolves(xs: seq<int>, i: nat, q: int)
    requires IsPrime(q) && Distinct(xs, q) && i < |xs| && !Divides(q, xs[i])
    ensures Congruent(FastPi(xs, i, q) * Den(xs, i), Num(xs, i), q)
  {
    hide Num, Den, FastPi;
    FastIsQuotient(xs, i, q);
    DenUnit(xs, i, q);
    QuotientSolves(Num(xs, i), Den(xs, i), q);
    CongruentMul(FastPi(xs, i, q), Num(xs, i) * Inverse(Den(xs, i), q), Den(xs, i), Den(xs, i), q);
  }

  /* ---------------------------------------------------------------- when a coefficient vanishes */

  lemma InverseDivisible(a: int, q: int)
    requires IsPrime(q)
    ensures Divides(q, Inverse(a, q)) <==> Divides(q, a)
  {
    PrimeGcd(q, a);
    if Divides(q, Inverse(a, q)) {
      DivisorsSmall(q, Inverse(a, q));
    }
    ModUnique(0, q, 0, 0);
  }

  lemma ModDivisible(a: int, q: int)
    requires q > 0
    ensures Divides(q, a % q) <==> Divides(q, a)
  {
    ModIsCongruent(a, q);
  }

  /** A fast coefficient is zero exactly when some node is zero or its own node is repeated. */
  lemma {:induction false} FastPiVanishes(xs: seq<int>, i: nat, q: int)
    requires IsPrime(q) && i < |xs|
    ensures Divides(q, FastPi(xs, i, q)) <==>
            !NonZero(xs, q) || exists j :: 0 <= j < |xs| && j != i && Congruent(xs[j], xs[i], q)
  {
    hide Prod, Den, Congruent;
    var a, b, c := Prod(xs), Inverse(xs[i], q), Inverse(Den(xs, i), q);
    ModDivisible(a * b * c, q);
    EuclidLemma(q, a * b, c);
    EuclidLemma(q, a, b);
    PrimeDividesProd(q, xs);
    InverseDivisible(xs[i], q);
    InverseDivisible(Den(xs, i), q);
    DenDivisible(xs, i, q);
  }

  /* ---------------------------------------------------------------- agreement of the two forms */

  lemma {:induction false} ProdNegated(s: seq<int>)
    ensures Prod(Negated(s)) == if |s| % 2 == 0 then Prod(s) else -Prod(s)
  {
    if s != [] {
      var n := |s| - 1;
      ProdNegated(s[..n]);
      assert Negated(s)[..n] == Negated(s[..n]);
      SignStep(Prod(s[..n]), Prod(Negated(s[..n])), s[n], n);
    }
  }

  lemma SignStep(p: int, p': int, x: int, n: nat)
    requires p' == if n % 2 == 0 then p else -p
    ensures p' * (-x) == if (n + 1) % 2 == 0 then p * x else -(p * x)
  {
  }

  lemma NegatedQuotient(num: int, den: int, q: int)
    requires IsPrime(q)
    ensures Congruent((-num) * Inverse(-den, q), num * Inverse(den, q), q)
  {
    var u: int, v: int := Inverse(-den, q), Inverse(den, q);
    PrimeGcd(q, den);
    PrimeGcd(q, -den);
    NegatedDivisible(den, q);
    if !Divides(q, den) {
      assert (-den) * u == den * (-u);
      CancelMod(q, den, -u, v);
      CongruentMul(num, num, -u, v, q);
      assert num * (-u) == (-num) * u;
    }
  }

  lemma NegatedDivisible(a: int, q: int)
    requires q > 0
    ensures Divides(q, -a) <==> Divides(q, a)
  {
    if Divides(q, a) {
      DividesCombination(q, a, a, -1, 0);
    }
    if Divides(q, -a) {
      DividesCombination(q, -a, -a, -1, 0);
    }
  }

  /** The signs of the textbook form cancel, for every list of nodes. */
  lemma {:induction false} SlowIsQuotient(xs: seq<int>, i: nat, q: int)
    requires IsPrime(q) && i < |xs|
    ensures Congruent(SlowPi(xs, i, q), Num(xs, i) * Inverse(Den(xs, i), q), q)
  {
    ProdNegated(Rest(xs, i));
    ProdNegated(Shifted(Rest(xs, i), xs[i]));
    NegatedQuotient(Num(xs, i), Den(xs, i), q);
  }

  lemma {:induction false} QuotientVanishes(xs: seq<int>, i: nat, q: int)
    requires IsPrime(q) && i < |xs| && Divides(q, xs[i])
    ensures Divides(q, Num(xs, i) * Inverse(Den(xs, i), q)) <==> !NonZero(Rest(xs, i), q)
  {
    EuclidLemma(q, Num(xs, i), Inverse(Den(xs, i), q));
    InverseDivisible(Den(xs, i), q);
    PrimeDividesProd(q, Rest(xs, i));
    DenDivisible(xs, i, q);
    DividesIffCongruentZero(xs[i], q);
    if j :| 0 <= j < |xs| && j != i && Congruent(xs[j], xs[i], q) {
      DividesIffCongruentZero(xs[j], q);
      RestAt(xs, i, if j < i then j else j - 1);
    }
  }

  /** The fast form refines the textbook form at node `i` exactly when `i` is not the only zero node. */
  lemma {:induction false} FastRefinesSlow(xs: seq<int>, i: nat, q: int)
    requires IsPrime(q) && i < |xs|
    ensures Congruent(FastPi(xs, i, q), SlowPi(xs, i, q), q) <==>
            !(Divides(q, xs[i]) && NonZero(Rest(xs, i), q))
  {
    SlowIsQuotient(xs, i, q);
    if Divides(q, xs[i]) {
      hide FastPi, SlowPi, Num, Den, Congruent;
      FastPiVanishes(xs, i, q);
      QuotientVanishes(xs, i, q);
      SameIffBothVanish(FastPi(xs, i, q), SlowPi(xs, i, q), Num(xs, i) * Inverse(Den(xs, i), q), q);
    } else {
      FastIsQuotient(xs, i, q);
    }
  }

  lemma SameIffBothVanish(a: int, b: int, c: int, q: int)
    requires q > 0 && Divides(q, a) && Congruent(b, c, q)
    ensures Congruent(a, b, q) <==> Divides(q, c)
  {
    DividesIffCongruentZero(a, q);
    DividesIffCongruentZero(c, q);
  }

  /* ---------------------------------------------------------------- when interpolation is exact */

  /** A value as the random generator draws it: `[1, q]`, so possibly zero modulo `q`. */
  predicate Drawn(x: nat, q: nat)
  {
    1 <= x <= q
  }

  predicate AllDrawn(xs: seq<nat>, q: nat)
  {
    forall i :: 0 <= i < |xs| ==> Drawn(xs[i], q)
  }

  /** The two halves of a key as the authority draws them. */
  predicate DrawnKeys(d: seq<nat>, b: seq<nat>, q: nat)
  {
    |d| == |b| && AllDrawn(d, q) && AllDrawn(b, q)
  }

  ghost predicate Recovers(xs: seq<int>, d: seq<int>, b: seq<int>, q: int)
    requires q > 1 && |d| == |b|
  {
    Congruent(Dot(FastPis(xs, q), Values(d, b, xs)), Prod(b), q)
  }

  lemma {:induction false} DotVanishes(ps: seq<int>, vs: seq<int>, q: int)
    requires IsPrime(q) && |ps| == |vs|
    requires forall i :: 0 <= i < |ps| ==> Divides(q, ps[i]) || Divides(q, vs[i])
    ensures Divides(q, Dot(ps, vs))
  {
    var zeros := seq(|ps|, _ => 0);
    forall i | 0 <= i < |ps|
      ensures Congruent(Times(ps, vs)[i], zeros[i], q)
    {
      EuclidLemma(q, ps[i], vs[i]);
      DividesIffCongruentZero(ps[i] * vs[i], q);
    }
    SumCongruent(Times(ps, vs), zeros, q);
    SumCombination(zeros, zeros, zeros, 0, 0);
    DividesIffCongruentZero(Dot(ps, vs), q);
  }

  /** The factor that vanishes at `y`, with coefficients in `[1, q]`. */
  function RootFactor(y: int, q: int): (b: nat)
    requires q > 1
    ensures 1 <= b <= q
  {
    q - y % q
  }

  lemma RootFactorVanishes(x: int, y: int, q: int)
    requires q > 1
    ensures Divides(q, 1 * x + RootFactor(y, q)) <==> Congruent(x, y, q)
    ensures Divides(q, RootFactor(y, q)) <==> Divides(q, y)
  {
    ModIsCongruent(y, q);
    ModUnique(q, q, 1, 0);
    ModUnique(0, q, 0, 0);
    CongruentSub(q, 0, y % q, y, q);
    CongruentAdd(x, x, RootFactor(y, q), -y, q);
    CongruentIffDividesDifference(x, y, q);
    NegatedDivisible(y, q);
  }

  /** A polynomial with a root at every node but `i` and `j`: the factor for `i` is the constant 1. */
  function RootsElsewhere(xs: seq<int>, i: nat, j: nat, q: nat): (r: (seq<nat>, seq<nat>))
    requires q > 1 && i < j < |xs|
    ensures |r.0| == |r.1| == |xs| - 1
  {
    var nodes := Rest(xs, j);
    (seq(|nodes|, k requires 0 <= k < |nodes| => if k == i then q else 1),
     seq(|nodes|, k requires 0 <= k < |nodes| => if k == i then 1 else RootFactor(nodes[k], q)))
  }

  lemma {:induction false} RootsElsewhereVanish(xs: seq<int>, i: nat, j: nat, m: nat, q: nat)
    requires IsPrime(q) && i < j < |xs| && m < |xs| && m != i && m != j
    ensures var (d, b) := RootsElsewhere(xs, i, j, q); Divides(q, Eval(d, b, xs[m]))
  {
    var (d, b) := RootsElsewhere(xs, i, j, q);
    var k := if m < j then m else m - 1;
    RestAt(xs, j, k);
    RootFactorVanishes(xs[m], xs[m], q);
    assert Divides(q, Factors(d, b, xs[m])[k]);
    PrimeDividesProd(q, Factors(d, b, xs[m]));
  }

  lemma {:induction false} RootsElsewhereAtZero(xs: seq<int>, i: nat, j: nat, q: nat)
    requires IsPrime(q) && i < j < |xs| && NonZero(xs, q)
    ensures var (d, b) := RootsElsewhere(xs, i, j, q); !Divides(q, Prod(b))
  {
    var (d, b) := RootsElsewhere(xs, i, j, q);
    PrimeDividesProd(q, b);
    ModUnique(1, q, 0, 1);
    if k :| 0 <= k < |b| && Divides(q, b[k]) {
      RestAt(xs, j, k);
      RootFactorVanishes(0, Rest(xs, j)[k], q);
    }
  }

  /** Two equal nodes lose information: some polynomial is not recovered. */
  lemma {:induction false} RepeatedNodeFails(xs: seq<int>, i: nat, j: nat, q: nat)
    requires IsPrime(q) && i < j < |xs| && NonZero(xs, q) && Congruent(xs[i], xs[j], q)
    ensures var (d, b) := RootsElsewhere(xs, i, j, q);
            DrawnKeys(d, b, q) && !Recovers(xs, d, b, q)
  {
    var (d, b) := RootsElsewhere(xs, i, j, q);
    hide FastPi, Eval, Prod, Dot;
    forall m | 0 <= m < |xs|
      ensures Divides(q, FastPis(xs, q)[m]) || Divides(q, Values(d, b, xs)[m])
    {
      if m == i || m == j {
        FastPiVanishes(xs, m, q);
      } else {
        RootsElsewhereVanish(xs, i, j, m, q);
      }
    }
    DotVanishes(FastPis(xs, q), Values(d, b, xs), q);
    RootsElsewhereAtZero(xs, i, j, q);
    DividesIffCongruentZero(Dot(FastPis(xs, q), Values(d, b, xs)), q);
    DividesIffCongruentZero(Prod(b), q);
  }

  /** If every computed coefficient is zero then only a zero constant term is recovered. */
  lemma {:induction false} ZeroCoefficientsFail(xs: seq<int>, q: int, d: seq<int>, b: seq<int>)
    requires IsPrime(q) && |d| == |b|
    requires forall m :: 0 <= m < |xs| ==> Divides(q, FastPis(xs, q)[m])
    ensures Recovers(xs, d, b, q) <==> Divides(q, Prod(b))
  {
    hide FastPi, Eval, Prod, Dot;
    DotVanishes(FastPis(xs, q), Values(d, b, xs), q);
    DividesIffCongruentZero(Dot(FastPis(xs, q), Values(d, b, xs)), q);
    DividesIffCongruentZero(Prod(b), q);
  }

  /** With a zero node every computed coefficient is zero, so not even constants are recovered. */
  lemma {:induction false} ZeroNodeFails(xs: seq<int>, q: int, d: seq<int>, b: seq<int>)
    requires IsPrime(q) && !NonZero(xs, q) && |d| == |b|
    ensures Recovers(xs, d, b, q) <==> Divides(q, Prod(b))
  {
    hide FastPi, Recovers;
    forall m | 0 <= m < |xs|
      ensures Divides(q, FastPis(xs, q)[m])
    {
      FastPiVanishes(xs, m, q);
    }
    ZeroCoefficientsFail(xs, q, d, b);
  }

  /** Every node occurs a second time. */
  ghost predicate AllRepeated(xs: seq<int>, q: int)
    requires q > 0
  {
    forall i :: 0 <= i < |xs| ==> exists j :: 0 <= j < |xs| && j != i && Congruent(xs[j], xs[i], q)
  }

  /** If every node is repeated all coefficients are zero, so again only zero is recovered. */
  lemma {:induction false} AllRepeatedFails(xs: seq<int>, q: int, d: seq<int>, b: seq<int>)
    requires IsPrime(q) && AllRepeated(xs, q) && |d| == |b|
    ensures Recovers(xs, d, b, q) <==> Divides(q, Prod(b))
  {
    hide FastPi, Recovers, Congruent;
    forall m | 0 <= m < |xs|
      ensures Divides(q, FastPis(xs, q)[m])
    {
      FastPiVanishes(xs, m, q);
      var j :| 0 <= j < |xs| && j != m && Congruent(xs[j], xs[m], q);
    }
    ZeroCoefficientsFail(xs, q, d, b);
  }

  /** Of two nodes, both are repeated as soon as they are not distinct. */
  lemma PairRepeated(xs: seq<int>, q: int)
    requires q > 0 && |xs| == 2 && !Distinct(xs, q)
    ensures AllRepeated(xs, q)
  {
    assert Congruent(xs[0], xs[1], q);
  }

  /** A key within the drawn range that a list with a zero or repeated node does not recover. */
  lemma {:induction false} UnrecoveredKey(xs: seq<int>, q: nat) returns (d: seq<nat>, b: seq<nat>)
    requires IsPrime(q) && |xs| > 0 && !(Distinct(xs, q) && NonZero(xs, q))
    ensures |d| == |b| == |xs| - 1 && DrawnKeys(d, b, q) && !Recovers(xs, d, b, q)
    ensures !Divides(q, Prod(b))
  {
    hide Recovers, Congruent;
    if !NonZero(xs, q) {
      d, b := seq(|xs| - 1, _ => q), seq(|xs| - 1, _ => 1);
      ZeroNodeFails(xs, q, d, b);
      PrimeDividesProd(q, b);
      ModUnique(1, q, 0, 1);
    } else {
      var i, j :| 0 <= i < j < |xs| && Congruent(xs[i], xs[j], q);
      RepeatedNodeFails(xs, i, j, q);
      RootsElsewhereAtZero(xs, i, j, q);
      var key := RootsElsewhere(xs, i, j, q);
      d, b := key.0, key.1;
    }
  }

  /** A list of identities recovers every key of its degree exactly when the identities are
      pairwise different and non-zero modulo `q`. */
  lemma {:induction false} InterpolationExact(xs: seq<int>, q: nat)
    requires IsPrime(q) && |xs| > 0
    ensures (forall d: seq<nat>, b: seq<nat> | |d| == |b| == |xs| - 1 && DrawnKeys(d, b, q) :: Recovers(xs, d, b, q))
            <==> Distinct(xs, q) && NonZero(xs, q)
  {
    hide Recovers, Congruent;
    if !(Distinct(xs, q) && NonZero(xs, q)) {
      var d, b := UnrecoveredKey(xs, q);
    } else {
      forall d: seq<nat>, b: seq<nat> | |d| == |b| == |xs| - 1 && DrawnKeys(d, b, q)
        ensures Recovers(xs, d, b, q)
      {
        DistinctNonZeroRecovers(xs, d, b, q);
      }
    }
  }

  lemma {:induction false} DistinctNonZeroRecovers(xs: seq<int>, d: seq<int>, b: seq<int>, q: int)
    requires IsPrime(q) && Distinct(xs, q) && NonZero(xs, q)
    requires |d| == |b| < |xs|
    ensures Recovers(xs, d, b, q)
  {
    FastPisAreCoefficients(xs, q);
    InterpolateAtZero(FastPis(xs, q), xs, d, b, q);
  }
}
