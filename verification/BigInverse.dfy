/** The extended Euclid loop on multi-precision integers. */
module BigInverse {
  import opened Options
  import opened Arithmetic

  /** Inverses in `[0, m)` are unique. */
  lemma InverseUnique(a: int, r: nat, m: int)
    requires m > 1 && r < m && Congruent(a * r, 1, m)
    ensures Inverse(a, m) == r
  {
    InvertibleIsCoprime(a, r, m);
    var s := Inverse(a, m);
    CongruentMul(a * r, 1, s, s, m);
    CongruentMul(a * s, 1, r, r, m);
    assert a * r * s == a * s * r;
    ModUnique(r, m, 0, r);
    ModUnique(s, m, 0, s);
  }

  /** One step keeps `x1` the multiple of `a` that the running remainder is congruent to. */
  lemma CoefficientStep(a: int, m: int, n: nat, d: nat, x1: int, x0: int)
    requires m > 0 && d > 0
    requires Congruent(a * x1, n, m) && Congruent(a * x0, d, m)
    ensures Congruent(a * (((-((n / d * x0) % m)) % m + x1) % m), n % d, m)
  {
    var c := n / d;
    ModIsCongruent(c * x0, m);
    CongruentSub(0, 0, (c * x0) % m, c * x0, m);
    ModIsCongruent(-((c * x0) % m), m);
    CongruentAdd((-((c * x0) % m)) % m, -(c * x0), x1, x1, m);
    ModIsCongruent((-((c * x0) % m)) % m + x1, m);
    CongruentMul(a, a, ((-((c * x0) % m)) % m + x1) % m, -(c * x0) + x1, m);
    CongruentMul(c, c, a * x0, d, m);
    CongruentSub(a * x1, n, c * (a * x0), c * d, m);
    assert a * (-(c * x0) + x1) == a * x1 - c * (a * x0);
    assert n - c * d == n % d;
  }

  /** The loop of remainders from `(n, d)` reaches a value below 2 before it meets a zero divisor. */
  predicate Finishes(n: nat, d: nat)
    decreases d
  {
    n <= 1 || (d > 0 && Finishes(d, n % d))
  }

  /** It does exactly for coprime arguments, above 1. */
  lemma {:induction false} FinishesIff(n: nat, d: nat)
    requires n > 1
    ensures Finishes(n, d) <==> Gcd(n, d) == 1
    decreases d
  {
    if d == 1 {
      assert Gcd(n, 1) == Gcd(1, n % 1);
    } else if d > 1 {
      FinishesIff(d, n % d);
    }
  }

  /** An argument on which the loop meets a zero divisor. */
  lemma FailingArgument()
    ensures !Finishes(2, 4) && Gcd(2, 4) == 2
  {
  }

  /** `BIG_inv`: the inverse whenever there is one. The result is absent where the loop divides by zero:
      for the arguments above 1 that have no inverse. For 0 it is 1, where `invert_mpz` returns 0. */
  method BigInv(a: nat, m: nat) returns (res: Option<nat>)
    requires m > 1
    ensures res.None? <==> a > 1 && Gcd(a, m) != 1
    ensures a == 0 ==> res == Some(1) && Inverse(a, m) == 0
    ensures a > 0 && res.Some? ==> res.value == Inverse(a, m) && Congruent(a * res.value, 1, m)
  {
    hide Congruent, Inverse, Gcd;
    var n: nat, d: nat := a, m;
    var x0: nat, x1: nat := 0, 1;
    StartCoefficients(a, m);
    ghost var finishes := Finishes(n, d);
    if a > 1 {
      FinishesIff(a, m);
    }
    while n > 1
      invariant finishes == Finishes(n, d)
      invariant (a > 0 ==> n > 0) && (a <= 1 ==> n == a && x1 == 1)
      invariant x0 < m && x1 < m
      invariant Congruent(a * x1, n, m) && Congruent(a * x0, d, m)
      decreases d
    {
      if d == 0 {
        return None;
      }
      var c := n / d;
      CoefficientStep(a, m, n, d, x1, x0);
      n, d := d, n % d;
      x0, x1 := ((-((c * x0) % m)) % m + x1) % m, x0;
    }
    Outcome(a, m, x1, n);
    res := Some(x1);
  }

  lemma StartCoefficients(a: nat, m: nat)
    requires m > 0
    ensures Congruent(a * 1, a, m) && Congruent(a * 0, m, m)
  {
    CongruentByMultiple(m, 0, 1, m);
  }

  lemma Outcome(a: nat, m: nat, r: nat, n: nat)
    requires m > 1 && r < m && n <= 1 && Congruent(a * r, n, m) && (a > 0 ==> n > 0)
    ensures a == 0 ==> Inverse(a, m) == 0
    ensures a > 0 ==> Inverse(a, m) == r && Congruent(a * r, 1, m)
  {
    if a == 0 {
      ModUnique(0, m, 0, 0);
      SelfDivides(m);
      GcdGreatest(0, m, m);
      if Gcd(0, m) == 1 {
        DividesOne(m);
      }
    } else {
      InverseUnique(a, r, m);
    }
  }
}
