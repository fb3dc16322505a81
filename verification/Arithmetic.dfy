/** Congruences, greatest common divisors, inverses and powers over the integers. */
module Arithmetic {

  /* ---------------------------------------------------------------- congruences */

  predicate Divides(d: int, n: int)
    requires d > 0
  {
    n % d == 0
  }

  predicate Congruent(a: int, b: int, m: int)
    requires m > 0
  {
    a % m == b % m
  }

  lemma MultipleBounds(j: int, m: nat)
    ensures j > 0 ==> j * m >= m
    ensures j < 0 ==> j * m + m <= 0
  {
  }

  lemma DivisionUnique(m: int, k: int, r: int, k': int, r': int)
    requires 0 <= r < m && 0 <= r' < m
    requires k * m + r == k' * m + r'
    ensures k == k' && r == r'
  {
    assert (k - k') * m == r' - r;
    MultipleBounds(k - k', m);
  }

  lemma ModUnique(x: int, m: int, k: int, r: int)
    requires 0 <= r < m
    requires x == k * m + r
    ensures x % m == r && x / m == k
  {
    DivisionUnique(m, k, r, x / m, x % m);
  }

  lemma CongruentByMultiple(a: int, b: int, k: int, m: int)
    requires m > 0
    requires a == b + k * m
    ensures Congruent(a, b, m)
  {
    var c, r := b / m, b % m;
    assert a == (c + k) * m + r;
    ModUnique(a, m, c + k, r);
  }

  lemma CongruenceMultiple(a: int, b: int, m: int) returns (k: int)
    requires m > 0 && Congruent(a, b, m)
    ensures a == b + k * m
  {
    k := a / m - b / m;
    assert a == (a / m) * m + a % m;
    assert b == (b / m) * m + b % m;
    assert (a / m) * m - (b / m) * m == k * m;
  }

  lemma CongruentAdd(a: int, a': int, b: int, b': int, m: int)
    requires m > 0 && Congruent(a, a', m) && Congruent(b, b', m)
    ensures Congruent(a + b, a' + b', m)
  {
    var j := CongruenceMultiple(a, a', m);
    var k := CongruenceMultiple(b, b', m);
    assert j * m + k * m == (j + k) * m;
    CongruentByMultiple(a + b, a' + b', j + k, m);
  }

  lemma CongruentSub(a: int, a': int, b: int, b': int, m: int)
    requires m > 0 && Congruent(a, a', m) && Congruent(b, b', m)
    ensures Congruent(a - b, a' - b', m)
  {
    var j := CongruenceMultiple(a, a', m);
    var k := CongruenceMultiple(b, b', m);
    assert j * m - k * m == (j - k) * m;
    CongruentByMultiple(a - b, a' - b', j - k, m);
  }

  lemma CongruentMul(a: int, a': int, b: int, b': int, m: int)
    requires m > 0 && Congruent(a, a', m) && Congruent(b, b', m)
    ensures Congruent(a * b, a' * b', m)
  {
    var j := CongruenceMultiple(a, a', m);
    var k := CongruenceMultiple(b, b', m);
    calc {
      a * b;
      (a' + j * m) * (b' + k * m);
      a' * b' + a' * (k * m) + (j * m) * b' + (j * m) * (k * m);
      a' * b' + (a' * k + j * b' + j * k * m) * m;
    }
    CongruentByMultiple(a * b, a' * b', a' * k + j * b' + j * k * m, m);
  }

  lemma ModIsCongruent(a: int, m: int)
    requires m > 0
    ensures Congruent(a % m, a, m)
  {
    ModUnique(a % m, m, 0, a % m);
  }

  /** Reducing the factors first does not change a reduced product. */
  lemma MulModMod(a: int, b: int, m: int)
    requires m > 0
    ensures ((a % m) * b) % m == (a * b) % m
    ensures (a * (b % m)) % m == (a * b) % m
    ensures ((a % m) * (b % m)) % m == (a * b) % m
  {
    ModIsCongruent(a, m);
    ModIsCongruent(b, m);
    CongruentMul(a % m, a, b, b, m);
    CongruentMul(a, a, b % m, b, m);
    CongruentMul(a % m, a, b % m, b, m);
  }

  lemma DividesIffCongruentZero(a: int, m: int)
    requires m > 0
    ensures Divides(m, a) <==> Congruent(a, 0, m)
  {
    ModUnique(0, m, 0, 0);
  }

  lemma CongruentIffDividesDifference(a: int, b: int, m: int)
    requires m > 0
    ensures Congruent(a, b, m) <==> Divides(m, a - b)
  {
    DividesIffCongruentZero(a - b, m);
    if Congruent(a, b, m) {
      CongruentSub(a, b, b, b, m);
    }
    if Divides(m, a - b) {
      CongruentAdd(a - b, 0, b, b, m);
    }
  }

  /** The remainder GMP's `%` computes: it has the sign of the dividend. */
  function TruncMod(a: int, m: int): (r: int)
    requires m > 0
    ensures Congruent(r, a, m)
    ensures a >= 0 ==> 0 <= r < m
    ensures a <= 0 ==> -m < r <= 0
  {
    var r := if a >= 0 then a % m else -((-a) % m);
    assert Congruent(r, a, m) by {
      if a >= 0 {
        ModIsCongruent(a, m);
      } else {
        ModIsCongruent(-a, m);
        CongruentSub(0, 0, (-a) % m, -a, m);
      }
    }
    r
  }

  /* ---------------------------------------------------------------- gcd and inverses */

  /** Extended Euclid: the greatest common divisor with its Bezout coefficients. */
  function ExtGcd(a: nat, b: nat): (r: (nat, int, int))
    ensures a * r.1 + b * r.2 == r.0
    ensures a + b > 0 ==> r.0 > 0
    ensures r.0 > 0 ==> Divides(r.0, a) && Divides(r.0, b)
    decreases b
  {
    if b == 0 then
      SelfDivides(a);
      (a, 1, 0)
    else
      var s := ExtGcd(b, a % b);
      BezoutStep(a, b, s.0, s.1, s.2);
      (s.0, s.2, s.1 - (a / b) * s.2)
  }

  lemma SelfDivides(a: nat)
    ensures a > 0 ==> Divides(a, a) && Divides(a, 0)
  {
    if a > 0 {
      ModUnique(a, a, 1, 0);
      ModUnique(0, a, 0, 0);
    }
  }

  lemma BezoutStep(a: nat, b: nat, g: nat, x: int, y: int)
    requires b > 0 && b * x + (a % b) * y == g
    ensures a * y + b * (x - (a / b) * y) == g
    ensures g > 0 && Divides(g, b) && Divides(g, a % b) ==> Divides(g, a)
  {
    BezoutAlgebra(a, b, a / b, a % b, x, y);
    if g > 0 && Divides(g, b) && Divides(g, a % b) {
      DividesCombination(g, b, a % b, a / b, 1);
    }
  }

  lemma BezoutAlgebra(a: int, b: int, c: int, d: int, x: int, y: int)
    requires a == b * c + d
    ensures a * y + b * (x - c * y) == b * x + d * y
  {
  }

  lemma DividesCombination(d: int, a: int, b: int, x: int, y: int)
    requires d > 0 && Divides(d, a) && Divides(d, b)
    ensures Divides(d, a * x + b * y)
    ensures Divides(d, x * a + y * b)
  {
    DividesIffCongruentZero(a, d);
    DividesIffCongruentZero(b, d);
    CongruentMul(a, 0, x, x, d);
    CongruentMul(b, 0, y, y, d);
    CongruentAdd(a * x, 0, b * y, 0, d);
    DividesIffCongruentZero(a * x + b * y, d);
    assert a * x == x * a && b * y == y * b;
  }

  function Gcd(a: nat, b: nat): (g: nat)
  {
    ExtGcd(a, b).0
  }

  /** The characteristic property of the greatest common divisor. */
  lemma GcdGreatest(a: nat, b: nat, d: int)
    requires a + b > 0 && d > 0
    ensures Gcd(a, b) > 0
    ensures Divides(d, Gcd(a, b)) <==> Divides(d, a) && Divides(d, b)
  {
    var r := ExtGcd(a, b);
    var g := r.0;
    if Divides(d, a) && Divides(d, b) {
      DividesCombination(d, a, b, r.1, r.2);
    }
    if Divides(d, g) {
      DividesTransitive(d, g, a);
      DividesTransitive(d, g, b);
    }
  }

  lemma DividesTransitive(d: int, e: int, n: int)
    requires d > 0 && e > 0 && Divides(d, e) && Divides(e, n)
    ensures Divides(d, n)
  {
    assert n == e * (n / e);
    DividesCombination(d, e, e, n / e, 0);
  }

  lemma DividesOne(d: int)
    requires d > 0 && Divides(d, 1)
    ensures d == 1
  {
    if d > 1 {
      ModUnique(1, d, 0, 1);
      assert false;
    }
  }

  /** `invert_mpz`: the inverse of `a` modulo `m`, or 0 when there is none. */
  function Inverse(a: int, m: int): (r: nat)
    requires m > 1
    ensures 0 <= r < m
    ensures Gcd(a % m, m) == 1 ==> Congruent(a * r, 1, m)
    ensures Gcd(a % m, m) != 1 <==> r == 0
  {
    var (g, x, y) := ExtGcd(a % m, m);
    if g == 1 then
      assert Congruent(a * (x % m), 1, m) by {
        InverseFromBezout(a, x, y, m);
      }
      assert x % m != 0 by {
        if x % m == 0 {
          InverseFromBezout(a, x, y, m);
          ModUnique(1, m, 0, 1);
          ModUnique(0, m, 0, 0);
        }
      }
      x % m
    else
      0
  }

  lemma InverseFromBezout(a: int, x: int, y: int, m: int)
    requires m > 1 && (a % m) * x + m * y == 1
    ensures Congruent(a * (x % m), 1, m)
  {
    assert (a % m) * x == 1 + (-y) * m;
    CongruentByMultiple((a % m) * x, 1, -y, m);
    MulModMod(a, x, m);
  }

  /** Only elements coprime to the modulus have an inverse. */
  lemma InvertibleIsCoprime(a: int, r: int, m: int)
    requires m > 1 && Congruent(a * r, 1, m)
    ensures Gcd(a % m, m) == 1
  {
    var g := Gcd(a % m, m);
    GcdGreatest(a % m, m, g);
    ModUnique(g, g, 1, 0);
    MulModMod(a, r, m);
    var k := CongruenceMultiple((a % m) * r, 1, m);
    DividesCombination(g, a % m, m, r, -k);
    assert (a % m) * r + m * (-k) == 1;
    DividesOne(g);
  }

  /* ---------------------------------------------------------------- primes */

  ghost predicate IsPrime(p: int)
  {
    2 <= p && forall d :: 1 < d < p ==> !Divides(d, p)
  }

  lemma DivisorAtMost(d: int, n: int)
    requires d > 0 && n > 0 && Divides(d, n)
    ensures d <= n
  {
    if d > n {
      ModUnique(n, d, 0, n);
    }
  }

  /** A number that a prime does not divide is coprime to it. */
  lemma PrimeGcd(p: int, a: int)
    requires IsPrime(p)
    ensures Gcd(a % p, p) == 1 <==> !Divides(p, a)
  {
    var g := Gcd(a % p, p);
    GcdGreatest(a % p, p, g);
    ModUnique(g, g, 1, 0);
    DivisorAtMost(g, p);
    if g == p {
      DivisorsSmall(p, a % p);
    } else {
      assert g == 1;
      if Divides(p, a) {
        ModUnique(p, p, 1, 0);
        ModUnique(0, p, 0, 0);
        GcdGreatest(a % p, p, p);
        DividesOne(p);
      }
    }
  }

  lemma DivisorsSmall(p: int, r: int)
    requires 0 <= r < p && Divides(p, r)
    ensures r == 0
  {
    ModUnique(r, p, 0, r);
  }

  lemma DividesOtherFactor(p: int, a: int, b: int)
    requires IsPrime(p) && Divides(p, a * b) && !Divides(p, a)
    ensures Divides(p, b)
  {
    PrimeGcd(p, a);
    var r := Inverse(a, p);
    CongruentMul(a * r, 1, b, b, p);
    DividesCombination(p, a * b, a * b, r, 0);
    assert a * b * r + a * b * 0 == a * r * b;
  }

  /** Euclid's lemma. */
  lemma EuclidLemma(p: int, a: int, b: int)
    requires IsPrime(p)
    ensures Divides(p, a * b) <==> Divides(p, a) || Divides(p, b)
  {
    if Divides(p, a) {
      DividesCombination(p, a, a, b, 0);
    }
    if Divides(p, b) {
      DividesCombination(p, b, b, a, 0);
    }
    if Divides(p, a * b) && !Divides(p, a) {
      DividesOtherFactor(p, a, b);
    }
  }

  lemma CancelMod(p: int, a: int, x: int, y: int)
    requires IsPrime(p) && !Divides(p, a)
    requires Congruent(a * x, a * y, p)
    ensures Congruent(x, y, p)
  {
    CongruentIffDividesDifference(a * x, a * y, p);
    assert a * x - a * y == a * (x - y);
    EuclidLemma(p, a, x - y);
    CongruentIffDividesDifference(x, y, p);
  }

  /* ---------------------------------------------------------------- products and powers */

  lemma MulAssociative(x: int, y: int, z: int)
    ensures x * (y * z) == (x * y) * z
  {
  }

  lemma MulInterchange(a: int, b: int, x: int, y: int)
    ensures (a * b) * (x * y) == (a * x) * (b * y)
  {
  }

  function Pow(b: int, e: nat): int
  {
    if e == 0 then 1 else b * Pow(b, e - 1)
  }

  /** `pow_mpz`. */
  function PowMod(b: int, e: nat, m: int): (r: nat)
    requires m > 0
    ensures 0 <= r < m
  {
    Pow(b, e) % m
  }

  lemma {:induction false} PowAdd(b: int, x: nat, y: nat)
    ensures Pow(b, x + y) == Pow(b, x) * Pow(b, y)
  {
    if x > 0 {
      PowAdd(b, x - 1, y);
      MulAssociative(b, Pow(b, x - 1), Pow(b, y));
    }
  }

  lemma {:induction false} PowPow(b: int, x: nat, y: nat)
    ensures x * y >= 0
    ensures Pow(Pow(b, x), y) == Pow(b, x * y)
    decreases y
  {
    if y > 0 {
      PowPow(b, x, y - 1);
      assert x * y == x + x * (y - 1);
      PowAdd(b, x, x * (y - 1));
    }
  }

  lemma {:induction false} PowCongruent(a: int, b: int, e: nat, m: int)
    requires m > 0 && Congruent(a, b, m)
    ensures Congruent(Pow(a, e), Pow(b, e), m)
  {
    if e > 0 {
      PowCongruent(a, b, e - 1, m);
      CongruentMul(a, b, Pow(a, e - 1), Pow(b, e - 1), m);
    }
  }

  lemma PowOfOne(e: nat)
    ensures Pow(1, e) == 1
  {
  }

  lemma {:induction false} PowNotDivisible(p: int, a: int, e: nat)
    requires IsPrime(p) && !Divides(p, a)
    ensures !Divides(p, Pow(a, e))
  {
    if e == 0 {
      ModUnique(1, p, 0, 1);
    } else {
      PowNotDivisible(p, a, e - 1);
      EuclidLemma(p, a, Pow(a, e - 1));
    }
  }

  lemma PowerDivisible(q: int, a: int, h: nat)
    requires IsPrime(q) && h > 0
    ensures Divides(q, Pow(a, h)) <==> Divides(q, a)
  {
    if Divides(q, a) {
      EuclidLemma(q, a, Pow(a, h - 1));
    } else {
      PowNotDivisible(q, a, h);
    }
  }
}
