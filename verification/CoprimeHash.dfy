/** The coprimality filter of the re-encryption hash and the loop that repairs a hash. */
module CoprimeHash {
  import opened Arithmetic
  import opened Sequences

  /** The prime divisors of the exponent group order `q - 1`. */
  const FACTORS: seq<nat> := [2, 3, 11, 19, 10177, 125527, 859267, 906349, 2508409, 2529403, 52437899, 254760293]

  const INC: nat := 254760293

  /** No entry of `fs` divides `x`. */
  predicate HasNoFactor(fs: seq<nat>, x: int)
    requires Positive(fs)
  {
    forall i :: 0 <= i < |fs| ==> !Divides(fs[i], x)
  }

  predicate Positive(fs: seq<nat>)
  {
    forall i :: 0 <= i < |fs| ==> fs[i] > 0
  }

  method GetFactors() returns (factors: seq<nat>)
    ensures factors == FACTORS
  {
    var addends := [2, 3, 11, 19, 10177, 125527, 859267, 906349, 2508409, 2529403, 52437899, 254760293];
    factors := [];
    for i := 0 to 12
      invariant factors == addends[..i]
    {
      var factor := addends[i];
      factors := factors + [factor];
    }
  }

  method IsCoprime(x: nat, factors: seq<nat>) returns (r: bool)
    requires Positive(factors)
    ensures r <==> HasNoFactor(factors, x)
  {
    for i := 0 to |factors|
      invariant forall j :: 0 <= j < i ==> !Divides(factors[j], x)
    {
      if x % factors[i] == 0 {
        return false;
      }
    }
    return true;
  }

  /* ---------------------------------------------------------------- the filter is complete */

  ghost predicate AllPrime(fs: seq<nat>)
  {
    forall i :: 0 <= i < |fs| ==> IsPrime(fs[i])
  }

  function Powers(fs: seq<nat>, es: seq<nat>): (r: seq<int>)
    requires |fs| == |es|
    ensures |r| == |fs|
  {
    seq(|fs|, i requires 0 <= i < |fs| => Pow(fs[i], es[i]))
  }

  /** `n` is the product of the factors, each raised to a positive power. */
  ghost predicate ProductOfPowers(n: int, fs: seq<nat>, es: seq<nat>)
  {
    && |fs| == |es|
    && (forall i :: 0 <= i < |es| ==> es[i] > 0)
    && n == Prod(Powers(fs, es))
  }

  lemma {:induction false} PrimeDivisor(n: int) returns (p: int)
    requires n > 1
    ensures IsPrime(p) && Divides(p, n)
    decreases n
  {
    if IsPrime(n) {
      p := n;
      SelfDivides(n);
    } else {
      var d :| 1 < d < n && Divides(d, n);
      p := PrimeDivisor(d);
      DividesTransitive(p, d, n);
    }
  }

  lemma PrimeDividesPrimePower(p: int, f: int, e: nat)
    requires IsPrime(p) && IsPrime(f) && Divides(p, Pow(f, e))
    ensures p == f
  {
    if !Divides(p, f) {
      PowNotDivisible(p, f, e);
    } else {
      DivisorAtMost(p, f);
    }
  }

  lemma {:induction false} FactorDividesProduct(n: int, fs: seq<nat>, es: seq<nat>, i: nat)
    requires ProductOfPowers(n, fs, es) && AllPrime(fs) && i < |fs|
    ensures Divides(fs[i], n)
  {
    var f := fs[i];
    assert IsPrime(f);
    SelfDivides(f);
    EuclidLemma(f, f, Pow(f, es[i] - 1));
    assert Divides(f, Powers(fs, es)[i]);
    PrimeDividesProd(f, Powers(fs, es));
  }

  lemma {:induction false} PrimeDividesProduct(p: int, n: int, fs: seq<nat>, es: seq<nat>) returns (i: nat)
    requires ProductOfPowers(n, fs, es) && AllPrime(fs) && IsPrime(p) && Divides(p, n)
    ensures i < |fs| && p == fs[i]
  {
    PrimeDividesProd(p, Powers(fs, es));
    i :| 0 <= i < |fs| && Divides(p, Powers(fs, es)[i]);
    PrimeDividesPrimePower(p, fs[i], es[i]);
  }

  /** `fs` lists the prime divisors of `n`. */
  ghost predicate PrimeDivisors(n: int, fs: seq<nat>)
  {
    && (forall i :: 0 <= i < |fs| ==> IsPrime(fs[i]) && Divides(fs[i], n))
    && (forall p :: IsPrime(p) && Divides(p, n) ==> p in fs)
  }

  lemma {:induction false} ProductHasPrimeDivisors(n: int, fs: seq<nat>, es: seq<nat>)
    requires ProductOfPowers(n, fs, es) && AllPrime(fs)
    ensures PrimeDivisors(n, fs)
  {
    forall i | 0 <= i < |fs|
      ensures IsPrime(fs[i]) && Divides(fs[i], n)
    {
      FactorDividesProduct(n, fs, es, i);
    }
    forall p | IsPrime(p) && Divides(p, n)
      ensures p in fs
    {
      var i := PrimeDividesProduct(p, n, fs, es);
    }
  }

  /** The filter accepts exactly the numbers coprime to `n`. */
  lemma {:induction false} FilterIsGcd(x: nat, n: nat, fs: seq<nat>)
    requires n > 0 && PrimeDivisors(n, fs)
    ensures HasNoFactor(fs, x) <==> Gcd(x, n) == 1
  {
    var g := Gcd(x, n);
    GcdGreatest(x, n, 1);
    if g == 1 {
      forall i | 0 <= i < |fs|
        ensures !Divides(fs[i], x)
      {
        CommonFactor(x, n, fs[i]);
      }
    } else {
      var p := PrimeDivisor(g);
      GcdGreatest(x, n, p);
      assert p in fs;
    }
  }

  lemma {:induction false} CommonFactor(x: nat, n: nat, f: nat)
    requires n > 0 && IsPrime(f) && Divides(f, n)
    ensures Divides(f, x) ==> Gcd(x, n) != 1
  {
    GcdGreatest(x, n, f);
    ModUnique(1, f, 0, 1);
  }

  lemma {:induction false} GcdDividesGcd(a: nat, b: nat, m: nat)
    requires m > 0 && Congruent(a, b, m)
    ensures Gcd(b, m) > 0 && Divides(Gcd(b, m), Gcd(a, m))
  {
    var h := Gcd(b, m);
    GcdGreatest(b, m, 1);
    SelfDivides(h);
    GcdGreatest(b, m, h);
    var k := CongruenceMultiple(a, b, m);
    DividesCombination(h, b, m, 1, k);
    GcdGreatest(a, m, h);
  }

  lemma GcdOfResidue(a: nat, m: nat)
    requires m > 0
    ensures Gcd(a % m, m) == Gcd(a, m)
  {
    ModIsCongruent(a, m);
    GcdDividesGcd(a, a % m, m);
    GcdDividesGcd(a % m, a, m);
    DivisorAtMost(Gcd(a, m), Gcd(a % m, m));
    DivisorAtMost(Gcd(a % m, m), Gcd(a, m));
  }

  /* ---------------------------------------------------------------- the repair loop */

  /** Inverses of the increment modulo the other factors: the increment is coprime to them. */
  const STEP_INVERSES: seq<nat> := [1, 2, 8, 17, 10047, 115880, 61845, 474423, 1871353, 517415, 13651503]

  predicate Bad(h: nat, f: nat, k: int)
    requires f > 0
  {
    Divides(f, h + k * INC)
  }

  lemma BadPeriodic(h: nat, f: nat, k: int, j: int)
    requires f > 0
    ensures Bad(h, f, k + j * f) <==> Bad(h, f, k)
  {
    var a, b := h + k * INC, h + (k + j * f) * INC;
    assert b == a + (j * INC) * f;
    CongruentByMultiple(b, a, j * INC, f);
  }

  /** An increment coprime to `f` hits a multiple of `f` only every `f` steps. */
  lemma BadOncePerPeriod(h: nat, f: nat, inv: int, k: int, j: int)
    requires f > 1 && Congruent(INC * inv, 1, f)
    requires Bad(h, f, k) && Bad(h, f, j)
    ensures Divides(f, k - j)
  {
    var a, b := h + k * INC, h + j * INC;
    DividesCombination(f, a, b, 1, -1);
    assert a * 1 + b * (-1) == (k - j) * INC;
    DividesCombination(f, (k - j) * INC, 0, inv, 0);
    assert (k - j) * INC * inv + 0 * 0 == (k - j) * (INC * inv);
    CongruentMul(k - j, k - j, INC * inv, 1, f);
  }

  /** One fact per factor: the increment times the listed number is one more than a multiple of it. */
  lemma StepInverses()
    ensures Congruent(INC * 1, 1, 2) && Congruent(INC * 2, 1, 3) && Congruent(INC * 8, 1, 11)
    ensures Congruent(INC * 17, 1, 19) && Congruent(INC * 10047, 1, 10177) && Congruent(INC * 115880, 1, 125527)
    ensures Congruent(INC * 61845, 1, 859267) && Congruent(INC * 474423, 1, 906349)
    ensures Congruent(INC * 1871353, 1, 2508409) && Congruent(INC * 517415, 1, 2529403)
    ensures Congruent(INC * 13651503, 1, 52437899)
  {
    CongruentByMultiple(254760293 * 1, 1, 127380146, 2);
    CongruentByMultiple(254760293 * 2, 1, 169840195, 3);
    CongruentByMultiple(254760293 * 8, 1, 185280213, 11);
    CongruentByMultiple(254760293 * 17, 1, 227943420, 19);
    CongruentByMultiple(254760293 * 10047, 1, 251506010, 10177);
    CongruentByMultiple(254760293 * 115880, 1, 235181457, 125527);
    CongruentByMultiple(254760293 * 61845, 1, 18336152, 859267);
    CongruentByMultiple(254760293 * 474423, 1, 133352762, 906349);
    CongruentByMultiple(254760293 * 1871353, 1, 190059292, 2508409);
    CongruentByMultiple(254760293 * 517415, 1, 52113798, 2529403);
    CongruentByMultiple(254760293 * 13651503, 1, 66323422, 52437899);
  }

  lemma StepInverse(i: nat)
    requires i < |FACTORS| - 1
    ensures FACTORS[i] > 1 && Congruent(INC * STEP_INVERSES[i], 1, FACTORS[i])
  {
    StepInverses();
    hide Congruent;
  }

  lemma NotBothBad(h: nat, i: nat, k: int, j: int)
    requires i < |FACTORS| - 1 && 0 < j - k
    requires !Divides(FACTORS[i], j - k)
    ensures !Bad(h, FACTORS[i], k) || !Bad(h, FACTORS[i], j)
  {
    StepInverse(i);
    if Bad(h, FACTORS[i], k) && Bad(h, FACTORS[i], j) {
      BadOncePerPeriod(h, FACTORS[i], STEP_INVERSES[i], j, k);
    }
  }

  /** The four small factors all miss some number among ten consecutive ones. */
  predicate MissesSmall(h: nat, k: int)
  {
    !Bad(h, 2, k) && !Bad(h, 3, k) && !Bad(h, 11, k) && !Bad(h, 19, k)
  }

  lemma PairMisses(h: nat, k: int, d: int)
    requires d == 2 || d == 4 || d == 6 || d == 8
    requires !Bad(h, 2, k)
    ensures !Bad(h, 2, k + d)
    ensures d != 6 ==> !Bad(h, 3, k) || !Bad(h, 3, k + d)
    ensures !Bad(h, 11, k) || !Bad(h, 11, k + d)
    ensures !Bad(h, 19, k) || !Bad(h, 19, k + d)
  {
    BadPeriodic(h, 2, k, d / 2);
    if d != 6 {
      NotBothBad(h, 1, k, k + d);
    }
    NotBothBad(h, 2, k, k + d);
    NotBothBad(h, 3, k, k + d);
  }

  lemma OddWindow(h: nat, s: int) returns (k: int)
    requires !Bad(h, 2, s)
    ensures s <= k <= s + 8 && MissesSmall(h, k)
  {
    hide Bad;
    PairMisses(h, s, 2);
    PairMisses(h, s, 4);
    PairMisses(h, s, 6);
    PairMisses(h, s, 8);
    PairMisses(h, s + 2, 2);
    PairMisses(h, s + 2, 4);
    PairMisses(h, s + 2, 6);
    PairMisses(h, s + 4, 2);
    PairMisses(h, s + 4, 4);
    PairMisses(h, s + 6, 2);
    k := if MissesSmall(h, s) then s else if MissesSmall(h, s + 2) then s + 2
         else if MissesSmall(h, s + 4) then s + 4 else if MissesSmall(h, s + 6) then s + 6 else s + 8;
  }

  lemma SmallWindow(h: nat, w: int) returns (k: int)
    ensures w <= k < w + 10 && MissesSmall(h, k)
  {
    NotBothBad(h, 0, w, w + 1);
    if Bad(h, 2, w) {
      k := OddWindow(h, w + 1);
    } else {
      k := OddWindow(h, w);
    }
  }

  /* The seven large factors: each misses all but one of fewer than 10177 consecutive numbers. */
  predicate MissesLarge(h: nat, k: int, n: nat)
    requires n <= 7
  {
    forall i :: 4 <= i < 4 + n ==> !Bad(h, FACTORS[i], k)
  }

  lemma {:induction false} LargeSurvivor(h: nat, ks: seq<int>, n: nat) returns (k: int)
    requires n <= 7 && |ks| > n
    requires forall a, b :: 0 <= a < b < |ks| ==> 0 < ks[b] - ks[a] < 10177
    ensures k in ks && MissesLarge(h, k, n)
  {
    if n == 0 {
      k := ks[0];
    } else {
      var i := 3 + n;
      var f := FACTORS[i];
      if a :| 0 <= a < |ks| && Bad(h, f, ks[a]) {
        k := LargeSurvivor(h, Rest(ks, a), n - 1);
        var b :| 0 <= b < |ks| && ks[b] == k && b != a;
        CloseNotBothBad(h, i, ks[a], k);
      } else {
        k := LargeSurvivor(h, ks, n - 1);
      }
    }
  }

  lemma CloseNotBothBad(h: nat, i: nat, k: int, j: int)
    requires 4 <= i < |FACTORS| - 1 && k != j && -10177 < j - k < 10177
    ensures !Bad(h, FACTORS[i], k) || !Bad(h, FACTORS[i], j)
  {
    var lo, hi := if k < j then k else j, if k < j then j else k;
    ModUnique(hi - lo, FACTORS[i], 0, hi - lo);
    NotBothBad(h, i, lo, hi);
  }

  /** The most steps the repair loop can take. */
  const MAX_STEPS: nat := 80

  /** Eighty candidates hold eight windows, so eight survivors of the small factors, and the
      seven large factors cannot rule out all of those. */
  lemma {:induction false} RepairWithin(h: nat) returns (k: nat)
    requires h % INC != 0
    ensures k < MAX_STEPS && HasNoFactor(FACTORS, h + k * INC)
  {
    var k0 := SmallWindow(h, 0);
    var k1 := SmallWindow(h, 10);
    var k2 := SmallWindow(h, 20);
    var k3 := SmallWindow(h, 30);
    var k4 := SmallWindow(h, 40);
    var k5 := SmallWindow(h, 50);
    var k6 := SmallWindow(h, 60);
    var k7 := SmallWindow(h, 70);
    k := LargeSurvivor(h, [k0, k1, k2, k3, k4, k5, k6, k7], 7);
    MissesAll(h, k);
  }

  lemma MissesAll(h: nat, k: nat)
    requires h % INC != 0 && MissesSmall(h, k) && MissesLarge(h, k, 7)
    ensures HasNoFactor(FACTORS, h + k * INC)
  {
    forall i | 0 <= i < |FACTORS|
      ensures !Divides(FACTORS[i], h + k * INC)
    {
      if i < 4 {
        assert FACTORS[i] == 2 || FACTORS[i] == 3 || FACTORS[i] == 11 || FACTORS[i] == 19;
      } else if i == 11 {
        CongruentByMultiple(h + k * INC, h, k, INC);
      } else {
        assert !Bad(h, FACTORS[i], k);
      }
    }
  }

  /** The loop can stop exactly when the hash it starts from is not a multiple of the increment. */
  lemma {:induction false} RepairTerminatesIff(h: nat)
    ensures (exists k: nat :: HasNoFactor(FACTORS, h + k * INC)) <==> h % INC != 0
  {
    if h % INC != 0 {
      var k := RepairWithin(h);
    } else {
      forall k: nat
        ensures !HasNoFactor(FACTORS, h + k * INC)
      {
        CongruentByMultiple(h + k * INC, h, k, INC);
        assert FACTORS[11] == INC;
      }
    }
  }

  /** A hash on which the loop never stops. */
  lemma RepairDiverges(k: nat)
    ensures !HasNoFactor(FACTORS, 254760293 + k * INC)
  {
    CongruentByMultiple(254760293 + k * INC, 0, k + 1, INC);
    assert FACTORS[11] == INC;
  }

  ghost predicate IsFirstRepair(h: nat, k: nat)
  {
    HasNoFactor(FACTORS, h + k * INC) && forall j: nat :: j < k ==> !HasNoFactor(FACTORS, h + j * INC)
  }

  lemma {:induction false} LeastRepair(h: nat, k: nat)
    requires HasNoFactor(FACTORS, h + k * INC)
    ensures exists j: nat :: j <= k && IsFirstRepair(h, j)
  {
    if j: nat :| j < k && HasNoFactor(FACTORS, h + j * INC) {
      LeastRepair(h, j);
    } else {
      assert IsFirstRepair(h, k);
    }
  }

  lemma {:induction false} FirstRepairExists(h: nat)
    requires h % INC != 0
    ensures exists k: nat :: k < MAX_STEPS && IsFirstRepair(h, k)
  {
    var k := RepairWithin(h);
    LeastRepair(h, k);
  }

  lemma FirstRepairUnique(h: nat, j: nat, k: nat)
    requires IsFirstRepair(h, j) && IsFirstRepair(h, k)
    ensures j == k
  {
  }

  /** The hash the loop delivers: the first member of `h, h + INC, h + 2 * INC, ...` with no factor. */
  ghost function Repaired(h: nat): (r: nat)
    requires h % INC != 0
    ensures HasNoFactor(FACTORS, r)
    ensures exists k: nat :: k < MAX_STEPS && IsFirstRepair(h, k) && r == h + k * INC
  {
    FirstRepairExists(h);
    var k: nat :| k < MAX_STEPS && IsFirstRepair(h, k);
    h + k * INC
  }

  lemma RepairedIsFirst(h: nat, k: nat)
    requires h % INC != 0 && IsFirstRepair(h, k)
    ensures Repaired(h) == h + k * INC
  {
    var r := Repaired(h);
    var j: nat :| j < MAX_STEPS && IsFirstRepair(h, j) && r == h + j * INC;
    FirstRepairUnique(h, j, k);
  }

  /** `hashToZp256`, left uninterpreted: the result for a value and a modulus. */
  type HashFunction = (nat, nat) -> nat

  method HashToCoprime(hashToZp256: HashFunction, beHashed: nat, modulus: nat, factors: seq<nat>)
      returns (hash: nat)
    requires factors == FACTORS
    requires hashToZp256(beHashed, modulus) % INC != 0
    ensures hash == Repaired(hashToZp256(beHashed, modulus))
  {
    hide HasNoFactor, Repaired;
    hash := hashToZp256(beHashed, modulus);
    ghost var h, k: nat := hash, 0;
    FirstRepairExists(h);
    ghost var last: nat :| last < MAX_STEPS && IsFirstRepair(h, last);
    var coprime := IsCoprime(hash, factors);
    while !coprime
      invariant hash == h + k * INC
      invariant coprime <==> HasNoFactor(FACTORS, hash)
      invariant forall j: nat :: j < k ==> !HasNoFactor(FACTORS, h + j * INC)
      invariant k <= last
      decreases last - k
    {
      hash := hash + 254760293;
      k := k + 1;
      coprime := IsCoprime(hash, factors);
    }
    RepairedIsFirst(h, k);
  }

  /* ---------------------------------------------------------------- the group order */

  /** The orders the scheme works over: a prime `q` such that the listed factors are the prime
      divisors of `q - 1`, and whose residues fit the 32 bytes a scalar is converted to. */
  ghost predicate GroupOrder(q: nat)
  {
    IsPrime(q) && q < SCALAR_LIMIT && PrimeDivisors(q - 1, FACTORS)
  }

  const SCALAR_LIMIT: nat := 0x1_0000000000000000000000000000000000000000000000000000000000000000

  const CURVE_ORDER: nat := 0x73EDA753299D7D483339D80809A1D80553BDA402FFFE5BFEFFFFFFFF00000001

  const ORDER_EXPONENTS: seq<nat> := [32, 1, 1, 1, 1, 1, 1, 2, 1, 1, 1, 2]

  lemma SmallPowers(b: int)
    ensures Pow(b, 1) == b && Pow(b, 2) == b * b
  {
  }

  lemma TwoToThe32()
    ensures Pow(2, 32) == 4294967296
  {
    PowAdd(2, 4, 4);
    PowAdd(2, 8, 8);
    PowAdd(2, 16, 16);
    assert Pow(2, 4) == 16;
  }

  /** The listed factors are the complete factorisation of the order of BLS12-381 minus one. */
  lemma {:induction false} CurveOrderFactorization()
    ensures ProductOfPowers(CURVE_ORDER - 1, FACTORS, ORDER_EXPONENTS)
  {
    var s := Powers(FACTORS, ORDER_EXPONENTS);
    TwoToThe32();
    SmallPowers(3); SmallPowers(11); SmallPowers(19); SmallPowers(10177); SmallPowers(125527);
    SmallPowers(859267); SmallPowers(906349); SmallPowers(2508409); SmallPowers(2529403);
    SmallPowers(52437899); SmallPowers(254760293);
    assert s == [4294967296, 3, 11, 19, 10177, 125527, 859267, 906349 * 906349, 2508409, 2529403, 52437899,
                 254760293 * 254760293];
    ProdStep(s, 0); ProdStep(s, 1); ProdStep(s, 2); ProdStep(s, 3); ProdStep(s, 4); ProdStep(s, 5);
    ProdStep(s, 6); ProdStep(s, 7); ProdStep(s, 8); ProdStep(s, 9); ProdStep(s, 10); ProdStep(s, 11);
    assert s[..12] == s;
  }

  /** Only primality is left to assume of the curve's constants. */
  lemma CurveOrderIsGroupOrder()
    requires IsPrime(CURVE_ORDER) && AllPrime(FACTORS)
    ensures GroupOrder(CURVE_ORDER)
  {
    CurveOrderFactorization();
    ProductHasPrimeDivisors(CURVE_ORDER - 1, FACTORS, ORDER_EXPONENTS);
  }

  /** Hashes that pass the filter are invertible exponents: `invert_mpz` never reports "no inverse". */
  lemma {:induction false} FilteredHashInvertible(q: nat, h: nat)
    requires GroupOrder(q)
    ensures q > 2
    ensures HasNoFactor(FACTORS, h) <==> Inverse(h, q - 1) != 0
    ensures HasNoFactor(FACTORS, h) ==> Congruent(h * Inverse(h, q - 1), 1, q - 1)
  {
    assert FACTORS[0] == 2;
    hide HasNoFactor, Inverse, PrimeDivisors;
    FilteredInvertible(q, h, FACTORS);
  }

  lemma {:induction false} FilteredInvertible(q: nat, h: nat, fs: seq<nat>)
    requires q > 1 && PrimeDivisors(q - 1, fs) && |fs| > 0 && fs[0] == 2
    ensures q > 2
    ensures HasNoFactor(fs, h) <==> Inverse(h, q - 1) != 0
    ensures HasNoFactor(fs, h) ==> Congruent(h * Inverse(h, q - 1), 1, q - 1)
  {
    assert Divides(fs[0], q - 1);
    assert q - 1 > 1;
    hide Gcd, Inverse, HasNoFactor, Congruent, Divides, IsPrime, PrimeDivisors;
    FilterIsGcd(h, q - 1, fs);
    GcdOfResidue(h, q - 1);
  }
}
