/** The flexible-threshold signature scheme: the data it passes around, what each operation
    computes, and the operations themselves. Points of the three pairing groups are represented by
    their discrete logarithms, so a group of order `q` is the residues modulo `q`. */
module Scheme {
  import opened Arithmetic
  import opened Sequences
  import opened Lagrange
  import opened InterpolationCoefficients
  import opened CoprimeHash

  datatype Params = Params(n: nat, tm: nat, q: nat, p2: nat, g: nat, beta: nat, pk: seq<nat>)

  datatype Uav = Uav(c1: seq<nat>, c2: seq<nat>, id: nat)

  datatype Head = Head(id: nat, alpha: nat)

  datatype ParSig = ParSig(cj: nat, sig: nat, id: nat)

  datatype Sigma = Sigma(aux: seq<nat>, sig: seq<nat>, ids: seq<nat>)

  /* ---------------------------------------------------------------- group operations */

  /** Scalars are converted to 32 bytes before a multiplication. */
  function PointMul(p: nat, k: nat, q: nat): (r: nat)
    requires q > 0 && k < SCALAR_LIMIT
  {
    (p * k) % q
  }

  function PointAdd(p: nat, r: nat, q: nat): nat
    requires q > 0
  {
    (p + r) % q
  }

  function Pairing(p: nat, r: nat, q: nat): nat
    requires q > 0
  {
    (p * r) % q
  }

  /** The generator times the hash of the message. */
  function HashToPoint(hash: HashFunction, m: nat, q: nat): (r: nat)
    requires q > 0
  {
    hash(m, q) % q
  }

  const GENERATOR: nat := 1

  /* ---------------------------------------------------------------- what the operations compute */

  /** Degree of the polynomial that threshold `t` uses. */
  function Degree(t: nat): nat
  {
    if t == 0 then 0 else t - 1
  }

  function PublicKeys(b: seq<nat>, q: nat): (pk: seq<nat>)
    requires q > 0
    ensures |pk| == |b|
  {
    seq(|b|, i requires 0 <= i < |b| => Prod(b[..i + 1]) % q)
  }

  function Issued(pp: Params, d: seq<nat>, b: seq<nat>, id: nat, us: seq<nat>): (uav: Uav)
    requires pp.q > 0 && |d| == |b| == |us|
    ensures |uav.c1| == |uav.c2| == |b| && uav.id == id
  {
    Uav(seq(|b|, i requires 0 <= i < |b| => PowMod(pp.g, us[i], pp.q)),
        seq(|b|, i requires 0 <= i < |b| => (Pow(pp.beta, us[i]) * (d[i] * id + b[i])) % pp.q),
        id)
  }

  predicate CanSign(uav: Uav, t: nat)
  {
    Degree(t) <= |uav.c1| && Degree(t) <= |uav.c2|
  }

  function Signed(hash: HashFunction, pp: Params, uav: Uav, t: nat, m: nat): (r: ParSig)
    requires pp.q > 0 && CanSign(uav, t)
  {
    ParSig(Prod(uav.c1[..Degree(t)]) % pp.q,
           (HashToPoint(hash, m, pp.q) * Prod(uav.c2[..Degree(t)])) % pp.q,
           uav.id)
  }

  /** The repair loop ends on the hash of `x`. */
  predicate Hashable(hash: HashFunction, x: nat, q: nat)
    requires q > 0
  {
    hash(x, q - 1) % INC != 0
  }

  ghost function ReKey(hash: HashFunction, q: nat, alpha: nat, pkv: nat): (rk: nat)
    requires q > 2 && Hashable(hash, PowMod(pkv, alpha, q), q)
    ensures 0 <= rk < q - 1
  {
    (alpha * Inverse(Repaired(hash(PowMod(pkv, alpha, q), q - 1)), q - 1)) % (q - 1)
  }

  ghost function Aggregated(hash: HashFunction, sigs: seq<ParSig>, pp: Params, alpha: nat, pkv: nat,
      e: nat): (r: Sigma)
    requires pp.q > 2 && Hashable(hash, PowMod(pkv, alpha, pp.q), pp.q)
    ensures |r.aux| == |r.sig| == |r.ids| == |sigs|
  {
    var rk := ReKey(hash, pp.q, alpha, pkv);
    Sigma(seq(|sigs|, i requires 0 <= i < |sigs| => PowMod(sigs[i].cj * PowMod(pp.g, e, pp.q), rk, pp.q)),
          seq(|sigs|, i requires 0 <= i < |sigs| => (sigs[i].sig * PowMod(pp.beta, e, pp.q)) % pp.q),
          seq(|sigs|, i requires 0 <= i < |sigs| => sigs[i].id))
  }

  /** What `Verify` may be called on: enough entries for the threshold. */
  predicate Verifiable(sigma: Sigma, pp: Params, t: nat)
  {
    2 <= t <= |sigma.aux| && t <= |sigma.sig| && t <= |sigma.ids| && t - 2 < |pp.pk|
  }

  ghost function VerifierHash(hash: HashFunction, pp: Params, skv: nat): (h: nat)
    requires pp.q > 2 && Hashable(hash, PowMod(pp.beta, skv, pp.q), pp.q)
    ensures HasNoFactor(FACTORS, h)
  {
    Repaired(hash(PowMod(pp.beta, skv, pp.q), pp.q - 1))
  }

  /** The factor `k_i` that strips the encryption of signature `i` and weighs it for interpolation. */
  function Weight(ids: seq<nat>, aux: nat, i: nat, h: nat, q: nat): (k: nat)
    requires q > 1 && i < |ids|
    ensures 0 <= k < q
  {
    (FastPi(ids, i, q) * Inverse(PowMod(aux, h, q), q)) % q
  }

  function Weights(sigma: Sigma, h: nat, q: nat, t: nat): (ks: seq<nat>)
    requires q > 1 && t <= |sigma.aux| && t <= |sigma.ids|
    ensures |ks| == t
  {
    seq(t, i requires 0 <= i < t => Weight(sigma.ids[..t], sigma.aux[i], i, h, q))
  }

  /** The combined signature point. */
  function Combined(sigma: Sigma, h: nat, q: nat, t: nat): (s: nat)
    requires q > 1 && t <= |sigma.aux| && t <= |sigma.ids| && t <= |sigma.sig|
    ensures 0 <= s < q
  {
    Dot(Weights(sigma, h, q, t), sigma.sig[..t]) % q
  }

  ghost predicate Accepted(hash: HashFunction, sigma: Sigma, skv: nat, pp: Params, m: nat, t: nat)
    requires pp.q > 2 && Verifiable(sigma, pp, t) && Hashable(hash, PowMod(pp.beta, skv, pp.q), pp.q)
  {
    Pairing(Combined(sigma, VerifierHash(hash, pp, skv), pp.q, t), pp.p2, pp.q) ==
    Pairing(HashToPoint(hash, m, pp.q), pp.pk[t - 2], pp.q)
  }

  /* ---------------------------------------------------------------- the operations */

  /** Both sides hash the same value: `PK_v^alpha == beta^sk_v`. */
  lemma {:induction false} SharedValue(g: nat, alpha: nat, skv: nat, q: nat)
    requires q > 0
    ensures PowMod(PowMod(g, skv, q), alpha, q) == PowMod(PowMod(g, alpha, q), skv, q)
  {
    PowOfPowMod(g, skv, alpha, q);
    PowOfPowMod(g, alpha, skv, q);
    assert skv * alpha == alpha * skv;
  }

  lemma {:induction false} PowOfPowMod(g: int, x: nat, y: nat, q: int)
    requires q > 0
    ensures x * y >= 0
    ensures PowMod(PowMod(g, x, q), y, q) == PowMod(g, x * y, q)
  {
    ModIsCongruent(Pow(g, x), q);
    PowCongruent(PowMod(g, x, q), Pow(g, x), y, q);
    PowPow(g, x, y);
  }

  method Setup(q: nat, n: nat, tm: nat, g: nat, alpha: nat) returns (pp: Params)
    requires q > 0
    ensures pp == Params(n, tm, q, GENERATOR, g, pp.beta, []) && pp.beta == PowMod(g, alpha, q) < q
    ensures IsPrime(q) && alpha > 0 ==> (Divides(q, pp.beta) <==> Divides(q, g))
    ensures forall skv: nat :: PowMod(PowMod(g, skv, q), alpha, q) == PowMod(pp.beta, skv, q)
  {
    pp := Params(n, tm, q, GENERATOR, g, PowMod(g, alpha, q), []);
    ModDivisible(Pow(g, alpha), q);
    if IsPrime(q) && alpha > 0 {
      PowerDivisible(q, g, alpha);
    }
    forall skv: nat
      ensures PowMod(PowMod(g, skv, q), alpha, q) == PowMod(pp.beta, skv, q)
    {
      SharedValue(g, alpha, skv, q);
    }
  }

  method GetPK(b: seq<nat>, q: nat) returns (pk: seq<nat>)
    requires q > 1 && |b| > 0 && forall i :: 0 <= i < |b| ==> b[i] < SCALAR_LIMIT
    ensures pk == PublicKeys(b, q)
  {
    pk := [];
    var a := GENERATOR;
    var i := 0;
    ModUnique(1, q, 0, 1);
    while true
      invariant 0 <= i < |b|
      invariant a == Prod(b[..i]) % q
      invariant pk == PublicKeys(b, q)[..i]
      decreases |b| - i
    {
      MulModMod(Prod(b[..i]), b[i], q);
      ProdStep(b, i);
      a := PointMul(a, b[i], q);
      pk := pk + [a];
      i := i + 1;
      if !(i < |b|) {
        break;
      }
    }
  }

  method GetUAV(pp: Params, d: seq<nat>, b: seq<nat>, id: nat, us: seq<nat>) returns (uav: Uav)
    requires pp.q > 0 && |d| == |b| == |us|
    ensures uav == Issued(pp, d, b, id, us)
  {
    var c1: seq<nat>, c2: seq<nat> := [], [];
    ghost var spec := Issued(pp, d, b, id, us);
    for i := 0 to |b|
      invariant c1 == spec.c1[..i] && c2 == spec.c2[..i]
    {
      var fij := (d[i] * id + b[i]) % pp.q;
      var u := us[i];
      var c := PowMod(pp.g, u, pp.q);
      var betaU := PowMod(pp.beta, u, pp.q);
      MulModMod(Pow(pp.beta, u), d[i] * id + b[i], pp.q);
      betaU := (betaU * fij) % pp.q;
      c1 := c1 + [c];
      c2 := c2 + [betaU];
    }
    uav := Uav(c1, c2, id);
  }

  method Sign(hash: HashFunction, pp: Params, uav: Uav, t: nat, m: nat) returns (res: ParSig)
    requires 1 < pp.q < SCALAR_LIMIT && CanSign(uav, t)
    ensures res == Signed(hash, pp, uav, t, m)
    ensures res.cj == Prod(uav.c1[..Degree(t)]) % pp.q && res.id == uav.id
    ensures res.sig == (hash(m, pp.q) * Prod(uav.c2[..Degree(t)])) % pp.q
  {
    var cj, sj := 1, 1;
    ModUnique(1, pp.q, 0, 1);
    var i := 0;
    while i < t - 1
      invariant 0 <= i <= Degree(t)
      invariant cj == Prod(uav.c1[..i]) % pp.q
      invariant sj == Prod(uav.c2[..i]) % pp.q
    {
      MulModMod(Prod(uav.c1[..i]), uav.c1[i], pp.q);
      MulModMod(Prod(uav.c2[..i]), uav.c2[i], pp.q);
      ProdStep(uav.c1, i);
      ProdStep(uav.c2, i);
      cj := (cj * uav.c1[i]) % pp.q;
      sj := (sj * uav.c2[i]) % pp.q;
      i := i + 1;
    }
    var hm := HashToPoint(hash, m, pp.q);
    MulModMod(hm, Prod(uav.c2[..i]), pp.q);
    var sigma := PointMul(hm, sj, pp.q);
    MulModMod(Prod(uav.c2[..i]), hash(m, pp.q), pp.q);
    res := ParSig(cj, sigma, uav.id);
  }

  method CollectSig(hash: HashFunction, pp: Params, uavs: seq<Uav>, t: nat, m: nat) returns (sigmas: seq<ParSig>)
    requires 1 < pp.q < SCALAR_LIMIT && t <= |uavs|
    requires forall i :: 0 <= i < t ==> CanSign(uavs[i], t)
    ensures |sigmas| == t
    ensures forall i :: 0 <= i < t ==> sigmas[i] == Signed(hash, pp, uavs[i], t, m)
  {
    sigmas := [];
    for i := 0 to t
      invariant |sigmas| == i
      invariant forall j :: 0 <= j < i ==> sigmas[j] == Signed(hash, pp, uavs[j], t, m)
    {
      var sigma := Sign(hash, pp, uavs[i], t, m);
      sigmas := sigmas + [sigma];
    }
  }

  method AggSig(hash: HashFunction, parSigs: seq<ParSig>, pp: Params, head: Head, pkv: nat,
      e: nat) returns (sigma: Sigma)
    requires 2 < pp.q < SCALAR_LIMIT && Hashable(hash, PowMod(pkv, head.alpha, pp.q), pp.q)
    ensures sigma == Aggregated(hash, parSigs, pp, head.alpha, pkv, e)
  {
    var rk: nat := PowMod(pkv, head.alpha, pp.q);
    var lambdaQ := pp.q - 1;
    var factors := GetFactors();
    rk := HashToCoprime(hash, rk, lambdaQ, factors);
    rk := Inverse(rk, lambdaQ);
    rk := (head.alpha * rk) % lambdaQ;
    assert rk == ReKey(hash, pp.q, head.alpha, pkv);

    var ge, betaE := PowMod(pp.g, e, pp.q), PowMod(pp.beta, e, pp.q);
    var aux: seq<nat>, sig: seq<nat>, ids: seq<nat> := [], [], [];
    ghost var spec := Aggregated(hash, parSigs, pp, head.alpha, pkv, e);
    for i := 0 to |parSigs|
      invariant aux == spec.aux[..i] && sig == spec.sig[..i] && ids == spec.ids[..i]
    {
      var auxI := (parSigs[i].cj * ge) % pp.q;
      PowModOfResidue(parSigs[i].cj * ge, rk, pp.q);
      auxI := PowMod(auxI, rk, pp.q);
      aux := aux + [auxI];
      var sigI := PointMul(parSigs[i].sig, betaE, pp.q);
      sig := sig + [sigI];
      ids := ids + [parSigs[i].id];
    }
    sigma := Sigma(aux, sig, ids);
  }

  lemma PowModOfResidue(a: int, e: nat, q: int)
    requires q > 0
    ensures PowMod(a % q, e, q) == PowMod(a, e, q)
  {
    ModIsCongruent(a, q);
    PowCongruent(a % q, a, e, q);
  }

  /** Coefficients at zero from one shared product. */
  method GetPi0(q: nat, ids: seq<nat>, t: nat) returns (pis: seq<nat>)
    requires q > 1 && t <= |ids|
    ensures pis == FastPis(ids[..t], q)
  {
    pis := [];
    var prodX: nat := 1;
    ghost var xs := ids[..t];
    ModUnique(1, q, 0, 1);
    for i := 0 to t
      invariant prodX == Prod(ids[..i]) % q
    {
      MulModMod(Prod(ids[..i]), ids[i], q);
      ProdStep(ids, i);
      prodX := (prodX * ids[i]) % q;
    }
    for i := 0 to t
      invariant pis == FastPis(xs, q)[..i]
    {
      var denominator := GetDenominator(q, ids, t, i);
      InverseCongruent(denominator, Den(xs, i), q);
      var numerator: nat := (prodX * Inverse(ids[i], q)) % q;
      var invDen := Inverse(denominator, q);
      var pi0: nat := (numerator * invDen) % q;
      MulModMod(Prod(xs), Inverse(ids[i], q), q);
      MulModMod(Prod(xs) * Inverse(ids[i], q), invDen, q);
      pis := pis + [pi0];
    }
  }

  lemma InverseCongruent(a: int, b: int, q: int)
    requires q > 1 && Congruent(a, b, q)
    ensures Inverse(a, q) == Inverse(b, q)
  {
  }

  lemma {:induction false} ShiftedStep(xs: seq<int>, i: nat, j: nat)
    requires i < |xs| && j < |xs| && j != i
    ensures var s := Shifted(Rest(xs, i), xs[i]);
            var k := if j < i then j else j - 1;
            k < |s| && s[k] == xs[j] - xs[i] && Prod(s[..k + 1]) == Prod(s[..k]) * (xs[j] - xs[i])
  {
    var k := if j < i then j else j - 1;
    RestAt(xs, i, k);
    ProdStep(Shifted(Rest(xs, i), xs[i]), k);
  }

  /** The inner loop: the product of the differences to the other identities. */
  method GetDenominator(q: nat, ids: seq<nat>, t: nat, i: nat) returns (denominator: int)
    requires q > 1 && i < t <= |ids|
    ensures Congruent(denominator, Den(ids[..t], i), q)
  {
    denominator := 1;
    ghost var xs: seq<int> := ids[..t];
    ghost var s := Shifted(Rest(xs, i), xs[i]);
    for j := 0 to t
      invariant Congruent(denominator, Prod(s[..if j <= i then j else j - 1]), q)
    {
      if j != i {
        var temp := TruncMod(ids[j] - ids[i] + q, q);
        ShiftedStep(xs, i, j);
        ReducedStep(denominator, Prod(s[..if j < i then j else j - 1]), xs[j] - xs[i], q);
        denominator := TruncMod(denominator * temp, q);
      }
    }
    assert s[..t - 1] == s;
  }

  /** One step of a product that is kept reduced, with GMP's remainder. */
  lemma ReducedStep(acc: int, p: int, x: int, q: int)
    requires q > 0 && Congruent(acc, p, q)
    ensures Congruent(TruncMod(acc * TruncMod(x + q, q), q), p * x, q)
  {
    CongruentByMultiple(x + q, x, 1, q);
    CongruentMul(acc, p, TruncMod(x + q, q), x, q);
  }

  lemma {:induction false} NegatedStep(s: seq<int>, k: nat)
    requires k < |s|
    ensures Prod(Negated(s)[..k + 1]) == Prod(Negated(s)[..k]) * (-s[k])
  {
    ProdStep(Negated(s), k);
  }

  /** How many identities other than number `i` exceed `q`: their factors are negative in GMP. */
  function LargeIds(ids: seq<nat>, q: nat, i: nat): nat
  {
    if ids == [] then 0
    else
      var n := |ids| - 1;
      LargeIds(ids[..n], q, i) + if n != i && ids[n] > q then 1 else 0
  }

  /** `x` has the sign of a product with `n` negative factors, or is zero. */
  predicate SignOf(x: int, n: nat)
  {
    if n % 2 == 0 then x >= 0 else x <= 0
  }

  lemma SignTimes(x: int, y: int, n: nat, k: nat)
    requires SignOf(x, n) && SignOf(y, k)
    ensures SignOf(x * y, n + k)
  {
    if n % 2 == 0 && k % 2 == 0 {
      assert x * y >= 0;
    } else if n % 2 == 0 {
      assert x * (-y) >= 0;
    } else if k % 2 == 0 {
      assert (-x) * y >= 0;
    } else {
      assert (-x) * (-y) >= 0;
    }
  }

  lemma LargeStart(ids: seq<nat>, q: nat, i: nat)
    ensures SignOf(1, LargeIds(ids[..0], q, i))
  {
  }

  lemma LargeStep(x: int, ids: seq<nat>, q: nat, i: nat, j: nat)
    requires q > 0 && j < |ids| && SignOf(x, LargeIds(ids[..j], q, i))
    ensures j == i ==> SignOf(x, LargeIds(ids[..j + 1], q, i))
    ensures j != i ==> SignOf(TruncMod(x * TruncMod(-ids[j] + q, q), q), LargeIds(ids[..j + 1], q, i))
  {
    assert ids[..j + 1][..j] == ids[..j];
    if j != i {
      SignTimes(x, TruncMod(-ids[j] + q, q), LargeIds(ids[..j], q, i), if ids[j] > q then 1 else 0);
    }
  }

  /** Coefficients at zero by the textbook double loop. The result keeps the sign that GMP's remainder
      leaves. */
  method GetPi0Textbook(q: nat, ids: seq<nat>, t: nat) returns (pis: seq<int>)
    requires q > 1 && t <= |ids|
    ensures |pis| == t
    ensures forall i :: 0 <= i < t ==> 0 < pis[i] + q && pis[i] < q && Congruent(pis[i], SlowPi(ids[..t], i, q), q)
    ensures forall i :: 0 <= i < t ==> SignOf(pis[i], LargeIds(ids[..t], q, i))
  {
    pis := [];
    for i := 0 to t
      invariant |pis| == i
      invariant forall j :: 0 <= j < i ==>
                  0 < pis[j] + q && pis[j] < q && Congruent(pis[j], SlowPi(ids[..t], j, q), q)
      invariant forall j :: 0 <= j < i ==> SignOf(pis[j], LargeIds(ids[..t], q, j))
    {
      var numerator, denominator := GetFraction(q, ids, t, i);
      var invDen := Inverse(denominator, q);
      InverseCongruent(denominator, SlowDen(ids[..t], i), q);
      CongruentMul(numerator, SlowNum(ids[..t], i), invDen, invDen, q);
      SignTimes(numerator, invDen, LargeIds(ids[..t], q, i), 0);
      var pi0 := TruncMod(numerator * invDen, q);
      pis := pis + [pi0];
    }
  }

  /** The inner loop of the textbook form. */
  method GetFraction(q: nat, ids: seq<nat>, t: nat, i: nat) returns (numerator: int, denominator: int)
    requires q > 1 && i < t <= |ids|
    ensures Congruent(numerator, SlowNum(ids[..t], i), q)
    ensures Congruent(denominator, SlowDen(ids[..t], i), q)
    ensures SignOf(numerator, LargeIds(ids[..t], q, i))
  {
    hide LargeIds, SignOf;
    numerator, denominator := 1, 1;
    LargeStart(ids, q, i);
    ghost var xs: seq<int> := ids[..t];
    ghost var r, s := Rest(xs, i), Shifted(Rest(xs, i), xs[i]);
    for j := 0 to t
      invariant Congruent(numerator, Prod(Negated(r)[..if j <= i then j else j - 1]), q)
      invariant Congruent(denominator, Prod(Negated(s)[..if j <= i then j else j - 1]), q)
      invariant SignOf(numerator, LargeIds(ids[..j], q, i))
    {
      LargeStep(numerator, ids, q, i, j);
      if j != i {
        ghost var k := if j < i then j else j - 1;
        RestAt(xs, i, k);
        NegatedStep(r, k);
        NegatedStep(s, k);
        ReducedStep(numerator, Prod(Negated(r)[..k]), -r[k], q);
        ReducedStep(denominator, Prod(Negated(s)[..k]), -s[k], q);
        var tempNumerator := TruncMod(-ids[j] + q, q);
        numerator := TruncMod(numerator * tempNumerator, q);
        var tempDenominator := TruncMod(ids[i] - ids[j] + q, q);
        denominator := TruncMod(denominator * tempDenominator, q);
      }
    }
    assert Negated(r)[..t - 1] == Negated(r) && Negated(s)[..t - 1] == Negated(s);
  }

  /** The factors `k_i` of the verification. */
  method GetWeights(pis: seq<nat>, sigma: Sigma, h: nat, q: nat, t: nat) returns (k: seq<nat>)
    requires q > 1 && t <= |sigma.aux| && t <= |sigma.ids|
    requires pis == FastPis(sigma.ids[..t], q)
    ensures k == Weights(sigma, h, q, t)
  {
    k := [];
    for i := 0 to t
      invariant k == Weights(sigma, h, q, t)[..i]
    {
      var temp: nat := PowMod(sigma.aux[i], h, q);
      temp := Inverse(temp, q);
      temp := (pis[i] * temp) % q;
      k := k + [temp];
    }
  }

  /** The weighted sum of the signature points, each multiplied in place. */
  method CombinePoints(k: seq<nat>, points: seq<nat>, q: nat, t: nat) returns (s: nat)
    requires 1 < q < SCALAR_LIMIT && 0 < t == |k| <= |points|
    requires forall i :: 0 <= i < t ==> k[i] < q
    ensures s == Dot(k, points[..t]) % q
  {
    hide Sum;
    var sig := points;
    s := PointMul(sig[0], k[0], q);
    ghost var terms := Times(k, points[..t]);
    FirstTerm(points[0], k[0], terms);
    for i := 1 to t
      invariant |sig| == |points| && forall j :: i <= j < |sig| ==> sig[j] == points[j]
      invariant s == Sum(terms[..i]) % q
    {
      AccumulateStep(s, terms, i, sig[i], k[i], q);
      sig := sig[i := PointMul(sig[i], k[i], q)];
      s := PointAdd(s, sig[i], q);
    }
    assert terms[..t] == terms;
  }

  method Verify(hash: HashFunction, sigma: Sigma, skv: nat, pp: Params, m: nat, t: nat) returns (r: int)
    requires 2 < pp.q < SCALAR_LIMIT && Verifiable(sigma, pp, t)
    requires Hashable(hash, PowMod(pp.beta, skv, pp.q), pp.q)
    ensures r == if Accepted(hash, sigma, skv, pp, m, t) then 1 else 0
  {
    var pis := GetPi0(pp.q, sigma.ids, t);
    var temp := PowMod(pp.beta, skv, pp.q);
    var factors := GetFactors();
    var h := HashToCoprime(hash, temp, pp.q - 1, factors);
    var k := GetWeights(pis, sigma, h, pp.q, t);
    var s := CombinePoints(k, sigma.sig, pp.q, t);
    var left := Pairing(s, pp.p2, pp.q);
    var hm := HashToPoint(hash, m, pp.q);
    var right := Pairing(hm, pp.pk[t - 2], pp.q);
    r := if left == right then 1 else 0;
  }

  lemma FirstTerm(p: int, k: int, terms: seq<int>)
    requires |terms| > 0 && terms[0] == k * p
    ensures Sum(terms[..1]) == p * k
  {
    assert terms[..1] == [terms[0]];
    SumSingle(terms[0]);
  }

  lemma AccumulateStep(s: int, terms: seq<int>, i: nat, p: int, k: int, q: int)
    requires q > 0 && i < |terms| && terms[i] == k * p && s == Sum(terms[..i]) % q
    ensures (s + (p * k) % q) % q == Sum(terms[..i + 1]) % q
  {
    assert p * k == terms[i];
    assert terms[..i + 1][..i] == terms[..i];
    ModIsCongruent(Sum(terms[..i]), q);
    ModIsCongruent(terms[i], q);
    CongruentAdd(s, Sum(terms[..i]), terms[i] % q, terms[i], q);
  }
}
