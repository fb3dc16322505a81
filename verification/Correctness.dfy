/** Correctness of the signature pipeline. */
module Correctness {
  import opened Arithmetic
  import opened Fermat
  import opened Sequences
  import opened Lagrange
  import opened InterpolationCoefficients
  import opened CoprimeHash
  import opened Scheme

  /** Parameters as the authority sets them up from its secrets `alpha`, `d` and `b`. */
  ghost predicate Established(pp: Params, alpha: nat, d: seq<nat>, b: seq<nat>)
  {
    && GroupOrder(pp.q)
    && pp.p2 == GENERATOR
    && pp.beta == PowMod(pp.g, alpha, pp.q)
    && |d| == |b|
    && pp.pk == PublicKeys(b, pp.q)
  }

  /* ---------------------------------------------------------------- the public-key chain */

  /** The public key of threshold `t` is the constant term of the polynomial that threshold signs with. */
  lemma {:induction false} PublicKeyIsConstantTerm(pp: Params, alpha: nat, d: seq<nat>, b: seq<nat>, t: nat)
    requires Established(pp, alpha, d, b) && 2 <= t <= |b| + 1
    ensures t - 2 < |pp.pk|
    ensures pp.pk[t - 2] == Eval(d[..t - 1], b[..t - 1], 0) % pp.q
  {
    EvalAtZero(d[..t - 1], b[..t - 1]);
  }

  /* ---------------------------------------------------------------- homomorphic shares */

  /** The sum of drawn exponents: an exponent again. */
  function Total(us: seq<nat>): nat
  {
    SumOfNaturals(us);
    Sum(us)
  }

  lemma {:induction false} SumOfNaturals(us: seq<nat>)
    ensures Sum(us) >= 0
  {
    if us != [] {
      SumOfNaturals(us[..|us| - 1]);
    }
  }

  lemma {:induction false} ShareStep(g: int, beta: int, u: nat, v: nat, p1: int, p2: int, f: int, x: int, c1: int,
      c2: int, q: int)
    requires q > 0
    requires Congruent(p1, Pow(g, u), q) && Congruent(p2, Pow(beta, u) * f, q)
    requires Congruent(c1, Pow(g, v), q) && Congruent(c2, Pow(beta, v) * x, q)
    ensures Congruent(p1 * c1, Pow(g, u + v), q)
    ensures Congruent(p2 * c2, Pow(beta, u + v) * (f * x), q)
  {
    CongruentMul(p1, Pow(g, u), c1, Pow(g, v), q);
    PowAdd(g, u, v);
    CongruentMul(p2, Pow(beta, u) * f, c2, Pow(beta, v) * x, q);
    PowAdd(beta, u, v);
    MulInterchange(Pow(beta, u), f, Pow(beta, v), x);
  }

  /** The product of the first `k` ciphertexts of an issued key encrypts the value at the signer's
      identity of the product of the first `k` linear factors, for every `k`. */
  lemma {:induction false} HomomorphicShare(pp: Params, d: seq<nat>, b: seq<nat>, id: nat, us: seq<nat>, k: nat)
    requires pp.q > 1 && |d| == |b| == |us| && k <= |b|
    ensures var uav := Issued(pp, d, b, id, us);
            && Congruent(Prod(uav.c1[..k]), Pow(pp.g, Total(us[..k])), pp.q)
            && Congruent(Prod(uav.c2[..k]), Pow(pp.beta, Total(us[..k])) * Eval(d[..k], b[..k], id), pp.q)
  {
    var uav := Issued(pp, d, b, id, us);
    if k > 0 {
      var j := k - 1;
      HomomorphicShare(pp, d, b, id, us, j);
      ProdStep(uav.c1, j);
      ProdStep(uav.c2, j);
      EvalStep(d[..k], b[..k], id);
      assert d[..k][..j] == d[..j] && b[..k][..j] == b[..j] && us[..k][..j] == us[..j];
      assert Total(us[..k]) == Total(us[..j]) + us[j];
      var x := d[j] * id + b[j];
      ModIsCongruent(Pow(pp.g, us[j]), pp.q);
      ModIsCongruent(Pow(pp.beta, us[j]) * x, pp.q);
      ShareStep(pp.g, pp.beta, Total(us[..j]), us[j], Prod(uav.c1[..j]), Prod(uav.c2[..j]),
                Eval(d[..j], b[..j], id), x, uav.c1[j], uav.c2[j], pp.q);
    }
  }

  /** A partial signature on `m` for threshold `t`, encrypted with total exponent `u`. */
  ghost predicate HonestWith(hash: HashFunction, pp: Params, d: seq<nat>, b: seq<nat>, t: nat, m: nat, s: ParSig,
      u: nat)
    requires pp.q > 0 && |d| == |b| && Degree(t) <= |b|
  {
    && s.cj == PowMod(pp.g, u, pp.q)
    && s.sig == (HashToPoint(hash, m, pp.q) * (Pow(pp.beta, u) * Eval(d[..Degree(t)], b[..Degree(t)], s.id))) % pp.q
  }

  ghost predicate Honest(hash: HashFunction, pp: Params, d: seq<nat>, b: seq<nat>, t: nat, m: nat, s: ParSig)
    requires pp.q > 0 && |d| == |b| && Degree(t) <= |b|
  {
    exists u: nat :: HonestWith(hash, pp, d, b, t, m, s, u)
  }

  /** Signing with an issued key gives a partial signature for every threshold the keys support. */
  lemma {:induction false} SignedIsHonest(hash: HashFunction, pp: Params, d: seq<nat>, b: seq<nat>, id: nat,
      us: seq<nat>, t: nat, m: nat)
    requires pp.q > 1 && |d| == |b| == |us| && Degree(t) <= |b|
    ensures HonestWith(hash, pp, d, b, t, m, Signed(hash, pp, Issued(pp, d, b, id, us), t, m), Total(us[..Degree(t)]))
  {
    var k := Degree(t);
    var uav := Issued(pp, d, b, id, us);
    HomomorphicShare(pp, d, b, id, us, k);
    var hm := HashToPoint(hash, m, pp.q);
    CongruentMul(hm, hm, Prod(uav.c2[..k]), Pow(pp.beta, Total(us[..k])) * Eval(d[..k], b[..k], id), pp.q);
  }

  /* ---------------------------------------------------------------- re-encryption */

  lemma ReKeyTimesHash(alpha: nat, h: nat, inv: nat, rk: nat, n: nat)
    requires n > 0 && Congruent(h * inv, 1, n) && rk == (alpha * inv) % n
    ensures Congruent(rk * h, alpha, n)
  {
    ModIsCongruent(alpha * inv, n);
    CongruentMul(rk, alpha * inv, h, h, n);
    CongruentMul(alpha, alpha, h * inv, 1, n);
    assert alpha * inv * h == alpha * (h * inv);
  }

  /** Re-encryption round trip: with `rk * h ≡ alpha (mod q - 1)` the verifier's exponent `h`
      turns `(g^u * g^e)^rk` into `beta^(u + e)`. */
  lemma {:induction false} ReEncryption(q: nat, g: nat, alpha: nat, rk: nat, h: nat, u: nat, e: nat)
    requires IsPrime(q) && q > 2 && !Divides(q, g) && Congruent(rk * h, alpha, q - 1)
    ensures PowMod(PowMod(PowMod(g, u, q) * PowMod(g, e, q), rk, q), h, q) == PowMod(PowMod(g, alpha, q), u + e, q)
  {
    hide Pow, Congruent, Divides;
    var c := Pow(g, u + e);
    EncryptedBase(q, g, u, e, rk);
    PowOfPowMod(c, rk, h, q);
    PowNotDivisible(q, g, u + e);
    SameResidue(q, c, rk * h, alpha);
    PowPow(g, u + e, alpha);
    PowOfPowMod(g, alpha, u + e, q);
    assert alpha * (u + e) == (u + e) * alpha;
  }

  lemma {:induction false} EncryptedBase(q: nat, g: nat, u: nat, e: nat, rk: nat)
    requires q > 0
    ensures PowMod(PowMod(g, u, q) * PowMod(g, e, q), rk, q) == PowMod(Pow(g, u + e), rk, q)
  {
    MulModMod(Pow(g, u), Pow(g, e), q);
    PowAdd(g, u, e);
    PowCongruent(PowMod(g, u, q) * PowMod(g, e, q), Pow(g, u + e), rk, q);
  }

  lemma SameResidue(q: nat, c: int, x: nat, y: nat)
    requires IsPrime(q) && !Divides(q, c) && Congruent(x, y, q - 1)
    ensures PowMod(c, x, q) == PowMod(c, y, q)
  {
    ExponentsModOrder(q, c, x, y);
  }

  /** The re-encryption key inverts the hash both sides share. */
  lemma {:induction false} ReKeyInvertsHash(hash: HashFunction, pp: Params, alpha: nat, skv: nat)
    requires GroupOrder(pp.q) && pp.beta == PowMod(pp.g, alpha, pp.q)
    requires pp.q > 2 && Hashable(hash, PowMod(pp.beta, skv, pp.q), pp.q)
    ensures Hashable(hash, PowMod(PowMod(pp.g, skv, pp.q), alpha, pp.q), pp.q)
    ensures var rk := ReKey(hash, pp.q, alpha, PowMod(pp.g, skv, pp.q));
            Congruent(rk * VerifierHash(hash, pp, skv), alpha, pp.q - 1)
  {
    hide HasNoFactor, Inverse, PowMod;
    SharedValue(pp.g, alpha, skv, pp.q);
    var h := VerifierHash(hash, pp, skv);
    FilteredHashInvertible(pp.q, h);
    ReKeyTimesHash(alpha, h, Inverse(h, pp.q - 1), ReKey(hash, pp.q, alpha, PowMod(pp.g, skv, pp.q)), pp.q - 1);
  }

  /* ---------------------------------------------------------------- combining signatures */

  function IdsOf(sigs: seq<ParSig>): (r: seq<nat>)
    ensures |r| == |sigs|
  {
    seq(|sigs|, i requires 0 <= i < |sigs| => sigs[i].id)
  }

  /** A quorum: at least `t` partial signatures on `m`, the first `t` of them honest. */
  ghost predicate Quorum(hash: HashFunction, pp: Params, d: seq<nat>, b: seq<nat>, t: nat, m: nat, sigs: seq<ParSig>)
    requires pp.q > 0 && |d| == |b|
  {
    && 2 <= t <= |b| + 1
    && t <= |sigs|
    && forall i :: 0 <= i < t ==> Honest(hash, pp, d, b, t, m, sigs[i])
  }

  lemma {:induction false} StripEncryption(pi: int, bu: int, be: int, mask: int, f: int, hm: int, q: int)
    requires IsPrime(q) && !Divides(q, mask) && Congruent(mask, bu * be, q)
    ensures Congruent((pi * Inverse(mask, q)) % q * ((hm * (bu * f)) % q * be), hm * (pi * f), q)
  {
    var inv := Inverse(mask, q);
    PrimeGcd(q, mask);
    CongruentMul(bu * be, mask, inv, inv, q);
    CongruentMul(hm * (pi * f), hm * (pi * f), bu * be * inv, 1, q);
    ModIsCongruent(pi * inv, q);
    ModIsCongruent(hm * (bu * f), q);
    CongruentMul((hm * (bu * f)) % q, hm * (bu * f), be, be, q);
    CongruentMul((pi * inv) % q, pi * inv, (hm * (bu * f)) % q * be, hm * (bu * f) * be, q);
    StripAlgebra(pi, inv, hm, bu, f, be);
  }

  lemma StripAlgebra(pi: int, inv: int, hm: int, bu: int, f: int, be: int)
    ensures pi * inv * (hm * (bu * f) * be) == hm * (pi * f) * (bu * be * inv)
  {
    var x, y := pi * inv, bu * be;
    assert hm * (bu * f) * be == hm * f * y;
    assert hm * (pi * f) * (y * inv) == hm * f * y * x;
  }

  lemma {:induction false} BetaUnit(pp: Params, alpha: nat)
    requires IsPrime(pp.q) && pp.beta == PowMod(pp.g, alpha, pp.q) && !Divides(pp.q, pp.g)
    ensures !Divides(pp.q, pp.beta)
  {
    PowNotDivisible(pp.q, pp.g, alpha);
    ModDivisible(Pow(pp.g, alpha), pp.q);
  }

  /** The weighted, re-randomised signature of one signer: everything but the share cancels. */
  lemma {:induction false} StrippedTerm(hash: HashFunction, pp: Params, alpha: nat, d: seq<nat>, b: seq<nat>,
      t: nat, m: nat, s: ParSig, skv: nat, e: nat, pi: nat, u: nat)
    requires Established(pp, alpha, d, b) && pp.q > 2 && 2 <= t <= |b| + 1 && !Divides(pp.q, pp.g)
    requires Hashable(hash, PowMod(pp.beta, skv, pp.q), pp.q)
    requires Hashable(hash, PowMod(PowMod(pp.g, skv, pp.q), alpha, pp.q), pp.q)
    requires HonestWith(hash, pp, d, b, t, m, s, u)
    ensures var rk := ReKey(hash, pp.q, alpha, PowMod(pp.g, skv, pp.q));
            var aux := PowMod(s.cj * PowMod(pp.g, e, pp.q), rk, pp.q);
            var k := (pi * Inverse(PowMod(aux, VerifierHash(hash, pp, skv), pp.q), pp.q)) % pp.q;
            Congruent(k * ((s.sig * PowMod(pp.beta, e, pp.q)) % pp.q),
                      HashToPoint(hash, m, pp.q) * (pi * Eval(d[..t - 1], b[..t - 1], s.id)), pp.q)
  {
    hide Eval, Inverse, HashToPoint, ReKey, VerifierHash, Hashable, GroupOrder;
    var q := pp.q;
    assert IsPrime(q) by { GroupOrderIsPrime(q); }
    ReKeyInvertsHash(hash, pp, alpha, skv);
    var rk, h := ReKey(hash, q, alpha, PowMod(pp.g, skv, q)), VerifierHash(hash, pp, skv);
    ReEncryption(q, pp.g, alpha, rk, h, u, e);
    var mask := PowMod(pp.beta, u + e, q);
    MaskFactors(pp, alpha, u, e);
    var value, hm := Eval(d[..t - 1], b[..t - 1], s.id), HashToPoint(hash, m, q);
    StripEncryption(pi, Pow(pp.beta, u), PowMod(pp.beta, e, q), mask, value, hm, q);
    var k := (pi * Inverse(mask, q)) % q;
    ReducedFactor(k, s.sig * PowMod(pp.beta, e, q), q);
  }

  lemma GroupOrderIsPrime(q: nat)
    requires GroupOrder(q)
    ensures IsPrime(q) && q > 2
  {
    FilteredHashInvertible(q, 1);
  }

  lemma ReducedFactor(k: int, x: int, q: int)
    requires q > 0
    ensures Congruent(k * (x % q), k * x, q)
  {
    MulModMod(k, x, q);
  }

  lemma {:induction false} MaskFactors(pp: Params, alpha: nat, u: nat, e: nat)
    requires IsPrime(pp.q) && pp.beta == PowMod(pp.g, alpha, pp.q) && !Divides(pp.q, pp.g)
    ensures !Divides(pp.q, PowMod(pp.beta, u + e, pp.q))
    ensures Congruent(PowMod(pp.beta, u + e, pp.q), Pow(pp.beta, u) * PowMod(pp.beta, e, pp.q), pp.q)
  {
    BetaUnit(pp, alpha);
    PowNotDivisible(pp.q, pp.beta, u + e);
    ModDivisible(Pow(pp.beta, u + e), pp.q);
    ModIsCongruent(Pow(pp.beta, u + e), pp.q);
    PowAdd(pp.beta, u, e);
    MulModMod(Pow(pp.beta, u), Pow(pp.beta, e), pp.q);
  }

  /** The combined point of any honest quorum, whatever its identities. */
  lemma {:induction false} CombinedPoint(hash: HashFunction, pp: Params, alpha: nat, d: seq<nat>, b: seq<nat>,
      t: nat, m: nat, sigs: seq<ParSig>, skv: nat, e: nat)
    requires Established(pp, alpha, d, b) && Quorum(hash, pp, d, b, t, m, sigs)
    requires pp.q > 2 && !Divides(pp.q, pp.g)
    requires Hashable(hash, PowMod(pp.beta, skv, pp.q), pp.q)
    requires Hashable(hash, PowMod(PowMod(pp.g, skv, pp.q), alpha, pp.q), pp.q)
    ensures var sigma := Aggregated(hash, sigs, pp, alpha, PowMod(pp.g, skv, pp.q), e);
            var ids := IdsOf(sigs)[..t];
            Combined(sigma, VerifierHash(hash, pp, skv), pp.q, t) ==
            (HashToPoint(hash, m, pp.q) * Dot(FastPis(ids, pp.q), Values(d[..t - 1], b[..t - 1], ids))) % pp.q
  {
    var q, h, hm := pp.q, VerifierHash(hash, pp, skv), HashToPoint(hash, m, pp.q);
    var sigma := Aggregated(hash, sigs, pp, alpha, PowMod(pp.g, skv, q), e);
    var ids := IdsOf(sigs)[..t];
    assert sigma.ids[..t] == ids;
    var u := Times(FastPis(ids, q), Values(d[..t - 1], b[..t - 1], ids));
    var v := seq(t, i requires 0 <= i < t => hm * u[i]);
    var w := Times(Weights(sigma, h, q, t), sigma.sig[..t]);
    forall i | 0 <= i < t
      ensures Congruent(w[i], v[i], q)
    {
      var x: nat :| HonestWith(hash, pp, d, b, t, m, sigs[i], x);
      StrippedTerm(hash, pp, alpha, d, b, t, m, sigs[i], skv, e, FastPi(ids, i, q), x);
    }
    SumCongruent(w, v, q);
    SumCombination(v, u, u, hm, 0);
  }

  /* ---------------------------------------------------------------- acceptance */

  /** The signature a verifier with key `skv` receives for a list of partial signatures. */
  ghost function Transformed(hash: HashFunction, pp: Params, alpha: nat, sigs: seq<ParSig>, skv: nat,
      e: nat): (r: Sigma)
    requires GroupOrder(pp.q) && pp.beta == PowMod(pp.g, alpha, pp.q)
    requires Hashable(hash, PowMod(pp.beta, skv, pp.q), pp.q)
    ensures pp.q > 2
    ensures |r.aux| == |r.sig| == |r.ids| == |sigs|
  {
    GroupOrderIsPrime(pp.q);
    SharedValue(pp.g, alpha, skv, pp.q);
    Aggregated(hash, sigs, pp, alpha, PowMod(pp.g, skv, pp.q), e)
  }

  /** The exponent the verifier uses is the first member of `h, h + INC, ...` without a listed factor, for
      the hash `h` of the value it shares with the aggregator. */
  lemma VerifierHashIsRepair(hash: HashFunction, pp: Params, skv: nat) returns (k: nat)
    requires pp.q > 2 && Hashable(hash, PowMod(pp.beta, skv, pp.q), pp.q)
    ensures k < MAX_STEPS && IsFirstRepair(hash(PowMod(pp.beta, skv, pp.q), pp.q - 1), k)
    ensures VerifierHash(hash, pp, skv) == hash(PowMod(pp.beta, skv, pp.q), pp.q - 1) + k * INC
  {
    hide IsFirstRepair;
    var h := hash(PowMod(pp.beta, skv, pp.q), pp.q - 1);
    assert VerifierHash(hash, pp, skv) == Repaired(h);
    k :| k < MAX_STEPS && IsFirstRepair(h, k) && Repaired(h) == h + k * INC;
  }

  /** Round trip of what is sent: the verifier's power of the auxiliary value is the mask `beta^(u + e)`
      that the sent signature point carries, `beta^u` from the signer and `beta^e` from the aggregator. */
  lemma {:induction false} SentRoundTrip(hash: HashFunction, pp: Params, alpha: nat, d: seq<nat>, b: seq<nat>,
      t: nat, m: nat, sigs: seq<ParSig>, skv: nat, e: nat, i: nat, u: nat)
    requires Established(pp, alpha, d, b) && Degree(t) <= |b| && !Divides(pp.q, pp.g)
    requires Hashable(hash, PowMod(pp.beta, skv, pp.q), pp.q)
    requires i < |sigs| && pp.q > 2 && HonestWith(hash, pp, d, b, t, m, sigs[i], u)
    ensures var sigma := Transformed(hash, pp, alpha, sigs, skv, e);
            && PowMod(sigma.aux[i], VerifierHash(hash, pp, skv), pp.q) == PowMod(pp.beta, u + e, pp.q)
            && Congruent(sigma.sig[i], sigs[i].sig * Pow(pp.beta, e), pp.q)
            && sigma.ids[i] == sigs[i].id
  {
    hide Hashable, GroupOrder, ReKey, VerifierHash, PublicKeys, Eval, HashToPoint, Divides;
    var q := pp.q;
    GroupOrderIsPrime(q);
    SharedValue(pp.g, alpha, skv, q);
    ReKeyInvertsHash(hash, pp, alpha, skv);
    ReEncryption(q, pp.g, alpha, ReKey(hash, q, alpha, PowMod(pp.g, skv, q)), VerifierHash(hash, pp, skv), u, e);
    ModIsCongruent(sigs[i].sig * PowMod(pp.beta, e, q), q);
    MulModMod(sigs[i].sig, Pow(pp.beta, e), q);
  }

  lemma QuorumVerifiable(hash: HashFunction, pp: Params, alpha: nat, d: seq<nat>, b: seq<nat>, t: nat, m: nat,
      sigs: seq<ParSig>, skv: nat, e: nat)
    requires Established(pp, alpha, d, b) && Quorum(hash, pp, d, b, t, m, sigs)
    requires Hashable(hash, PowMod(pp.beta, skv, pp.q), pp.q)
    ensures Verifiable(Transformed(hash, pp, alpha, sigs, skv, e), pp, t)
  {
  }

  lemma {:induction false} PairingEquation(hm: int, sum: int, c: int, q: int)
    requires IsPrime(q)
    ensures ((hm * sum) % q * GENERATOR) % q == (hm * (c % q)) % q <==> Divides(q, hm) || Congruent(sum, c, q)
  {
    ModIsCongruent(hm * sum, q);
    MulModMod(hm, c, q);
    CongruentIffDividesDifference(hm * sum, hm * c, q);
    assert hm * sum - hm * c == hm * (sum - c);
    EuclidLemma(q, hm, sum - c);
    CongruentIffDividesDifference(sum, c, q);
  }

  /** The verdict on a quorum with identities `ids` for the generator `g`, the key `(d, b)` and the
      message point `hm`. Distinct non-zero identities are accepted. With a zero generator or identity, or
      if every identity is repeated, only a neutral expected point is. For a unit generator it is in
      general whether the identities recover this key, or the message hashes to the neutral point. */
  ghost predicate ExactVerdict(accepted: bool, g: nat, hm: nat, ids: seq<nat>, d: seq<nat>, b: seq<nat>, q: nat)
    requires q > 1 && |d| == |b|
  {
    && (!Divides(q, g) && Distinct(ids, q) && NonZero(ids, q) ==> accepted)
    && (Divides(q, g) || !NonZero(ids, q) || AllRepeated(ids, q) ==> (accepted <==> Divides(q, hm * Prod(b))))
    && (!Divides(q, g) ==> (accepted <==> Divides(q, hm) || Recovers(ids, d, b, q)))
  }

  /** For two identities the verdict is a closed condition. */
  lemma PairVerdict(accepted: bool, g: nat, hm: nat, ids: seq<nat>, d: seq<nat>, b: seq<nat>, q: nat)
    requires q > 1 && |d| == |b| && |ids| == 2 && ExactVerdict(accepted, g, hm, ids, d, b, q)
    ensures accepted <==> (!Divides(q, g) && Distinct(ids, q) && NonZero(ids, q)) || Divides(q, hm * Prod(b))
  {
    hide Distinct, NonZero, AllRepeated, Recovers, Divides, Prod;
    if !Distinct(ids, q) {
      PairRepeated(ids, q);
    }
  }

  lemma {:induction false} AcceptedIfRecovered(hash: HashFunction, pp: Params, alpha: nat, d: seq<nat>, b: seq<nat>,
      t: nat, m: nat, sigs: seq<ParSig>, skv: nat, e: nat)
    requires Established(pp, alpha, d, b) && Quorum(hash, pp, d, b, t, m, sigs)
    requires !Divides(pp.q, pp.g)
    requires Hashable(hash, PowMod(pp.beta, skv, pp.q), pp.q)
    ensures Verifiable(Transformed(hash, pp, alpha, sigs, skv, e), pp, t)
    ensures Accepted(hash, Transformed(hash, pp, alpha, sigs, skv, e), skv, pp, m, t) <==>
            Divides(pp.q, HashToPoint(hash, m, pp.q)) || Recovers(IdsOf(sigs)[..t], d[..t - 1], b[..t - 1], pp.q)
  {
    GroupOrderIsPrime(pp.q);
    QuorumVerifiable(hash, pp, alpha, d, b, t, m, sigs, skv, e);
    SharedValue(pp.g, alpha, skv, pp.q);
    CombinedPoint(hash, pp, alpha, d, b, t, m, sigs, skv, e);
    hide Dot, Prod, FastPis, Values, HashToPoint, Combined, Established, Quorum, Hashable;
    var ids := IdsOf(sigs)[..t];
    assert pp.pk[t - 2] == Prod(b[..t - 1]) % pp.q by { PublicKeyAt(pp, alpha, d, b, t); }
    PairingEquation(HashToPoint(hash, m, pp.q), Dot(FastPis(ids, pp.q), Values(d[..t - 1], b[..t - 1], ids)),
                    Prod(b[..t - 1]), pp.q);
  }

  lemma PublicKeyAt(pp: Params, alpha: nat, d: seq<nat>, b: seq<nat>, t: nat)
    requires Established(pp, alpha, d, b) && 2 <= t <= |b| + 1
    ensures t - 2 < |pp.pk| && pp.pk[t - 2] == Prod(b[..t - 1]) % pp.q
  {
  }

  lemma {:induction false} UnitGeneratorVerdict(hash: HashFunction, pp: Params, alpha: nat, d: seq<nat>, b: seq<nat>,
      t: nat, m: nat, sigs: seq<ParSig>, skv: nat, e: nat)
    requires Established(pp, alpha, d, b) && Quorum(hash, pp, d, b, t, m, sigs)
    requires !Divides(pp.q, pp.g)
    requires Hashable(hash, PowMod(pp.beta, skv, pp.q), pp.q)
    ensures Verifiable(Transformed(hash, pp, alpha, sigs, skv, e), pp, t)
    ensures ExactVerdict(Accepted(hash, Transformed(hash, pp, alpha, sigs, skv, e), skv, pp, m, t), pp.g,
                         HashToPoint(hash, m, pp.q), IdsOf(sigs)[..t], d[..t - 1], b[..t - 1], pp.q)
  {
    GroupOrderIsPrime(pp.q);
    AcceptedIfRecovered(hash, pp, alpha, d, b, t, m, sigs, skv, e);
    hide Accepted, Recovers, Distinct, NonZero, AllRepeated, Prod;
    var ids := IdsOf(sigs)[..t];
    if Distinct(ids, pp.q) && NonZero(ids, pp.q) {
      DistinctNonZeroRecovers(ids, d[..t - 1], b[..t - 1], pp.q);
    }
    if !NonZero(ids, pp.q) {
      ZeroNodeFails(ids, pp.q, d[..t - 1], b[..t - 1]);
    }
    if AllRepeated(ids, pp.q) {
      AllRepeatedFails(ids, pp.q, d[..t - 1], b[..t - 1]);
    }
    EuclidLemma(pp.q, HashToPoint(hash, m, pp.q), Prod(b[..t - 1]));
  }

  /** If every signature point is neutral, or made so by the aggregator's mask, the combined point is the
      neutral element. */
  lemma {:induction false} ZeroSignatures(hash: HashFunction, pp: Params, alpha: nat, d: seq<nat>, b: seq<nat>,
      t: nat, m: nat, sigs: seq<ParSig>, skv: nat, e: nat)
    requires Established(pp, alpha, d, b) && 2 <= t <= |b| + 1 && t <= |sigs|
    requires forall i :: 0 <= i < t ==> Divides(pp.q, sigs[i].sig) || Divides(pp.q, PowMod(pp.beta, e, pp.q))
    requires Hashable(hash, PowMod(pp.beta, skv, pp.q), pp.q)
    ensures Verifiable(Transformed(hash, pp, alpha, sigs, skv, e), pp, t)
    ensures Accepted(hash, Transformed(hash, pp, alpha, sigs, skv, e), skv, pp, m, t) <==>
            Divides(pp.q, HashToPoint(hash, m, pp.q) * Prod(b[..t - 1]))
  {
    var q := pp.q;
    GroupOrderIsPrime(q);
    SharedValue(pp.g, alpha, skv, q);
    var sigma := Transformed(hash, pp, alpha, sigs, skv, e);
    var ks := Weights(sigma, VerifierHash(hash, pp, skv), q, t);
    forall i | 0 <= i < t
      ensures Divides(q, sigma.sig[..t][i])
    {
      EuclidLemma(q, sigs[i].sig, PowMod(pp.beta, e, q));
      ModDivisible(sigs[i].sig * PowMod(pp.beta, e, q), q);
    }
    DotVanishes(ks, sigma.sig[..t], q);
    PublicKeyAt(pp, alpha, d, b, t);
    MulModMod(HashToPoint(hash, m, q), Prod(b[..t - 1]), q);
    ModUnique(0, q, 0, 0);
  }

  /** A zero generator makes every mask the aggregator draws zero. */
  lemma {:induction false} ZeroMask(q: nat, g: nat, alpha: nat, e: nat)
    requires IsPrime(q) && Divides(q, g) && alpha > 0 && e > 0
    ensures Divides(q, PowMod(PowMod(g, alpha, q), e, q))
  {
    PowerDivisible(q, g, alpha);
    ModDivisible(Pow(g, alpha), q);
    PowerDivisible(q, PowMod(g, alpha, q), e);
    ModDivisible(Pow(PowMod(g, alpha, q), e), q);
  }

  /** Exactly when an honest quorum is accepted, for every generator. The secret `alpha` and the mask
      exponent `e` are drawn from `[1, q]`; for a unit generator they can be anything. */
  lemma {:induction false} AcceptedExactly(hash: HashFunction, pp: Params, alpha: nat, d: seq<nat>, b: seq<nat>,
      t: nat, m: nat, sigs: seq<ParSig>, skv: nat, e: nat)
    requires Established(pp, alpha, d, b) && Quorum(hash, pp, d, b, t, m, sigs)
    requires Divides(pp.q, pp.g) ==> alpha > 0 && e > 0
    requires Hashable(hash, PowMod(pp.beta, skv, pp.q), pp.q)
    ensures Verifiable(Transformed(hash, pp, alpha, sigs, skv, e), pp, t)
    ensures ExactVerdict(Accepted(hash, Transformed(hash, pp, alpha, sigs, skv, e), skv, pp, m, t), pp.g,
                         HashToPoint(hash, m, pp.q), IdsOf(sigs)[..t], d[..t - 1], b[..t - 1], pp.q)
  {
    hide Accepted, Transformed, Recovers, Distinct, NonZero, AllRepeated, Prod, Divides, Hashable, Verifiable, Honest;
    GroupOrderIsPrime(pp.q);
    if Divides(pp.q, pp.g) {
      ZeroMask(pp.q, pp.g, alpha, e);
      ZeroSignatures(hash, pp, alpha, d, b, t, m, sigs, skv, e);
    } else {
      UnitGeneratorVerdict(hash, pp, alpha, d, b, t, m, sigs, skv, e);
    }
  }

  /** End-to-end correctness: every honest quorum with different, non-zero identities is accepted by
      every verifier, for every threshold, key, message and randomness. */
  lemma {:induction false} HonestQuorumAccepted(hash: HashFunction, pp: Params, alpha: nat, d: seq<nat>,
      b: seq<nat>, t: nat, m: nat, sigs: seq<ParSig>, skv: nat, e: nat)
    requires Established(pp, alpha, d, b) && Quorum(hash, pp, d, b, t, m, sigs)
    requires !Divides(pp.q, pp.g)
    requires Distinct(IdsOf(sigs)[..t], pp.q) && NonZero(IdsOf(sigs)[..t], pp.q)
    requires Hashable(hash, PowMod(pp.beta, skv, pp.q), pp.q)
    ensures Verifiable(Transformed(hash, pp, alpha, sigs, skv, e), pp, t)
    ensures Accepted(hash, Transformed(hash, pp, alpha, sigs, skv, e), skv, pp, m, t)
  {
    AcceptedExactly(hash, pp, alpha, d, b, t, m, sigs, skv, e);
  }

  /** Every such quorum, transformed for any verifier with any randomness, combines to the shared
      secret times the hash of the message. */
  lemma {:induction false} CombinedIsSecret(hash: HashFunction, pp: Params, alpha: nat, d: seq<nat>, b: seq<nat>,
      t: nat, m: nat, sigs: seq<ParSig>, skv: nat, e: nat)
    requires Established(pp, alpha, d, b) && Quorum(hash, pp, d, b, t, m, sigs)
    requires !Divides(pp.q, pp.g)
    requires Distinct(IdsOf(sigs)[..t], pp.q) && NonZero(IdsOf(sigs)[..t], pp.q)
    requires Hashable(hash, PowMod(pp.beta, skv, pp.q), pp.q)
    ensures pp.q > 2
    ensures Combined(Transformed(hash, pp, alpha, sigs, skv, e), VerifierHash(hash, pp, skv), pp.q, t) ==
            (HashToPoint(hash, m, pp.q) * Prod(b[..t - 1])) % pp.q
  {
    GroupOrderIsPrime(pp.q);
    SharedValue(pp.g, alpha, skv, pp.q);
    CombinedPoint(hash, pp, alpha, d, b, t, m, sigs, skv, e);
    var ids, hm := IdsOf(sigs)[..t], HashToPoint(hash, m, pp.q);
    DistinctNonZeroRecovers(ids, d[..t - 1], b[..t - 1], pp.q);
    CongruentMul(hm, hm, Dot(FastPis(ids, pp.q), Values(d[..t - 1], b[..t - 1], ids)), Prod(b[..t - 1]), pp.q);
  }

  lemma {:induction false} PairingOfMessages(x: nat, y: nat, p: int, q: nat)
    requires IsPrime(q)
    ensures ((x % q * p) % q * GENERATOR) % q == (y % q * (p % q)) % q <==> Divides(q, (x - y) * p)
  {
    ModIsCongruent(x % q * p, q);
    MulModMod(p, x, q);
    MulModMod(p, y, q);
    MulModMod(y % q, p, q);
    CongruentIffDividesDifference(x * p, y * p, q);
    assert x * p - y * p == (x - y) * p;
  }

  /** Message binding: a quorum that signed `m` is accepted for `m'` exactly when their hashes agree modulo
      `q`, or the shared secret is zero. */
  lemma {:induction false} MessageBinding(hash: HashFunction, pp: Params, alpha: nat, d: seq<nat>, b: seq<nat>,
      t: nat, m: nat, sigs: seq<ParSig>, skv: nat, e: nat, m': nat)
    requires Established(pp, alpha, d, b) && Quorum(hash, pp, d, b, t, m, sigs)
    requires !Divides(pp.q, pp.g)
    requires Distinct(IdsOf(sigs)[..t], pp.q) && NonZero(IdsOf(sigs)[..t], pp.q)
    requires Hashable(hash, PowMod(pp.beta, skv, pp.q), pp.q)
    ensures Verifiable(Transformed(hash, pp, alpha, sigs, skv, e), pp, t)
    ensures Accepted(hash, Transformed(hash, pp, alpha, sigs, skv, e), skv, pp, m', t) <==>
            Divides(pp.q, (hash(m, pp.q) - hash(m', pp.q)) * Prod(b[..t - 1]))
  {
    hide Combined, Transformed, Prod, Distinct, NonZero, Hashable, Honest, VerifierHash, Divides, PublicKeys;
    GroupOrderIsPrime(pp.q);
    QuorumVerifiable(hash, pp, alpha, d, b, t, m, sigs, skv, e);
    CombinedIsSecret(hash, pp, alpha, d, b, t, m, sigs, skv, e);
    PublicKeyAt(pp, alpha, d, b, t);
    PairingOfMessages(hash(m, pp.q), hash(m', pp.q), Prod(b[..t - 1]), pp.q);
  }

  /** Quorum independence: any two such quorums, in any order, for different verifiers and with
      different randomness, combine to the same point. */
  lemma {:induction false} QuorumIndependence(hash: HashFunction, pp: Params, alpha: nat, d: seq<nat>, b: seq<nat>,
      t: nat, m: nat, sigs: seq<ParSig>, skv: nat, e: nat, sigs': seq<ParSig>, skv': nat, e': nat)
    requires Established(pp, alpha, d, b) && !Divides(pp.q, pp.g)
    requires Quorum(hash, pp, d, b, t, m, sigs) && Quorum(hash, pp, d, b, t, m, sigs')
    requires Distinct(IdsOf(sigs)[..t], pp.q) && NonZero(IdsOf(sigs)[..t], pp.q)
    requires Distinct(IdsOf(sigs')[..t], pp.q) && NonZero(IdsOf(sigs')[..t], pp.q)
    requires Hashable(hash, PowMod(pp.beta, skv, pp.q), pp.q) && Hashable(hash, PowMod(pp.beta, skv', pp.q), pp.q)
    ensures pp.q > 2
    ensures Combined(Transformed(hash, pp, alpha, sigs, skv, e), VerifierHash(hash, pp, skv), pp.q, t) ==
            Combined(Transformed(hash, pp, alpha, sigs', skv', e'), VerifierHash(hash, pp, skv'), pp.q, t)
  {
    hide Established, Quorum, Distinct, NonZero, Hashable, Combined, Transformed, VerifierHash;
    CombinedIsSecret(hash, pp, alpha, d, b, t, m, sigs, skv, e);
    CombinedIsSecret(hash, pp, alpha, d, b, t, m, sigs', skv', e');
  }

  /* ---------------------------------------------------------------- corruption */

  lemma {:induction false} DotUpdate(ks: seq<int>, vs: seq<int>, j: nat, x: int)
    requires |ks| == |vs| && j < |vs|
    ensures Dot(ks, vs[j := x]) == Dot(ks, vs) + ks[j] * (x - vs[j])
    decreases |vs|
  {
    var n := |vs| - 1;
    assert Times(ks, vs)[..n] == Times(ks[..n], vs[..n]);
    assert Times(ks, vs[j := x])[..n] == Times(ks[..n], vs[j := x][..n]);
    if j < n {
      DotUpdate(ks[..n], vs[..n], j, x);
      assert vs[j := x][..n] == vs[..n][j := x];
    } else {
      assert vs[j := x][..n] == vs[..n];
      assert ks[n] * x == ks[n] * vs[n] + ks[n] * (x - vs[n]);
    }
  }

  /** A weight is zero exactly when the auxiliary value is, some identity is, or the identity repeats. */
  lemma {:induction false} WeightVanishes(ids: seq<nat>, aux: nat, i: nat, h: nat, q: nat)
    requires IsPrime(q) && i < |ids| && h > 0
    ensures Divides(q, Weight(ids, aux, i, h, q)) <==>
            || Divides(q, aux)
            || !NonZero(ids, q)
            || exists j :: 0 <= j < |ids| && j != i && Congruent(ids[j], ids[i], q)
  {
    var pi, mask := FastPi(ids, i, q), PowMod(aux, h, q);
    ModDivisible(pi * Inverse(mask, q), q);
    EuclidLemma(q, pi, Inverse(mask, q));
    InverseDivisible(mask, q);
    ModDivisible(Pow(aux, h), q);
    PowerDivisible(q, aux, h);
    FastPiVanishes(ids, i, q);
  }

  lemma {:induction false} ChangedSum(s: int, k: int, diff: int, q: int)
    requires IsPrime(q) && !Divides(q, diff)
    ensures ((s + k * diff) % q * GENERATOR) % q == (s % q * GENERATOR) % q <==> Divides(q, k)
  {
    ModIsCongruent(s + k * diff, q);
    ModIsCongruent(s, q);
    CongruentIffDividesDifference(s + k * diff, s, q);
    EuclidLemma(q, k, diff);
  }

  /** Single corruption: replacing one signature point of an accepted signature by a different point
      is rejected, unless that signer's weight is zero. */
  lemma {:induction false} SingleCorruption(hash: HashFunction, sigma: Sigma, skv: nat, pp: Params, m: nat, t: nat,
      j: nat, p: nat)
    requires GroupOrder(pp.q) && pp.q > 2 && pp.p2 == GENERATOR && Verifiable(sigma, pp, t)
    requires Hashable(hash, PowMod(pp.beta, skv, pp.q), pp.q)
    requires Accepted(hash, sigma, skv, pp, m, t)
    requires j < t && !Congruent(p, sigma.sig[j], pp.q)
    ensures var ids := sigma.ids[..t];
            Accepted(hash, sigma.(sig := sigma.sig[j := p]), skv, pp, m, t) <==>
            || Divides(pp.q, sigma.aux[j])
            || !NonZero(ids, pp.q)
            || exists i :: 0 <= i < t && i != j && Congruent(ids[i], ids[j], pp.q)
  {
    hide HasNoFactor, GroupOrder, Hashable, Weight, Dot, VerifierHash, HashToPoint;
    var q, h := pp.q, VerifierHash(hash, pp, skv);
    GroupOrderIsPrime(q);
    HashPositive(h);
    CorruptedSum(sigma, h, q, t, j, p);
    WeightVanishes(sigma.ids[..t], sigma.aux[j], j, h, q);
    DifferenceNonZero(p, sigma.sig[j], q);
    var ks := Weights(sigma, h, q, t);
    ChangedSum(Dot(ks, sigma.sig[..t]), ks[j], (p as int) - sigma.sig[j], q);
  }

  lemma {:induction false} CorruptedSum(sigma: Sigma, h: nat, q: nat, t: nat, j: nat, p: nat)
    requires q > 1 && j < t && t <= |sigma.aux| && t <= |sigma.ids| && t <= |sigma.sig|
    ensures var ks := Weights(sigma, h, q, t);
            Combined(sigma.(sig := sigma.sig[j := p]), h, q, t) ==
            (Dot(ks, sigma.sig[..t]) + ks[j] * ((p as int) - sigma.sig[j])) % q
  {
    assert Weights(sigma, h, q, t) == Weights(sigma.(sig := sigma.sig[j := p]), h, q, t);
    assert sigma.sig[j := p][..t] == sigma.sig[..t][j := p];
    DotUpdate(Weights(sigma, h, q, t), sigma.sig[..t], j, p);
  }

  lemma DifferenceNonZero(a: int, b: int, q: int)
    requires q > 0 && !Congruent(a, b, q)
    ensures !Divides(q, a - b)
  {
    CongruentIffDividesDifference(a, b, q);
  }

  lemma HashPositive(h: nat)
    requires HasNoFactor(FACTORS, h)
    ensures h > 0
  {
    assert FACTORS[0] == 2;
    assert !Divides(FACTORS[0], h);
  }
}
