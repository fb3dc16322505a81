/** Key generation and the whole pipeline, from set-up to verification. */
module Pipeline {
  import opened Arithmetic
  import opened Sequences
  import opened Lagrange
  import opened InterpolationCoefficients
  import opened CoprimeHash
  import opened Scheme
  import opened Correctness

  method KeyGen(params: Params, alpha: nat, bDraws: seq<nat>, dDraws: seq<nat>, idDraws: seq<nat>,
      uDraws: seq<seq<nat>>, headId: nat)
      returns (pp: Params, uavs: seq<Uav>, head: Head)
    requires 1 < params.q < SCALAR_LIMIT && params.tm >= 2
    requires |bDraws| == |dDraws| == params.tm - 1 && AllDrawn(bDraws, params.q)
    requires |idDraws| == |uDraws| == params.n
    requires forall j :: 0 <= j < params.n ==> |uDraws[j]| == params.tm - 1
    ensures pp == params.(pk := PublicKeys(bDraws, params.q))
    ensures |uavs| == params.n
    ensures forall j :: 0 <= j < params.n ==> uavs[j] == Issued(pp, dDraws, bDraws, idDraws[j], uDraws[j])
    ensures head == Head(headId, alpha)
  {
    var b: seq<nat>, d: seq<nat> := [], [];
    for i := 0 to params.tm - 1
      invariant b == bDraws[..i] && d == dDraws[..i]
    {
      b := b + [bDraws[i]];
      d := d + [dDraws[i]];
    }
    assert b == bDraws && d == dDraws;
    var pk := GetPK(b, params.q);
    pp := params.(pk := pk);
    uavs := [];
    for j := 0 to params.n
      invariant |uavs| == j
      invariant forall k :: 0 <= k < j ==> uavs[k] == Issued(pp, dDraws, bDraws, idDraws[k], uDraws[k])
    {
      var uav := GetUAV(pp, d, b, idDraws[j], uDraws[j]);
      uavs := uavs + [uav];
    }
    head := Head(headId, alpha);
  }

  /* ---------------------------------------------------------------- a zero generator */

  lemma {:induction false} ZeroBetaShare(hash: HashFunction, pp: Params, d: seq<nat>, b: seq<nat>, id: nat,
      us: seq<nat>, t: nat, m: nat)
    requires IsPrime(pp.q) && Divides(pp.q, pp.beta)
    requires |d| == |b| == |us| && 2 <= t <= |b| + 1 && us[0] > 0
    ensures Divides(pp.q, Signed(hash, pp, Issued(pp, d, b, id, us), t, m).sig)
  {
    var q, uav := pp.q, Issued(pp, d, b, id, us);
    PowerDivisible(q, pp.beta, us[0]);
    var x := d[0] * id + b[0];
    EuclidLemma(q, Pow(pp.beta, us[0]), x);
    ModDivisible(Pow(pp.beta, us[0]) * x, q);
    assert Divides(q, uav.c2[..t - 1][0]);
    PrimeDividesProd(q, uav.c2[..t - 1]);
    var hm := HashToPoint(hash, m, q);
    EuclidLemma(q, hm, Prod(uav.c2[..t - 1]));
    ModDivisible(hm * Prod(uav.c2[..t - 1]), q);
  }

  /* ---------------------------------------------------------------- the pipeline */

  /** Every value the pipeline draws at random. */
  datatype Draws = Draws(g: nat, alpha: nat, b: seq<nat>, d: seq<nat>, ids: seq<nat>, us: seq<seq<nat>>,
      headId: nat, skv: nat, e: nat)
  {
    ghost predicate Valid(q: nat, n: nat, tm: nat)
    {
      && Drawn(g, q) && Drawn(alpha, q) && Drawn(skv, q) && Drawn(e, q) && Drawn(headId, q)
      && |b| == |d| == tm - 1 && DrawnKeys(d, b, q)
      && |ids| == |us| == n && AllDrawn(ids, q)
      && forall j :: 0 <= j < n ==> |us[j]| == tm - 1 && AllDrawn(us[j], q)
    }
  }

  /** The parameters and the partial signatures that the draws lead to. */
  function ParamsOf(q: nat, n: nat, tm: nat, r: Draws): (pp: Params)
    requires q > 0
  {
    Params(n, tm, q, GENERATOR, r.g, PowMod(r.g, r.alpha, q), PublicKeys(r.b, q))
  }

  /** The setting of one verification: a threshold that keys and signers suffice for, and a shared value
      on which the repair loop ends. */
  ghost predicate Setting(hash: HashFunction, q: nat, n: nat, tm: nat, t: nat, r: Draws)
  {
    && GroupOrder(q) && 2 <= t <= tm && t <= n && r.Valid(q, n, tm)
    && Hashable(hash, PowMod(PowMod(r.g, r.alpha, q), r.skv, q), q)
  }

  ghost function SigsOf(hash: HashFunction, q: nat, n: nat, tm: nat, t: nat, m: nat, r: Draws): (sigs: seq<ParSig>)
    requires Setting(hash, q, n, tm, t, r)
    ensures |sigs| == t && IdsOf(sigs) == r.ids[..t]
  {
    var pp := ParamsOf(q, n, tm, r);
    seq(t, i requires 0 <= i < t => Signed(hash, pp, Issued(pp, r.d, r.b, r.ids[i], r.us[i]), t, m))
  }

  /** Whether the honest pipeline passes verification at threshold `t`. */
  ghost predicate Passes(hash: HashFunction, q: nat, n: nat, tm: nat, t: nat, m: nat, r: Draws)
    requires Setting(hash, q, n, tm, t, r)
  {
    var pp := ParamsOf(q, n, tm, r);
    Accepted(hash, Transformed(hash, pp, r.alpha, SigsOf(hash, q, n, tm, t, m, r), r.skv, r.e), r.skv, pp, m, t)
  }

  /** The outcome of the pipeline for every outcome of the draws. At threshold 2 the condition is closed:
      it passes for a unit generator and two distinct non-zero identities, and otherwise exactly when the
      expected point is neutral. */
  lemma {:induction false} PipelineOutcome(hash: HashFunction, q: nat, n: nat, tm: nat, t: nat, m: nat, r: Draws)
    requires Setting(hash, q, n, tm, t, r)
    ensures ExactVerdict(Passes(hash, q, n, tm, t, m, r), r.g, HashToPoint(hash, m, q), r.ids[..t], r.d[..t - 1],
                         r.b[..t - 1], q)
    ensures t == 2 ==>
              (Passes(hash, q, n, tm, t, m, r) <==>
               || (!Divides(q, r.g) && Distinct(r.ids[..2], q) && NonZero(r.ids[..2], q))
               || Divides(q, HashToPoint(hash, m, q) * Prod(r.b[..1])))
  {
    GroupOrderIsPrime(q);
    var pp, sigs := ParamsOf(q, n, tm, r), SigsOf(hash, q, n, tm, t, m, r);
    forall i | 0 <= i < t
      ensures Honest(hash, pp, r.d, r.b, t, m, sigs[i])
    {
      SignedIsHonest(hash, pp, r.d, r.b, r.ids[i], r.us[i], t, m);
    }
    hide Honest, Accepted, Transformed, ExactVerdict, Hashable, GroupOrder, PublicKeys, Distinct, NonZero, Prod;
    AcceptedExactly(hash, pp, r.alpha, r.d, r.b, t, m, sigs, r.skv, r.e);
    assert IdsOf(sigs)[..t] == r.ids[..t];
    if t == 2 {
      PairVerdict(Passes(hash, q, n, tm, t, m, r), r.g, HashToPoint(hash, m, q), r.ids[..2], r.d[..1], r.b[..1], q);
    }
  }

  function Padded(xs: seq<nat>, n: nat): (r: seq<nat>)
    requires |xs| <= n
    ensures |r| == n && xs <= r && forall i :: |xs| <= i < n ==> r[i] == 1
  {
    xs + seq(n - |xs|, _ => 1)
  }

  /** The condition on the identities alone: with a unit generator and message point, the pipeline passes
      for every key the authority could have drawn exactly when the identities are distinct and non-zero. */
  lemma {:induction false} PassesForEveryKey(hash: HashFunction, q: nat, n: nat, tm: nat, t: nat, m: nat, r: Draws)
    requires Setting(hash, q, n, tm, t, r) && !Divides(q, r.g) && !Divides(q, HashToPoint(hash, m, q))
    ensures forall d: seq<nat>, b: seq<nat> | |d| == tm - 1 && DrawnKeys(d, b, q) ::
              Setting(hash, q, n, tm, t, r.(d := d, b := b))
    ensures (forall d: seq<nat>, b: seq<nat> | |d| == tm - 1 && DrawnKeys(d, b, q) ::
               Passes(hash, q, n, tm, t, m, r.(d := d, b := b)))
            <==> Distinct(r.ids[..t], q) && NonZero(r.ids[..t], q)
  {
    hide Passes, Recovers, Distinct, NonZero, HashToPoint, Prod;
    if Distinct(r.ids[..t], q) && NonZero(r.ids[..t], q) {
      forall d: seq<nat>, b: seq<nat> | |d| == tm - 1 && DrawnKeys(d, b, q)
        ensures Passes(hash, q, n, tm, t, m, r.(d := d, b := b))
      {
        PipelineOutcome(hash, q, n, tm, t, m, r.(d := d, b := b));
      }
    } else {
      GroupOrderIsPrime(q);
      var d', b' := UnrecoveredKey(r.ids[..t], q);
      var d, b := Padded(d', tm - 1), Padded(b', tm - 1);
      assert d[..t - 1] == d' && b[..t - 1] == b' && DrawnKeys(d, b, q);
      PipelineOutcome(hash, q, n, tm, t, m, r.(d := d, b := b));
      assert !Passes(hash, q, n, tm, t, m, r.(d := d, b := b));
    }
  }

  /** The signers that key generation hands out can sign, and their signatures are those of the draws. */
  lemma {:induction false} CollectedSigs(hash: HashFunction, q: nat, n: nat, tm: nat, t: nat, m: nat, r: Draws,
      uavs: seq<Uav>)
    requires Setting(hash, q, n, tm, t, r) && |uavs| == n
    requires forall j :: 0 <= j < n ==> uavs[j] == Issued(ParamsOf(q, n, tm, r), r.d, r.b, r.ids[j], r.us[j])
    ensures forall i :: 0 <= i < t ==> CanSign(uavs[i], t)
    ensures forall i :: 0 <= i < t ==>
              SigsOf(hash, q, n, tm, t, m, r)[i] == Signed(hash, ParamsOf(q, n, tm, r), uavs[i], t, m)
  {
  }

  /** What the aggregator sends for the draws is what the pipeline's outcome speaks about. */
  lemma {:induction false} SentForDraws(hash: HashFunction, q: nat, n: nat, tm: nat, t: nat, m: nat, r: Draws)
    requires Setting(hash, q, n, tm, t, r)
    ensures IsPrime(q) && 2 < q < SCALAR_LIMIT
    ensures Hashable(hash, PowMod(PowMod(r.g, r.skv, q), r.alpha, q), q)
    ensures var pp := ParamsOf(q, n, tm, r);
            var sigma := Aggregated(hash, SigsOf(hash, q, n, tm, t, m, r), pp, r.alpha, PowMod(r.g, r.skv, q), r.e);
            && Verifiable(sigma, pp, t)
            && (Accepted(hash, sigma, r.skv, pp, m, t) <==> Passes(hash, q, n, tm, t, m, r))
  {
    GroupOrderIsPrime(q);
    SharedValue(r.g, r.alpha, r.skv, q);
  }

  /** The whole pipeline at threshold `tm / 2 + 1`, for every outcome of the random draws. */
  method Fussion(hash: HashFunction, q: nat, n: nat, tm: nat, m: nat, r: Draws) returns (pass: int)
    requires tm >= 2 && Setting(hash, q, n, tm, tm / 2 + 1, r)
    ensures pass == if Passes(hash, q, n, tm, tm / 2 + 1, m, r) then 1 else 0
    ensures var ids := r.ids[..tm / 2 + 1]; !Divides(q, r.g) && Distinct(ids, q) && NonZero(ids, q) ==> pass == 1
    ensures var ids := r.ids[..tm / 2 + 1];
            Divides(q, r.g) || !NonZero(ids, q) || AllRepeated(ids, q) ==>
              (pass == 1 <==> Divides(q, HashToPoint(hash, m, q) * Prod(r.b[..tm / 2])))
    ensures ExactVerdict(pass == 1, r.g, HashToPoint(hash, m, q), r.ids[..tm / 2 + 1], r.d[..tm / 2], r.b[..tm / 2], q)
    ensures tm <= 3 ==>
              (pass == 1 <==>
               || (!Divides(q, r.g) && Distinct(r.ids[..2], q) && NonZero(r.ids[..2], q))
               || Divides(q, HashToPoint(hash, m, q) * Prod(r.b[..1])))
  {
    hide GroupOrder, Hashable, Passes, Accepted, Recovers, Distinct, NonZero, AllRepeated, Divides, Prod;
    hide PublicKeys, HashToPoint, Signed, Issued, CanSign, SigsOf, Aggregated, Verifiable;
    var t := tm / 2 + 1;
    SentForDraws(hash, q, n, tm, t, m, r);
    var pp := Setup(q, n, tm, r.g, r.alpha);
    var uavs, head;
    pp, uavs, head := KeyGen(pp, r.alpha, r.b, r.d, r.ids, r.us, r.headId);
    CollectedSigs(hash, q, n, tm, t, m, r, uavs);
    var sigmas := CollectSig(hash, pp, uavs, t, m);
    assert sigmas == SigsOf(hash, q, n, tm, t, m, r);
    var pkv := PowMod(pp.g, r.skv, pp.q);
    var sig := AggSig(hash, sigmas, pp, head, pkv, r.e);
    pass := Verify(hash, sig, r.skv, pp, m, t);
    PipelineOutcome(hash, q, n, tm, t, m, r);
  }
}
