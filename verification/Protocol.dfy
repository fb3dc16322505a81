/** The four parties as a state machine: an authority, any number of signers, an aggregator and any
    number of verifiers, whose calls to each other may fail. */
module Protocol {
  import opened Options
  import opened Arithmetic
  import opened Lagrange
  import opened InterpolationCoefficients
  import opened CoprimeHash
  import opened Scheme
  import opened Correctness

  /* ---------------------------------------------------------------- states */

  datatype TaState = TaState(pp: Params, sk: nat, d: seq<nat>, b: seq<nat>, m: nat, t: nat)

  datatype UavState = UavState(pp: Params, uav: Uav)

  datatype AggState = AggState(pp: Params, head: Head, m: nat, t: nat, sigmas: seq<ParSig>)

  /** A signature a verifier has received, and the secret key it was transformed for. */
  datatype Delivery = Delivery(sigma: Sigma, skv: nat)

  datatype VerifierState = VerifierState(pp: Params, t: nat, m: nat, delivery: Option<Delivery>)

  /** The values of the globals before registration. */
  const BLANK := Params(0, 0, 0, 0, 0, 0, [])
  const BLANK_UAV := UavState(BLANK, Uav([], [], 0))
  const BLANK_AGG := AggState(BLANK, Head(0, 0), 0, 0, [])
  const BLANK_VERIFIER := VerifierState(BLANK, 0, 0, None)

  /** The identity that marks the cluster head. */
  const HEAD_ID: nat := 0x6666666666666666666666666666666666666666666666666666666666666666

  datatype Response = Response(pp: Params, cj: seq<nat>, sj: seq<nat>, m: nat, t: nat)

  /* ---------------------------------------------------------------- what each step does to a party */

  /** The authority's answer to identity `id`: a signer's key, or the transformation key of the head. */
  function Registered(ta: TaState, id: nat, us: seq<nat>): (r: Response)
    requires ta.pp.q > 0 && |ta.d| == |ta.b| == |us|
    ensures r.pp == ta.pp && r.m == ta.m && r.t == ta.t
  {
    if id != HEAD_ID then
      var uav := Issued(ta.pp, ta.d, ta.b, id, us);
      Response(ta.pp, uav.c1, uav.c2, ta.m, ta.t)
    else
      Response(ta.pp, [], [ta.sk], ta.m, ta.t)
  }

  function UavAfterRegister(id: nat, r: Response): UavState
  {
    UavState(r.pp, Uav(r.cj, r.sj, id))
  }

  function AggAfterRegister(agg: AggState, r: Response): AggState
    requires |r.sj| > 0
  {
    agg.(pp := r.pp, head := Head(HEAD_ID, r.sj[0]), m := r.m, t := r.t)
  }

  function VerifierAfterRegister(v: VerifierState, r: Response): VerifierState
  {
    v.(pp := r.pp, t := r.t, m := r.m)
  }

  /* ---------------------------------------------------------------- the system */

  datatype System = System(ta: TaState, uavs: map<nat, UavState>, agg: AggState, verifiers: map<nat, VerifierState>)

  /** One call between parties. `ok` says whether the call succeeded. */
  datatype Step =
    | RegisterUav(u: nat, id: nat, us: seq<nat>, ok: bool)
    | RegisterHead(us: seq<nat>, ok: bool)
    | Collect(u: nat, ok: bool)
    | GetParams(v: nat, id: nat, us: seq<nat>, ok: bool)
    | Tran(v: nat, skv: nat, e: nat, ok: bool)

  function UavOf(s: System, u: nat): UavState
  {
    if u in s.uavs then s.uavs[u] else BLANK_UAV
  }

  function VerifierOf(s: System, v: nat): VerifierState
  {
    if v in s.verifiers then s.verifiers[v] else BLANK_VERIFIER
  }

  /** Steps that stay inside the vectors and moduli they use, and whose repair loops end. */
  ghost predicate Enabled(hash: HashFunction, s: System, step: Step)
  {
    match step
    case RegisterUav(_, _, us, _) => s.ta.pp.q > 0 && |s.ta.d| == |s.ta.b| == |us|
    case RegisterHead(us, _) => s.ta.pp.q > 0 && |s.ta.d| == |s.ta.b| == |us|
    case Collect(u, ok) => s.agg.t > 0 && (ok ==> UavOf(s, u).pp.q > 0 && CanSign(UavOf(s, u).uav, s.agg.t))
    case GetParams(_, _, us, _) => s.ta.pp.q > 0 && |s.ta.d| == |s.ta.b| == |us|
    case Tran(v, skv, e, ok) =>
      && VerifierOf(s, v).pp.q > 0
      && (ok ==>
            var pkv := PowMod(VerifierOf(s, v).pp.g, skv, VerifierOf(s, v).pp.q);
            && s.agg.pp.q > 2 && Drawn(e, s.agg.pp.q)
            && Hashable(hash, PowMod(pkv, s.agg.head.alpha, s.agg.pp.q), s.agg.pp.q))
  }

  ghost function Next(hash: HashFunction, s: System, step: Step): System
    requires Enabled(hash, s, step)
  {
    if !step.ok then s else
    match step
    case RegisterUav(u, id, us, _) =>
      s.(uavs := s.uavs[u := UavAfterRegister(id, Registered(s.ta, id, us))])
    case RegisterHead(us, _) =>
      s.(agg := AggAfterRegister(s.agg, Registered(s.ta, HEAD_ID, us)))
    case Collect(u, _) =>
      var node := UavOf(s, u);
      s.(agg := s.agg.(sigmas := s.agg.sigmas + [Signed(hash, node.pp, node.uav, s.agg.t, s.agg.m)]))
    case GetParams(v, id, us, _) =>
      s.(verifiers := s.verifiers[v := VerifierAfterRegister(VerifierOf(s, v), Registered(s.ta, id, us))])
    case Tran(v, skv, e, _) =>
      var ver := VerifierOf(s, v);
      var sigma := Aggregated(hash, s.agg.sigmas, s.agg.pp, s.agg.head.alpha, PowMod(ver.pp.g, skv, ver.pp.q), e);
      s.(verifiers := s.verifiers[v := ver.(delivery := Some(Delivery(sigma, skv)))])
  }

  /** The authority is set up and nobody has registered. */
  ghost predicate Init(s: System)
  {
    && Established(s.ta.pp, s.ta.sk, s.ta.d, s.ta.b)
    && 2 <= s.ta.t <= |s.ta.b| + 1 && Drawn(s.ta.sk, s.ta.pp.q)
    && s.uavs == map[] && s.verifiers == map[] && s.agg == BLANK_AGG
  }

  ghost predicate IsRun(hash: HashFunction, s: System, steps: seq<Step>)
    decreases |steps|
  {
    steps != [] ==> Enabled(hash, s, steps[0]) && IsRun(hash, Next(hash, s, steps[0]), steps[1..])
  }

  ghost function After(hash: HashFunction, s: System, steps: seq<Step>): System
    requires IsRun(hash, s, steps)
    decreases |steps|
  {
    if steps == [] then s else After(hash, Next(hash, s, steps[0]), steps[1..])
  }

  lemma {:induction false} RunCons(hash: HashFunction, s: System, step: Step, rest: seq<Step>)
    requires Enabled(hash, s, step) && IsRun(hash, Next(hash, s, step), rest)
    ensures IsRun(hash, s, [step] + rest)
    ensures After(hash, s, [step] + rest) == After(hash, Next(hash, s, step), rest)
  {
    assert ([step] + rest)[1..] == rest;
  }

  /* ---------------------------------------------------------------- the invariant */

  ghost predicate UavInv(ta: TaState, node: UavState)
    requires Established(ta.pp, ta.sk, ta.d, ta.b)
  {
    || node == BLANK_UAV
    || (node.pp == ta.pp && node.uav.c1 == [])
    || (node.pp == ta.pp && exists us :: KeyOf(ta, node, us))
  }

  ghost predicate KeyOf(ta: TaState, node: UavState, us: seq<nat>)
    requires Established(ta.pp, ta.sk, ta.d, ta.b)
  {
    |us| == |ta.b| && node.uav == Issued(ta.pp, ta.d, ta.b, node.uav.id, us)
  }

  ghost predicate AllHonest(hash: HashFunction, ta: TaState, sigs: seq<ParSig>)
    requires Established(ta.pp, ta.sk, ta.d, ta.b) && 2 <= ta.t <= |ta.b| + 1
  {
    forall i :: 0 <= i < |sigs| ==> Honest(hash, ta.pp, ta.d, ta.b, ta.t, ta.m, sigs[i])
  }

  ghost predicate AggInv(hash: HashFunction, ta: TaState, agg: AggState)
    requires Established(ta.pp, ta.sk, ta.d, ta.b) && 2 <= ta.t <= |ta.b| + 1
  {
    || agg == BLANK_AGG
    || (agg.pp == ta.pp && agg.head == Head(HEAD_ID, ta.sk) && agg.m == ta.m && agg.t == ta.t
          && AllHonest(hash, ta, agg.sigmas))
  }

  ghost predicate DeliveryOf(hash: HashFunction, ta: TaState, del: Delivery, sigs: seq<ParSig>, e: nat)
    requires Established(ta.pp, ta.sk, ta.d, ta.b) && 2 <= ta.t <= |ta.b| + 1
  {
    && Hashable(hash, PowMod(ta.pp.beta, del.skv, ta.pp.q), ta.pp.q)
    && AllHonest(hash, ta, sigs) && Drawn(e, ta.pp.q)
    && del.sigma == Transformed(hash, ta.pp, ta.sk, sigs, del.skv, e)
  }

  ghost predicate VerifierInv(hash: HashFunction, ta: TaState, v: VerifierState)
    requires Established(ta.pp, ta.sk, ta.d, ta.b) && 2 <= ta.t <= |ta.b| + 1
  {
    || v == BLANK_VERIFIER
    || (&& v.pp == ta.pp && v.t == ta.t && v.m == ta.m
        && (v.delivery.Some? ==> exists sigs, e :: DeliveryOf(hash, ta, v.delivery.value, sigs, e)))
  }

  ghost predicate Inv(hash: HashFunction, s: System)
  {
    && Established(s.ta.pp, s.ta.sk, s.ta.d, s.ta.b)
    && 2 <= s.ta.t <= |s.ta.b| + 1
    && (forall u :: u in s.uavs ==> UavInv(s.ta, s.uavs[u]))
    && AggInv(hash, s.ta, s.agg)
    && (forall v :: v in s.verifiers ==> VerifierInv(hash, s.ta, s.verifiers[v]))
  }

  lemma {:induction false} RegisterUavKeeps(hash: HashFunction, s: System, u: nat, id: nat, us: seq<nat>)
    requires Inv(hash, s) && Enabled(hash, s, RegisterUav(u, id, us, true))
    ensures Inv(hash, Next(hash, s, RegisterUav(u, id, us, true)))
  {
    var node := UavAfterRegister(id, Registered(s.ta, id, us));
    if id != HEAD_ID {
      assert KeyOf(s.ta, node, us);
    }
    assert UavInv(s.ta, node);
  }

  /** A signer that registers with its own identity gets its key under the exponents drawn for it, and what
      it then signs is encrypted with their total, for every threshold and message. */
  lemma {:induction false} RegisteredSigns(hash: HashFunction, s: System, u: nat, id: nat, us: seq<nat>, t: nat,
      m: nat)
    requires Inv(hash, s) && Enabled(hash, s, RegisterUav(u, id, us, true)) && id != HEAD_ID
    requires Degree(t) <= |s.ta.b|
    ensures var node := UavOf(Next(hash, s, RegisterUav(u, id, us, true)), u);
            && node.pp == s.ta.pp && node.uav.id == id && KeyOf(s.ta, node, us) && CanSign(node.uav, t)
            && HonestWith(hash, s.ta.pp, s.ta.d, s.ta.b, t, m, Signed(hash, node.pp, node.uav, t, m),
                          Total(us[..Degree(t)]))
  {
    GroupOrderIsPrime(s.ta.pp.q);
    SignedIsHonest(hash, s.ta.pp, s.ta.d, s.ta.b, id, us, t, m);
  }

  /** Signatures collected from any registered signer are honest. */
  lemma {:induction false} CollectedIsHonest(hash: HashFunction, s: System, u: nat)
    requires Inv(hash, s) && Enabled(hash, s, Collect(u, true))
    ensures Honest(hash, s.ta.pp, s.ta.d, s.ta.b, s.ta.t, s.ta.m,
                   Signed(hash, UavOf(s, u).pp, UavOf(s, u).uav, s.agg.t, s.agg.m))
  {
    var node := UavOf(s, u);
    assert u in s.uavs && UavInv(s.ta, node) && node.uav.c1 != [];
    var us :| KeyOf(s.ta, node, us);
    GroupOrderIsPrime(s.ta.pp.q);
    SignedIsHonest(hash, s.ta.pp, s.ta.d, s.ta.b, node.uav.id, us, s.ta.t, s.ta.m);
  }

  lemma {:induction false} CollectKeeps(hash: HashFunction, s: System, u: nat)
    requires Inv(hash, s) && Enabled(hash, s, Collect(u, true))
    ensures Inv(hash, Next(hash, s, Collect(u, true)))
  {
    CollectedIsHonest(hash, s, u);
    hide Honest, UavInv, VerifierInv, Established;
    var s' := Next(hash, s, Collect(u, true));
    assert AllHonest(hash, s.ta, s'.agg.sigmas);
  }

  lemma {:induction false} TranKeeps(hash: HashFunction, s: System, v: nat, skv: nat, e: nat)
    requires Inv(hash, s) && Enabled(hash, s, Tran(v, skv, e, true))
    ensures Inv(hash, Next(hash, s, Tran(v, skv, e, true)))
  {
    var ta, ver := s.ta, VerifierOf(s, v);
    SharedValue(ta.pp.g, ta.sk, skv, ta.pp.q);
    var s' := Next(hash, s, Tran(v, skv, e, true));
    assert DeliveryOf(hash, ta, s'.verifiers[v].delivery.value, s.agg.sigmas, e);
    assert VerifierInv(hash, ta, s'.verifiers[v]);
  }

  /** Every step keeps the invariant. */
  lemma {:induction false} StepKeeps(hash: HashFunction, s: System, step: Step)
    requires Inv(hash, s) && Enabled(hash, s, step)
    ensures Inv(hash, Next(hash, s, step))
  {
    if step.ok {
      match step
      case RegisterUav(u, id, us, _) => RegisterUavKeeps(hash, s, u, id, us);
      case RegisterHead(us, _) =>
      case Collect(u, _) => CollectKeeps(hash, s, u);
      case GetParams(v, id, us, _) =>
      case Tran(v, skv, e, _) => TranKeeps(hash, s, v, skv, e);
    }
  }

  lemma {:induction false} RunKeeps(hash: HashFunction, s: System, steps: seq<Step>)
    requires Inv(hash, s) && IsRun(hash, s, steps)
    ensures Inv(hash, After(hash, s, steps))
    decreases |steps|
  {
    if steps != [] {
      StepKeeps(hash, s, steps[0]);
      RunKeeps(hash, Next(hash, s, steps[0]), steps[1..]);
    }
  }

  /** The states that runs from `s0` lead to. */
  ghost predicate Reachable(hash: HashFunction, s0: System, s: System)
  {
    Init(s0) && exists steps :: IsRun(hash, s0, steps) && After(hash, s0, steps) == s
  }

  lemma {:induction false} RunReachable(hash: HashFunction, s0: System, s: System, steps: seq<Step>)
    requires Reachable(hash, s0, s) && IsRun(hash, s, steps)
    ensures Reachable(hash, s0, After(hash, s, steps))
  {
    hide Init, After, IsRun;
    var prior :| IsRun(hash, s0, prior) && After(hash, s0, prior) == s;
    RunConcat(hash, s0, prior, steps);
  }

  lemma {:induction false} StepReachable(hash: HashFunction, s0: System, s: System, step: Step)
    requires Reachable(hash, s0, s) && Enabled(hash, s, step)
    ensures Reachable(hash, s0, Next(hash, s, step))
  {
    RunCons(hash, s, step, []);
    hide Reachable;
    RunReachable(hash, s0, s, [step]);
  }

  lemma {:induction false} ReachableKeeps(hash: HashFunction, s0: System, s: System)
    requires Reachable(hash, s0, s)
    ensures Inv(hash, s) && s.ta == s0.ta && 2 < s.ta.pp.q < SCALAR_LIMIT && |s.ta.d| == |s.ta.b|
  {
    var steps :| IsRun(hash, s0, steps) && After(hash, s0, steps) == s;
    RunKeeps(hash, s0, steps);
    AuthorityFixed(hash, s0, steps);
    GroupOrderIsPrime(s0.ta.pp.q);
  }

  /* ---------------------------------------------------------------- safety over whole runs */

  lemma {:induction false} DeliveredQuorum(hash: HashFunction, ta: TaState, del: Delivery, sigs: seq<ParSig>, e: nat)
    requires Established(ta.pp, ta.sk, ta.d, ta.b) && 2 <= ta.t <= |ta.b| + 1
    requires DeliveryOf(hash, ta, del, sigs, e) && ta.t <= |del.sigma.ids| && ta.sk > 0
    ensures ta.pp.q > 2 && Verifiable(del.sigma, ta.pp, ta.t)
    ensures ExactVerdict(Accepted(hash, del.sigma, del.skv, ta.pp, ta.m, ta.t), ta.pp.g,
                         HashToPoint(hash, ta.m, ta.pp.q), del.sigma.ids[..ta.t], ta.d[..ta.t - 1], ta.b[..ta.t - 1],
                         ta.pp.q)
  {
    assert IdsOf(sigs)[..ta.t] == del.sigma.ids[..ta.t];
    AcceptedExactly(hash, ta.pp, ta.sk, ta.d, ta.b, ta.t, ta.m, sigs, del.skv, e);
  }

  /** What a verifier will find, given the authority it registered with. */
  ghost predicate VerdictIsExact(hash: HashFunction, ta: TaState, ver: VerifierState)
    requires ver.delivery.Some? && ver.t <= |ver.delivery.value.sigma.ids| && |ta.d| == |ta.b|
  {
    var del := ver.delivery.value;
    && ver.pp == ta.pp && ver.pp.q > 2 && ver.t == ta.t && ver.m == ta.m
    && Verifiable(del.sigma, ver.pp, ver.t)
    && ver.t <= |ta.b| + 1
    && Hashable(hash, PowMod(ver.pp.beta, del.skv, ver.pp.q), ver.pp.q)
    && ExactVerdict(Accepted(hash, del.sigma, del.skv, ver.pp, ver.m, ver.t), ver.pp.g,
                    HashToPoint(hash, ver.m, ver.pp.q), del.sigma.ids[..ver.t], ta.d[..ver.t - 1],
                    ta.b[..ver.t - 1], ver.pp.q)
  }

  lemma {:induction false} InvariantVerdict(hash: HashFunction, ta: TaState, ver: VerifierState)
    requires Established(ta.pp, ta.sk, ta.d, ta.b) && 2 <= ta.t <= |ta.b| + 1
    requires ta.sk > 0
    requires VerifierInv(hash, ta, ver) && ver.delivery.Some? && ver.t <= |ver.delivery.value.sigma.ids|
    ensures VerdictIsExact(hash, ta, ver)
  {
    hide Accepted, ExactVerdict, Transformed;
    var sigs, e :| DeliveryOf(hash, ta, ver.delivery.value, sigs, e);
    DeliveredQuorum(hash, ta, ver.delivery.value, sigs, e);
  }

  /** In every run, whatever calls failed and in whatever order the parties acted, a delivered
      signature that holds enough entries gets the exact verdict on its first identities, for every
      generator the authority can draw. */
  lemma {:induction false} RunsAcceptExactly(hash: HashFunction, s0: System, steps: seq<Step>, v: nat)
    requires Init(s0) && IsRun(hash, s0, steps)
    ensures var ver := VerifierOf(After(hash, s0, steps), v);
            ver.delivery.Some? && ver.t <= |ver.delivery.value.sigma.ids| ==> VerdictIsExact(hash, s0.ta, ver)
  {
    RunKeeps(hash, s0, steps);
    AuthorityFixed(hash, s0, steps);
    hide After, IsRun, Established, VerifierInv, UavInv, AggInv, VerdictIsExact;
    var s := After(hash, s0, steps);
    var ver := VerifierOf(s, v);
    if ver.delivery.Some? && ver.t <= |ver.delivery.value.sigma.ids| {
      InvariantVerdict(hash, s.ta, ver);
    }
  }

  lemma {:induction false} AuthorityFixed(hash: HashFunction, s: System, steps: seq<Step>)
    requires IsRun(hash, s, steps)
    ensures After(hash, s, steps).ta == s.ta
    decreases |steps|
  {
    if steps != [] {
      AuthorityFixed(hash, Next(hash, s, steps[0]), steps[1..]);
    }
  }

  /** Safety: in every run, every delivered signature whose first `t` identities are different and
      non-zero is accepted. */
  lemma {:induction false} RunsAccept(hash: HashFunction, s0: System, steps: seq<Step>, v: nat)
    requires Init(s0) && IsRun(hash, s0, steps)
    requires !Divides(s0.ta.pp.q, s0.ta.pp.g)
    ensures var ver := VerifierOf(After(hash, s0, steps), v);
            ver.delivery.Some? && ver.t <= |ver.delivery.value.sigma.ids| ==>
              var del := ver.delivery.value;
              && ver.pp.q > 2 && Verifiable(del.sigma, ver.pp, ver.t)
              && Hashable(hash, PowMod(ver.pp.beta, del.skv, ver.pp.q), ver.pp.q)
              && (Distinct(del.sigma.ids[..ver.t], ver.pp.q) && NonZero(del.sigma.ids[..ver.t], ver.pp.q) ==>
                    Accepted(hash, del.sigma, del.skv, ver.pp, ver.m, ver.t))
  {
    RunsAcceptExactly(hash, s0, steps, v);
  }

  lemma {:induction false} ReachableVerdict(hash: HashFunction, s0: System, s: System, v: nat)
    requires Reachable(hash, s0, s)
    requires VerifierOf(s, v).delivery.Some? && VerifierOf(s, v).t <= |VerifierOf(s, v).delivery.value.sigma.ids|
    ensures s.ta == s0.ta && |s.ta.d| == |s.ta.b| && VerdictIsExact(hash, s.ta, VerifierOf(s, v))
  {
    hide Init, After, IsRun, VerdictIsExact;
    ReachableKeeps(hash, s0, s);
    var steps :| IsRun(hash, s0, steps) && After(hash, s0, steps) == s;
    RunsAcceptExactly(hash, s0, steps, v);
  }

  /** A registered verifier asks for a transformation: what it needs for that and what it is sent. */
  lemma {:induction false} TranDelivers(hash: HashFunction, s: System, v: nat, skv: nat, e: nat, ok: bool)
    requires Inv(hash, s) && VerifierOf(s, v).pp.q > 0
    requires ok ==> s.agg.pp.q > 0 && Drawn(e, s.ta.pp.q)
    requires ok ==> Hashable(hash, PowMod(s.ta.pp.beta, skv, s.ta.pp.q), s.ta.pp.q)
    ensures Enabled(hash, s, Tran(v, skv, e, ok))
    ensures VerifierOf(s, v).pp == s.ta.pp && VerifierOf(s, v).t == s.ta.t && VerifierOf(s, v).m == s.ta.m
    ensures ok ==>
              && s.agg.pp == s.ta.pp && s.ta.pp.q > 2
              && var pkv := PowMod(s.ta.pp.g, skv, s.ta.pp.q);
              && Hashable(hash, PowMod(pkv, s.agg.head.alpha, s.ta.pp.q), s.ta.pp.q)
              && var sigma := Aggregated(hash, s.agg.sigmas, s.agg.pp, s.agg.head.alpha, pkv, e);
              && VerifierOf(Next(hash, s, Tran(v, skv, e, ok)), v) ==
                 VerifierOf(s, v).(delivery := Some(Delivery(sigma, skv)))
    ensures ok ==>
              var sigma := VerifierOf(Next(hash, s, Tran(v, skv, e, ok)), v).delivery.value.sigma;
              Verifiable(sigma, s.ta.pp, s.ta.t) <==> s.ta.t <= |s.agg.sigmas|
  {
    hide Hashable, Aggregated, AllHonest, UavInv;
    GroupOrderIsPrime(s.ta.pp.q);
    SharedValue(s.ta.pp.g, s.ta.sk, skv, s.ta.pp.q);
    assert v in s.verifiers && VerifierInv(hash, s.ta, s.verifiers[v]);
  }

  /* ---------------------------------------------------------------- every quorum can be served */

  lemma {:induction false} RunConcat(hash: HashFunction, s: System, u: seq<Step>, v: seq<Step>)
    requires IsRun(hash, s, u) && IsRun(hash, After(hash, s, u), v)
    ensures IsRun(hash, s, u + v) && After(hash, s, u + v) == After(hash, After(hash, s, u), v)
    decreases |u|
  {
    if u == [] {
      assert u + v == v;
    } else {
      RunConcat(hash, Next(hash, s, u[0]), u[1..], v);
      assert (u + v)[1..] == u[1..] + v;
    }
  }

  /** A signer at its own port registers and is asked for its signature. */
  function SignerSteps(ids: seq<nat>, us: seq<seq<nat>>): (r: seq<Step>)
    requires |ids| == |us|
  {
    if ids == [] then []
    else [RegisterUav(|ids|, ids[0], us[0], true), Collect(|ids|, true)] + SignerSteps(ids[1..], us[1..])
  }

  ghost predicate Ready(s: System)
  {
    && s.ta.pp.q > 0 && |s.ta.d| == |s.ta.b| && s.agg.t == s.ta.t && 2 <= s.ta.t <= |s.ta.b| + 1
  }

  ghost predicate Signers(s: System, ids: seq<nat>, us: seq<seq<nat>>)
  {
    |ids| == |us| && forall i :: 0 <= i < |ids| ==> ids[i] != HEAD_ID && |us[i]| == |s.ta.b|
  }

  lemma {:induction false} OneSigner(hash: HashFunction, s: System, u: nat, id: nat,
      us: seq<nat>) returns (s': System)
    requires Ready(s) && id != HEAD_ID && |us| == |s.ta.b|
    ensures var steps := [RegisterUav(u, id, us, true), Collect(u, true)];
            IsRun(hash, s, steps) && s' == After(hash, s, steps)
    ensures s'.ta == s.ta && s'.verifiers == s.verifiers && s'.agg == s.agg.(sigmas := s'.agg.sigmas)
    ensures IdsOf(s'.agg.sigmas) == IdsOf(s.agg.sigmas) + [id]
  {
    var register, collect := RegisterUav(u, id, us, true), Collect(u, true);
    var s1 := Next(hash, s, register);
    assert Enabled(hash, s1, collect);
    RunCons(hash, s1, collect, []);
    RunCons(hash, s, register, [collect]);
    assert [register] + [collect] == [register, collect] && [collect] + [] == [collect];
    s' := Next(hash, s1, collect);
  }

  lemma {:induction false} SignersRun(hash: HashFunction, s: System, ids: seq<nat>, us: seq<seq<nat>>)
    requires Ready(s) && Signers(s, ids, us)
    ensures IsRun(hash, s, SignerSteps(ids, us))
    ensures var s' := After(hash, s, SignerSteps(ids, us));
            && s'.ta == s.ta && s'.verifiers == s.verifiers && s'.agg == s.agg.(sigmas := s'.agg.sigmas)
            && IdsOf(s'.agg.sigmas) == IdsOf(s.agg.sigmas) + ids
    decreases |ids|
  {
    if ids == [] {
      assert IdsOf(s.agg.sigmas) + ids == IdsOf(s.agg.sigmas);
    } else {
      var s' := OneSigner(hash, s, |ids|, ids[0], us[0]);
      hide Next, Enabled, After, IsRun;
      SignersRun(hash, s', ids[1..], us[1..]);
      var first := [RegisterUav(|ids|, ids[0], us[0], true), Collect(|ids|, true)];
      RunConcat(hash, s, first, SignerSteps(ids[1..], us[1..]));
      assert IdsOf(s.agg.sigmas) + [ids[0]] + ids[1..] == IdsOf(s.agg.sigmas) + ids;
    }
  }

  lemma {:induction false} DeliveryRun(hash: HashFunction, s: System, v: nat, skv: nat, e: nat)
    requires GroupOrder(s.ta.pp.q) && s.ta.pp.beta == PowMod(s.ta.pp.g, s.ta.sk, s.ta.pp.q) && |s.ta.d| == |s.ta.b|
    requires s.agg.pp == s.ta.pp && s.agg.head.alpha == s.ta.sk && Drawn(e, s.ta.pp.q)
    requires Hashable(hash, PowMod(s.ta.pp.beta, skv, s.ta.pp.q), s.ta.pp.q)
    ensures var steps := [GetParams(v, HEAD_ID, s.ta.b, true), Tran(v, skv, e, true)];
            && IsRun(hash, s, steps)
            && VerifierOf(After(hash, s, steps), v).t == s.ta.t
            && VerifierOf(After(hash, s, steps), v).delivery.Some?
            && VerifierOf(After(hash, s, steps), v).delivery.value.sigma.ids == IdsOf(s.agg.sigmas)
  {
    GroupOrderIsPrime(s.ta.pp.q);
    SharedValue(s.ta.pp.g, s.ta.sk, skv, s.ta.pp.q);
    var params, tran := GetParams(v, HEAD_ID, s.ta.b, true), Tran(v, skv, e, true);
    var s1 := Next(hash, s, params);
    assert Enabled(hash, s1, tran);
    RunCons(hash, s1, tran, []);
    RunCons(hash, s, params, [tran]);
    assert [params] + [tran] == [params, tran] && [tran] + [] == [tran];
  }

  /** Every quorum can be served: from the start there is a run in which the given signers register
      and sign and verifier `v` receives their signature, so safety is not vacuous. */
  lemma {:induction false} QuorumServed(hash: HashFunction, s0: System, ids: seq<nat>, us: seq<seq<nat>>,
      v: nat, skv: nat, e: nat)
      returns (steps: seq<Step>)
    requires Init(s0) && Signers(s0, ids, us) && Drawn(e, s0.ta.pp.q)
    requires Hashable(hash, PowMod(s0.ta.pp.beta, skv, s0.ta.pp.q), s0.ta.pp.q)
    ensures IsRun(hash, s0, steps)
    ensures var ver := VerifierOf(After(hash, s0, steps), v);
            ver.t == s0.ta.t && ver.delivery.Some? && ver.delivery.value.sigma.ids == ids
  {
    var head := RegisterHead(s0.ta.b, true);
    GroupOrderIsPrime(s0.ta.pp.q);
    var s1 := Next(hash, s0, head);
    assert IdsOf(s1.agg.sigmas) + ids == ids;
    RunCons(hash, s0, head, []);
    assert [head] + [] == [head];
    SignersRun(hash, s1, ids, us);
    var signers := SignerSteps(ids, us);
    var s2 := After(hash, s1, signers);
    RunConcat(hash, s0, [head], signers);
    DeliveryRun(hash, s2, v, skv, e);
    var last := [GetParams(v, HEAD_ID, s2.ta.b, true), Tran(v, skv, e, true)];
    RunConcat(hash, s0, [head] + signers, last);
    steps := [head] + signers + last;
  }
}
