/** The four programs: their globals as fields, their handlers as methods. */
module Nodes {
  import opened Options
  import opened Arithmetic
  import opened Lagrange
  import opened InterpolationCoefficients
  import opened CoprimeHash
  import opened Scheme
  import opened Correctness
  import opened Protocol

  class TrustedAuthority {
    var pp: Params
    var sk: nat
    var d: seq<nat>
    var b: seq<nat>
    var m: nat
    var t: nat

    function State(): TaState
      reads this
    {
      TaState(pp, sk, d, b, m, t)
    }

    constructor ()
      ensures State() == TaState(BLANK, 0, [], [], 0, 0)
    {
      pp, sk, d, b, m, t := BLANK, 0, [], [], 0, 0;
    }

    /** Fills the key vectors behind whatever they already hold. */
    method InitParams(q: nat, g: nat, alpha: nat, bDraws: seq<nat>, dDraws: seq<nat>)
      requires 1 < q < SCALAR_LIMIT
      requires |bDraws| == |dDraws| == 19 && AllDrawn(bDraws, q) && AllDrawn(b, q)
      modifies this
      ensures b == old(b) + bDraws && d == old(d) + dDraws
      ensures pp == Params(52, 20, q, GENERATOR, g, PowMod(g, alpha, q), PublicKeys(b, q))
      ensures sk == alpha && t == 11 && m == 123456789
      ensures GroupOrder(q) && Drawn(alpha, q) && old(b) == [] && old(d) == [] ==>
                Init(System(State(), map[], BLANK_AGG, map[]))
    {
      var n, tm := 52, 20;
      pp := Setup(q, n, tm, g, alpha);
      sk := alpha;
      for i := 0 to tm - 1
        invariant b == old(b) + bDraws[..i] && d == old(d) + dDraws[..i]
        invariant pp == Params(n, tm, q, GENERATOR, g, PowMod(g, alpha, q), []) && sk == alpha
      {
        b := b + [bDraws[i]];
        d := d + [dDraws[i]];
      }
      var pk := GetPK(b, pp.q);
      pp := pp.(pk := pk);
      t := tm / 2 + 1;
      m := 123456789;
    }

    method Register(id: nat, us: seq<nat>) returns (r: Response)
      requires pp.q > 0 && |d| == |b| == |us|
      ensures r == Registered(State(), id, us)
      ensures id != HEAD_ID ==> |r.cj| == |r.sj| == |b|
      ensures id != HEAD_ID ==> forall i :: 0 <= i < |b| ==>
                && r.cj[i] == PowMod(pp.g, us[i], pp.q)
                && r.sj[i] == (Pow(pp.beta, us[i]) * (d[i] * id + b[i])) % pp.q
      ensures id == HEAD_ID ==> r.cj == [] && r.sj == [sk]
    {
      if id != HEAD_ID {
        var uav := GetUAV(pp, d, b, id, us);
        r := Response(pp, uav.c1, uav.c2, m, t);
      } else {
        r := Response(pp, [], [sk], m, t);
      }
    }
  }

  class UavServer {
    var pp: Params
    var uav: Uav

    function State(): UavState
      reads this
    {
      UavState(pp, uav)
    }

    constructor ()
      ensures State() == BLANK_UAV
    {
      pp, uav := BLANK, Uav([], [], 0);
    }

    /** `reply` is empty when the call failed. */
    method RegisterUav(id: nat, reply: Option<Response>)
      modifies this
      ensures State() == if reply.Some? then UavAfterRegister(id, reply.value) else old(State())
    {
      if reply.Some? {
        pp := reply.value.pp;
        uav := Uav(reply.value.cj, reply.value.sj, id);
      }
    }

    method HandleSign(hash: HashFunction, t: nat, m: nat) returns (r: ParSig)
      requires 1 < pp.q < SCALAR_LIMIT && CanSign(uav, t)
      ensures r == Signed(hash, pp, uav, t, m)
    {
      r := Sign(hash, pp, uav, t, m);
    }
  }

  /** How one round of the collection loop goes. */
  datatype Outcome = NoChannel | Quit | Failed | Answered

  /** The signers that answer hold keys long enough for the threshold. */
  predicate AnswerersReady(nodes: seq<UavState>, t: nat, outcomes: seq<Outcome>)
    requires |nodes| == |outcomes|
  {
    forall i :: 0 <= i < |nodes| && outcomes[i].Answered? ==>
      1 < nodes[i].pp.q < SCALAR_LIMIT && CanSign(nodes[i].uav, t)
  }

  /** What one round that opens its channel contributes. */
  function Answer(hash: HashFunction, node: UavState, t: nat, m: nat, outcome: Outcome): (r: seq<ParSig>)
    requires outcome.Answered? ==> node.pp.q > 0 && CanSign(node.uav, t)
  {
    if outcome.Answered? then [Signed(hash, node.pp, node.uav, t, m)] else []
  }

  /** The signatures received from round `i` on, before the first channel that cannot be opened. */
  function Answers(hash: HashFunction, nodes: seq<UavState>, t: nat, m: nat, outcomes: seq<Outcome>,
      i: nat := 0): (r: seq<ParSig>)
    requires i <= |nodes| == |outcomes| && AnswerersReady(nodes, t, outcomes)
    ensures |r| <= |outcomes| - i
    decreases |outcomes| - i
  {
    if i == |outcomes| || outcomes[i].NoChannel? then []
    else Answer(hash, nodes[i], t, m, outcomes[i]) + Answers(hash, nodes, t, m, outcomes, i + 1)
  }

  lemma AnswersRound(hash: HashFunction, nodes: seq<UavState>, t: nat, m: nat, outcomes: seq<Outcome>, i: nat)
    requires i < |nodes| == |outcomes| && AnswerersReady(nodes, t, outcomes)
    ensures outcomes[i].Answered? ==> 1 < nodes[i].pp.q < SCALAR_LIMIT && CanSign(nodes[i].uav, t)
    ensures Answers(hash, nodes, t, m, outcomes, i) ==
            if outcomes[i].NoChannel? then []
            else Answer(hash, nodes[i], t, m, outcomes[i]) + Answers(hash, nodes, t, m, outcomes, i + 1)
  {
  }

  /** No signature is missing exactly when every round is answered. */
  lemma {:induction false} AnswersComplete(hash: HashFunction, nodes: seq<UavState>, t: nat, m: nat,
      outcomes: seq<Outcome>, i: nat := 0)
    requires i <= |nodes| == |outcomes| && AnswerersReady(nodes, t, outcomes)
    ensures |Answers(hash, nodes, t, m, outcomes, i)| == |outcomes| - i <==>
            forall j :: i <= j < |outcomes| ==> outcomes[j].Answered?
    decreases |outcomes| - i
  {
    hide AnswerersReady, Signed;
    if i < |outcomes| {
      AnswersComplete(hash, nodes, t, m, outcomes, i + 1);
    }
  }

  /** The rounds of one collection as steps of the system: round `i` asks signer `i`. */
  function CollectSteps(outcomes: seq<Outcome>, i: nat := 0): (r: seq<Step>)
    requires i <= |outcomes|
    decreases |outcomes| - i
  {
    if i == |outcomes| || outcomes[i].NoChannel? then []
    else [Collect(i, outcomes[i].Answered?)] + CollectSteps(outcomes, i + 1)
  }

  /** `nodes` are the states of the first signers. */
  ghost predicate SignerStates(s: System, nodes: seq<UavState>)
  {
    forall i :: 0 <= i < |nodes| ==> UavOf(s, i) == nodes[i]
  }

  /** The collection loop, with all its failures, is a run of the system. */
  lemma {:induction false} CollectionIsRun(hash: HashFunction, s: System, nodes: seq<UavState>,
      outcomes: seq<Outcome>, i: nat := 0)
    requires i <= |nodes| == |outcomes| && (s.agg.t > 0 || outcomes == []) && SignerStates(s, nodes)
    requires AnswerersReady(nodes, s.agg.t, outcomes)
    ensures IsRun(hash, s, CollectSteps(outcomes, i))
    ensures After(hash, s, CollectSteps(outcomes, i)) ==
            s.(agg := s.agg.(sigmas := s.agg.sigmas + Answers(hash, nodes, s.agg.t, s.agg.m, outcomes, i)))
    decreases |outcomes| - i
  {
    if i == |outcomes| || outcomes[i].NoChannel? {
      assert s.agg.sigmas + Answers(hash, nodes, s.agg.t, s.agg.m, outcomes, i) == s.agg.sigmas;
    } else {
      var s' := CollectRound(hash, s, nodes, outcomes, i);
      hide AnswerersReady, SignerStates, Enabled, Next, Answer;
      CollectionIsRun(hash, s', nodes, outcomes, i + 1);
      RunCons(hash, s, Collect(i, outcomes[i].Answered?), CollectSteps(outcomes, i + 1));
      assert s'.agg.sigmas + Answers(hash, nodes, s.agg.t, s.agg.m, outcomes, i + 1) ==
             s.agg.sigmas + Answers(hash, nodes, s.agg.t, s.agg.m, outcomes, i);
    }
  }

  lemma {:induction false} CollectRound(hash: HashFunction, s: System, nodes: seq<UavState>,
      outcomes: seq<Outcome>, i: nat) returns (s': System)
    requires i < |nodes| == |outcomes| && s.agg.t > 0 && SignerStates(s, nodes)
    requires AnswerersReady(nodes, s.agg.t, outcomes)
    ensures Enabled(hash, s, Collect(i, outcomes[i].Answered?))
    ensures s' == Next(hash, s, Collect(i, outcomes[i].Answered?)) && SignerStates(s', nodes)
    ensures s'.agg.sigmas == s.agg.sigmas + Answer(hash, nodes[i], s.agg.t, s.agg.m, outcomes[i])
    ensures s' == s.(agg := s.agg.(sigmas := s'.agg.sigmas))
  {
    hide Signed, CanSign;
    s' := Next(hash, s, Collect(i, outcomes[i].Answered?));
  }

  class Aggregator {
    var pp: Params
    var head: Head
    var m: nat
    var t: nat
    var sigmas: seq<ParSig>

    function State(): AggState
      reads this
    {
      AggState(pp, head, m, t, sigmas)
    }

    constructor ()
      ensures State() == BLANK_AGG
    {
      pp, head, m, t, sigmas := BLANK, Head(0, 0), 0, 0, [];
    }

    method GetPpAndSk(reply: Option<Response>)
      requires reply.Some? ==> |reply.value.sj| > 0
      modifies this
      ensures State() == if reply.Some? then AggAfterRegister(old(State()), reply.value) else old(State())
      ensures sigmas == old(sigmas) && (reply.Some? ==> head == Head(HEAD_ID, reply.value.sj[0]) && t == reply.value.t)
    {
      if reply.Some? {
        pp := reply.value.pp;
        head := Head(HEAD_ID, reply.value.sj[0]);
        m := reply.value.m;
        t := reply.value.t;
      }
    }

    /** Asks the server at port `8002 + i` in round `i`; `nodes` are the states of the servers. */
    method CollectParSigs(hash: HashFunction, servers: seq<UavServer>, outcomes: seq<Outcome>,
        ghost nodes: seq<UavState>) returns (code: int)
      requires |servers| == |outcomes| == |nodes| == t && AnswerersReady(nodes, t, outcomes)
      requires forall i :: 0 <= i < t ==> servers[i].State() == nodes[i]
      modifies this
      ensures State() == old(State()).(sigmas := old(sigmas) + Answers(hash, nodes, old(t), old(m), outcomes))
      ensures code == if NoChannel in outcomes then -1 else 1
    {
      hide AnswerersReady, CanSign, Signed;
      ghost var all := old(sigmas) + Answers(hash, nodes, t, m, outcomes);
      for i := 0 to t
        invariant State() == old(State()).(sigmas := sigmas)
        invariant sigmas + Answers(hash, nodes, t, m, outcomes, i) == all
        invariant NoChannel !in outcomes[..i]
      {
        AnswersRound(hash, nodes, t, m, outcomes, i);
        if outcomes[i].NoChannel? {
          return -1;
        }
        if outcomes[i].Answered? {
          var sigma := servers[i].HandleSign(hash, t, m);
          sigmas := sigmas + [sigma];
        }
      }
      assert outcomes[..t] == outcomes;
      return 1;
    }

    method HandleTran(hash: HashFunction, pkv: nat, e: nat) returns (sigma: Sigma)
      requires 2 < pp.q < SCALAR_LIMIT && Hashable(hash, PowMod(pkv, head.alpha, pp.q), pp.q)
      ensures sigma == Aggregated(hash, sigmas, pp, head.alpha, pkv, e)
    {
      sigma := AggSig(hash, sigmas, pp, head, pkv, e);
    }
  }

  /** How a verification ends: the call failed, `Verify` reads past the vectors it was sent, or it returns. */
  datatype VerifyResult = NoReply | PastEnd | Verdict(value: int)

  class VerifierClient {
    var params: Params
    var threshold: nat
    var msg: nat
    /** The signature that the last transformation brought, with the secret key drawn for it. */
    ghost var delivery: Option<Delivery>

    ghost function State(): VerifierState
      reads this
    {
      VerifierState(params, threshold, msg, delivery)
    }

    constructor ()
      ensures State() == BLANK_VERIFIER
    {
      params, threshold, msg, delivery := BLANK, 0, 0, None;
    }

    method GetParams(reply: Option<Response>)
      modifies this
      ensures State() == if reply.Some? then VerifierAfterRegister(old(State()), reply.value) else old(State())
      ensures delivery == old(delivery) && (reply.Some? ==> params == reply.value.pp && msg == reply.value.m)
    {
      if reply.Some? {
        params := reply.value.pp;
        threshold := reply.value.t;
        msg := reply.value.m;
      }
    }

    /** The result is `PastEnd` where the source goes on with entries that are not there. */
    method VerifySignature(hash: HashFunction, skv: nat, reply: Option<Sigma>) returns (res: VerifyResult)
      requires reply.Some? ==>
        2 < params.q < SCALAR_LIMIT && Hashable(hash, PowMod(params.beta, skv, params.q), params.q)
      modifies this
      ensures State() == if reply.Some? then old(State()).(delivery := Some(Delivery(reply.value, skv)))
                         else old(State())
      ensures res == if reply.None? then NoReply
                     else if !Verifiable(reply.value, params, threshold) then PastEnd
                     else Verdict(if Accepted(hash, reply.value, skv, params, msg, threshold) then 1 else 0)
    {
      if reply.None? {
        return NoReply;
      }
      delivery := Some(Delivery(reply.value, skv));
      if !Verifiable(reply.value, params, threshold) {
        return PastEnd;
      }
      var r := Verify(hash, reply.value, skv, params, msg, threshold);
      return Verdict(r);
    }
  }

  /* ---------------------------------------------------------------- the four programs together */

  /** The objects are in the state `s` of the system: server `i` is signer `i`, `ver` is verifier `v`. */
  ghost predicate Mirrors(s: System, ta: TrustedAuthority, servers: seq<UavServer>, agg: Aggregator,
      ver: VerifierClient, v: nat)
    reads ta, servers, agg, ver
  {
    && ta.State() == s.ta && agg.State() == s.agg && ver.State() == VerifierOf(s, v)
    && (forall i :: 0 <= i < |servers| ==> servers[i].State() == UavOf(s, i))
    && (forall i, j :: 0 <= i < j < |servers| ==> servers[i] != servers[j])
  }

  /** The authority as a signer, the head or a verifier reaches it: no answer if the call fails. */
  method Ask(ta: TrustedAuthority, id: nat, us: seq<nat>, ok: bool) returns (reply: Option<Response>)
    requires ok ==> ta.pp.q > 0 && |ta.d| == |ta.b| == |us|
    ensures reply == if ok then Some(Registered(ta.State(), id, us)) else None
  {
    reply := None;
    if ok {
      var r := ta.Register(id, us);
      reply := Some(r);
    }
  }

  /** The signer's program: it registers, and then serves signatures. */
  method UavMain(hash: HashFunction, ghost s0: System, ghost s: System, ta: TrustedAuthority,
      servers: seq<UavServer>, agg: Aggregator, ver: VerifierClient, ghost v: nat, u: nat, id: nat, us: seq<nat>,
      ok: bool)
    requires Reachable(hash, s0, s) && Mirrors(s, ta, servers, agg, ver, v)
    requires u < |servers| && |us| == |ta.b|
    modifies servers[u]
    ensures Enabled(hash, s, RegisterUav(u, id, us, ok))
    ensures Reachable(hash, s0, Next(hash, s, RegisterUav(u, id, us, ok)))
    ensures Mirrors(Next(hash, s, RegisterUav(u, id, us, ok)), ta, servers, agg, ver, v)
  {
    hide Inv, Reachable;
    ReachableKeeps(hash, s0, s);
    StepReachable(hash, s0, s, RegisterUav(u, id, us, ok));
    var reply := Ask(ta, id, us, ok);
    servers[u].RegisterUav(id, reply);
  }

  /** In a reachable state, a signer whose key is long enough to sign holds the authority's parameters. */
  lemma {:induction false} SignersReady(hash: HashFunction, s: System, nodes: seq<UavState>, t: nat,
      outcomes: seq<Outcome>)
    requires Inv(hash, s) && SignerStates(s, nodes) && |nodes| == |outcomes| && (t >= 2 || outcomes == [])
    requires 2 < s.ta.pp.q < SCALAR_LIMIT
    requires forall i :: 0 <= i < |outcomes| && outcomes[i].Answered? ==> CanSign(nodes[i].uav, t)
    ensures AnswerersReady(nodes, t, outcomes)
  {
    hide AggInv, VerifierInv, KeyOf, Established;
    forall i | 0 <= i < |nodes| && outcomes[i].Answered?
      ensures nodes[i].pp == s.ta.pp
    {
      assert UavOf(s, i) == nodes[i];
      assert i in s.uavs && UavInv(s.ta, s.uavs[i]);
    }
  }

  /** Registration of the head followed by the collection loop, as a run from a reachable state. */
  lemma {:induction false} CollectionReachable(hash: HashFunction, s0: System, s: System, us: seq<nat>, ok: bool,
      nodes: seq<UavState>, outcomes: seq<Outcome>) returns (s1: System)
    requires Reachable(hash, s0, s) && |us| == |s.ta.b| && SignerStates(s, nodes)
    requires |nodes| == |outcomes| == if ok then s.ta.t else s.agg.t
    requires forall i :: 0 <= i < |outcomes| && outcomes[i].Answered? ==> CanSign(nodes[i].uav, |outcomes|)
    ensures Enabled(hash, s, RegisterHead(us, ok)) && s1 == Next(hash, s, RegisterHead(us, ok))
    ensures s1.agg.t == |outcomes| && AnswerersReady(nodes, |outcomes|, outcomes)
    ensures var steps := [RegisterHead(us, ok)] + CollectSteps(outcomes);
            && IsRun(hash, s, steps) && Reachable(hash, s0, After(hash, s, steps))
            && After(hash, s, steps) ==
               s1.(agg := s1.agg.(sigmas := s1.agg.sigmas + Answers(hash, nodes, s1.agg.t, s1.agg.m, outcomes)))
  {
    ReachableKeeps(hash, s0, s);
    hide Reachable, CanSign, AnswerersReady, After, IsRun;
    SignersReady(hash, s, nodes, |outcomes|, outcomes);
    s1 := Next(hash, s, RegisterHead(us, ok));
    CollectionIsRun(hash, s1, nodes, outcomes);
    RunCons(hash, s, RegisterHead(us, ok), CollectSteps(outcomes));
    RunReachable(hash, s0, s, [RegisterHead(us, ok)] + CollectSteps(outcomes));
  }

  /** The aggregator's program: it fetches the transformation key and collects signatures. */
  method AggregatorMain(hash: HashFunction, ghost s0: System, ghost s: System, ta: TrustedAuthority,
      servers: seq<UavServer>, agg: Aggregator, ver: VerifierClient, ghost v: nat, us: seq<nat>, ok: bool,
      outcomes: seq<Outcome>) returns (code: int)
    requires Reachable(hash, s0, s) && Mirrors(s, ta, servers, agg, ver, v)
    requires |us| == |ta.b| && |outcomes| == (if ok then ta.t else agg.t) <= |servers|
    requires forall i :: 0 <= i < |outcomes| && outcomes[i].Answered? ==> CanSign(servers[i].uav, |outcomes|)
    modifies agg
    ensures var steps := [RegisterHead(us, ok)] + CollectSteps(outcomes);
            && IsRun(hash, s, steps) && Reachable(hash, s0, After(hash, s, steps))
            && Mirrors(After(hash, s, steps), ta, servers, agg, ver, v)
    ensures code == if NoChannel in outcomes then -1 else 1
    ensures agg.t == |outcomes| && old(agg.sigmas) <= agg.sigmas
    ensures |agg.sigmas| == |old(agg.sigmas)| + agg.t <==> forall i :: 0 <= i < |outcomes| ==> outcomes[i].Answered?
    ensures old(agg.sigmas) == [] ==>
              (agg.t <= |agg.sigmas| <==> forall i :: 0 <= i < |outcomes| ==> outcomes[i].Answered?)
  {
    hide Inv, Reachable, After, IsRun, AnswerersReady, Answers, CanSign;
    ReachableKeeps(hash, s0, s);
    ghost var nodes := seq(|outcomes|, i requires 0 <= i < |outcomes| => UavOf(s, i));
    ghost var s1 := CollectionReachable(hash, s0, s, us, ok, nodes, outcomes);
    var reply := Ask(ta, HEAD_ID, us, ok);
    agg.GetPpAndSk(reply);
    AnswersComplete(hash, nodes, s1.agg.t, s1.agg.m, outcomes);
    code := agg.CollectParSigs(hash, servers[..|outcomes|], outcomes, nodes);
  }

  /** Registration of a verifier followed by a transformation, as a run from a reachable state. */
  lemma {:induction false} VerifierRun(hash: HashFunction, s0: System, s: System, v: nat, id: nat, us: seq<nat>,
      skv: nat, e: nat, ok: bool, tranOk: bool) returns (s1: System, s2: System)
    requires Reachable(hash, s0, s) && |us| == |s.ta.b| && (ok || VerifierOf(s, v).pp.q > 0)
    requires tranOk ==> s.agg.pp.q > 0 && s.ta.pp.q > 0 && Drawn(e, s.ta.pp.q)
    requires tranOk ==> Hashable(hash, PowMod(s.ta.pp.beta, skv, s.ta.pp.q), s.ta.pp.q)
    ensures Enabled(hash, s, GetParams(v, id, us, ok)) && s1 == Next(hash, s, GetParams(v, id, us, ok))
    ensures Inv(hash, s1) && s1.ta == s.ta && s1.agg == s.agg && s1.uavs == s.uavs && VerifierOf(s1, v).pp.q > 0
    ensures Enabled(hash, s1, Tran(v, skv, e, tranOk)) && s2 == Next(hash, s1, Tran(v, skv, e, tranOk))
    ensures var steps := [GetParams(v, id, us, ok), Tran(v, skv, e, tranOk)];
            IsRun(hash, s, steps) && After(hash, s, steps) == s2 && Reachable(hash, s0, s2)
  {
    hide Reachable, Inv, Hashable;
    ReachableKeeps(hash, s0, s);
    var params, tran := GetParams(v, id, us, ok), Tran(v, skv, e, tranOk);
    s1 := Next(hash, s, params);
    StepReachable(hash, s0, s, params);
    ReachableKeeps(hash, s0, s1);
    TranDelivers(hash, s1, v, skv, e, tranOk);
    s2 := Next(hash, s1, tran);
    StepReachable(hash, s0, s1, tran);
    RunCons(hash, s1, tran, []);
    RunCons(hash, s, params, [tran]);
    assert [params] + [tran] == [params, tran] && [tran] + [] == [tran];
  }

  /** The verifier has received a transformation of `sigs` and `res` is the exact verdict on it. */
  ghost predicate Judged(hash: HashFunction, ta: TaState, ver: VerifierState, sigs: seq<ParSig>, res: VerifyResult)
  {
    && ver.delivery.Some? && ver.delivery.value.sigma.ids == IdsOf(sigs) && |ta.d| == |ta.b|
    && (|sigs| < ver.t ==> res == PastEnd)
    && (ver.t <= |sigs| ==>
          && VerdictIsExact(hash, ta, ver)
          && var del := ver.delivery.value;
          res == Verdict(if Accepted(hash, del.sigma, del.skv, ver.pp, ver.m, ver.t) then 1 else 0))
  }

  lemma JudgedDistinct(hash: HashFunction, ta: TaState, ver: VerifierState, sigs: seq<ParSig>, res: VerifyResult)
    requires Judged(hash, ta, ver, sigs, res) && ver.t <= |sigs| && ver.pp.q > 0 && !Divides(ver.pp.q, ver.pp.g)
    requires Distinct(IdsOf(sigs)[..ver.t], ver.pp.q) && NonZero(IdsOf(sigs)[..ver.t], ver.pp.q)
    ensures res == Verdict(1)
  {
    hide Accepted, Distinct, NonZero;
  }

  lemma AggregatedIds(hash: HashFunction, sigs: seq<ParSig>, pp: Params, alpha: nat, pkv: nat, e: nat)
    requires pp.q > 2 && Hashable(hash, PowMod(pkv, alpha, pp.q), pp.q)
    ensures Aggregated(hash, sigs, pp, alpha, pkv, e).ids == IdsOf(sigs)
  {
  }

  /** The result on what the last step delivered is the exact verdict. */
  lemma {:induction false} DeliveryJudged(hash: HashFunction, s0: System, s: System, v: nat, sigs: seq<ParSig>,
      sigma: Sigma, skv: nat, res: VerifyResult)
    requires VerifierOf(s, v).delivery == Some(Delivery(sigma, skv)) && sigma.ids == IdsOf(sigs)
    requires VerifierOf(s, v).pp == s.ta.pp && VerifierOf(s, v).t == s.ta.t && VerifierOf(s, v).m == s.ta.m
    requires 2 < s.ta.pp.q && Hashable(hash, PowMod(s.ta.pp.beta, skv, s.ta.pp.q), s.ta.pp.q)
    requires Verifiable(sigma, s.ta.pp, s.ta.t) <==> s.ta.t <= |sigs|
    requires res == if !Verifiable(sigma, s.ta.pp, s.ta.t) then PastEnd
                    else Verdict(if Accepted(hash, sigma, skv, s.ta.pp, s.ta.m, s.ta.t) then 1 else 0)
    requires Reachable(hash, s0, s)
    ensures s.ta.t <= |sigs| && !Divides(s.ta.pp.q, s.ta.pp.g) &&
            Distinct(IdsOf(sigs)[..s.ta.t], s.ta.pp.q) && NonZero(IdsOf(sigs)[..s.ta.t], s.ta.pp.q) ==>
              res == Verdict(1)
    ensures Judged(hash, s.ta, VerifierOf(s, v), sigs, res)
  {
    hide Reachable, Accepted, VerdictIsExact, Distinct, NonZero, Divides, Hashable, Verifiable;
    ReachableKeeps(hash, s0, s);
    if s.ta.t <= |sigs| {
      ReachableVerdict(hash, s0, s, v);
      var ids := IdsOf(sigs)[..s.ta.t];
      if !Divides(s.ta.pp.q, s.ta.pp.g) && Distinct(ids, s.ta.pp.q) && NonZero(ids, s.ta.pp.q) {
        JudgedDistinct(hash, s.ta, VerifierOf(s, v), sigs, res);
      }
    }
  }

  /** The verifier's program: it fetches the parameters, asks for a transformation and verifies it. */
  method VerifierMain(hash: HashFunction, ghost s0: System, ghost s: System, ta: TrustedAuthority,
      servers: seq<UavServer>, agg: Aggregator, ver: VerifierClient, ghost v: nat, id: nat, us: seq<nat>, skv: nat,
      e: nat, ok: bool, tranOk: bool) returns (res: VerifyResult)
    requires Reachable(hash, s0, s) && Mirrors(s, ta, servers, agg, ver, v)
    requires |us| == |ta.b| && ta.pp.q > 0 && (ok || ver.params.q > 0)
    requires tranOk ==> agg.pp.q > 0 && Drawn(e, ta.pp.q)
    requires tranOk ==> Hashable(hash, PowMod(ta.pp.beta, skv, ta.pp.q), ta.pp.q)
    modifies ver
    ensures var steps := [GetParams(v, id, us, ok), Tran(v, skv, e, tranOk)];
            && IsRun(hash, s, steps) && Reachable(hash, s0, After(hash, s, steps))
            && Mirrors(After(hash, s, steps), ta, servers, agg, ver, v)
    ensures res.NoReply? <==> !tranOk
    ensures res.PastEnd? <==> tranOk && |agg.sigmas| < ta.t
    ensures tranOk ==> Judged(hash, ta.State(), ver.State(), agg.sigmas, res)
    ensures tranOk && ta.t <= |agg.sigmas| && !Divides(ta.pp.q, ta.pp.g) &&
            Distinct(IdsOf(agg.sigmas)[..ta.t], ta.pp.q) && NonZero(IdsOf(agg.sigmas)[..ta.t], ta.pp.q) ==>
              res == Verdict(1)
  {
    hide Inv, Reachable, After, IsRun, Hashable, Accepted, Aggregated, Judged, Distinct, NonZero, Divides, Verifiable;
    ReachableKeeps(hash, s0, s);
    ghost var s1, s2 := VerifierRun(hash, s0, s, v, id, us, skv, e, ok, tranOk);
    TranDelivers(hash, s1, v, skv, e, tranOk);
    var paramsReply := Ask(ta, id, us, ok);
    ver.GetParams(paramsReply);
    var pkv := PowMod(ver.params.g, skv, ver.params.q);
    var reply := None;
    if tranOk {
      var sigma := agg.HandleTran(hash, pkv, e);
      reply := Some(sigma);
      AggregatedIds(hash, agg.sigmas, agg.pp, agg.head.alpha, pkv, e);
    }
    res := ver.VerifySignature(hash, skv, reply);
    if tranOk {
      DeliveryJudged(hash, s0, s2, v, agg.sigmas, reply.value, skv, res);
    }
  }

  /* ---------------------------------------------------------------- one session from the start */

  lemma {:induction false} AllAnswer(hash: HashFunction, nodes: seq<UavState>, t: nat, m: nat, ids: seq<nat>,
      outcomes: seq<Outcome>, i: nat := 0)
    requires i <= |nodes| == |ids| == |outcomes| && AnswerersReady(nodes, t, outcomes)
    requires forall j :: 0 <= j < |nodes| ==> nodes[j].uav.id == ids[j] && outcomes[j].Answered?
    ensures IdsOf(Answers(hash, nodes, t, m, outcomes, i)) == ids[i..]
    decreases |nodes| - i
  {
    if i < |nodes| {
      AllAnswer(hash, nodes, t, m, ids, outcomes, i + 1);
      assert ids[i..] == [ids[i]] + ids[i + 1..];
    }
  }

  /** The signers below `i` have registered with their identities, and the other parties are untouched. */
  ghost predicate SignedUp(s0: System, s: System, ids: seq<nat>, us: seq<seq<nat>>, i: nat)
    requires i <= |ids| == |us| && s0.ta.pp.q > 0
  {
    && s.ta == s0.ta && s.agg == s0.agg && s.verifiers == s0.verifiers && |s.ta.d| == |s.ta.b|
    && forall j :: 0 <= j < i ==>
         |us[j]| == |s.ta.b| && UavOf(s, j) == UavAfterRegister(ids[j], Registered(s.ta, ids[j], us[j]))
  }

  lemma StartReachable(hash: HashFunction, s0: System, ids: seq<nat>, us: seq<seq<nat>>)
    requires Init(s0) && |ids| == |us| && s0.ta.pp.q > 0
    ensures Reachable(hash, s0, s0) && SignedUp(s0, s0, ids, us, 0)
  {
    assert IsRun(hash, s0, []) && After(hash, s0, []) == s0;
  }

  lemma SignedUpStep(hash: HashFunction, s0: System, s: System, ids: seq<nat>, us: seq<seq<nat>>, i: nat)
    requires i < |ids| == |us| && s0.ta.pp.q > 0 && SignedUp(s0, s, ids, us, i)
    requires Enabled(hash, s, RegisterUav(i, ids[i], us[i], true))
    ensures SignedUp(s0, Next(hash, s, RegisterUav(i, ids[i], us[i], true)), ids, us, i + 1)
  {
    hide Issued;
  }

  lemma {:induction false} SignedUpCanSign(s0: System, s: System, ids: seq<nat>, us: seq<seq<nat>>)
    requires |ids| == |us| == s.ta.t && s0.ta.pp.q > 0 && SignedUp(s0, s, ids, us, |ids|)
    requires forall i :: 0 <= i < |ids| ==> ids[i] != HEAD_ID
    requires s.ta.t <= |s.ta.b| + 1
    ensures forall i :: 0 <= i < |ids| ==> CanSign(UavOf(s, i).uav, |ids|) && UavOf(s, i).uav.id == ids[i]
  {
    forall i | 0 <= i < |ids|
      ensures CanSign(UavOf(s, i).uav, |ids|) && UavOf(s, i).uav.id == ids[i]
    {
      assert UavOf(s, i) == UavAfterRegister(ids[i], Registered(s.ta, ids[i], us[i]));
    }
  }

  lemma {:induction false} AllCollected(hash: HashFunction, s0: System, s: System, ids: seq<nat>, us: seq<seq<nat>>,
      headUs: seq<nat>) returns (s': System)
    requires Reachable(hash, s0, s) && |ids| == |us| == s.ta.t && |headUs| == |s.ta.b|
    requires s0.ta.pp.q > 0 && SignedUp(s0, s, ids, us, |ids|) && s0.agg.sigmas == []
    requires forall i :: 0 <= i < |ids| ==> ids[i] != HEAD_ID
    ensures forall i :: 0 <= i < |ids| ==> CanSign(UavOf(s, i).uav, |ids|)
    ensures var steps := [RegisterHead(headUs, true)] + CollectSteps(seq(s.ta.t, _ => Answered));
            IsRun(hash, s, steps) && s' == After(hash, s, steps) && Reachable(hash, s0, s')
    ensures s'.ta == s.ta && s'.verifiers == s0.verifiers && s'.agg.pp == s.ta.pp && IdsOf(s'.agg.sigmas) == ids
  {
    hide Reachable, After, IsRun, CanSign, AnswerersReady, Answers, Enabled, AggInv, UavInv, VerifierInv;
    ReachableKeeps(hash, s0, s);
    SignedUpCanSign(s0, s, ids, us);
    var outcomes := seq(s.ta.t, _ => Answered);
    var nodes := seq(|ids|, i requires 0 <= i < |ids| => UavOf(s, i));
    var s1 := CollectionReachable(hash, s0, s, headUs, true, nodes, outcomes);
    AllAnswer(hash, nodes, s.ta.t, s.ta.m, ids, outcomes);
    assert ids[0..] == ids && s1.agg.sigmas == [];
    s' := After(hash, s, [RegisterHead(headUs, true)] + CollectSteps(outcomes));
  }

  /** A whole session: the signers register, the head collects from all of them, a verifier verifies. */
  method Session(hash: HashFunction, ghost s0: System, ta: TrustedAuthority, servers: seq<UavServer>,
      agg: Aggregator, ver: VerifierClient, ids: seq<nat>, us: seq<seq<nat>>, headUs: seq<nat>, verifierId: nat,
      verifierUs: seq<nat>, skv: nat, e: nat) returns (res: VerifyResult)
    requires Init(s0) && Mirrors(s0, ta, servers, agg, ver, 0)
    requires |servers| == |ids| == |us| == ta.t && |headUs| == |verifierUs| == |ta.b| && ta.pp.q > 0
    requires forall i :: 0 <= i < |ids| ==> ids[i] != HEAD_ID && |us[i]| == |ta.b|
    requires Drawn(e, ta.pp.q) && Hashable(hash, PowMod(ta.pp.beta, skv, ta.pp.q), ta.pp.q)
    modifies servers, agg, ver
    ensures IdsOf(agg.sigmas) == ids && res.Verdict?
    ensures Judged(hash, ta.State(), ver.State(), agg.sigmas, res)
    ensures !Divides(ta.pp.q, ta.pp.g) && Distinct(ids, ta.pp.q) && NonZero(ids, ta.pp.q) ==> res == Verdict(1)
  {
    hide Inv, Reachable, After, IsRun, Hashable, Judged, Distinct, NonZero, Divides, Next, Enabled, SignedUp;
    ghost var s := s0;
    StartReachable(hash, s0, ids, us);
    for i := 0 to |servers|
      invariant Reachable(hash, s0, s) && Mirrors(s, ta, servers, agg, ver, 0)
      invariant SignedUp(s0, s, ids, us, i)
    {
      UavMain(hash, s0, s, ta, servers, agg, ver, 0, i, ids[i], us[i], true);
      SignedUpStep(hash, s0, s, ids, us, i);
      s := Next(hash, s, RegisterUav(i, ids[i], us[i], true));
    }
    var outcomes := seq(ta.t, _ => Answered);
    ghost var s' := AllCollected(hash, s0, s, ids, us, headUs);
    var code := AggregatorMain(hash, s0, s, ta, servers, agg, ver, 0, headUs, true, outcomes);
    res := VerifierMain(hash, s0, s', ta, servers, agg, ver, 0, verifierId, verifierUs, skv, e, true, true);
    assert IdsOf(agg.sigmas)[..ta.t] == ids;
  }
}
