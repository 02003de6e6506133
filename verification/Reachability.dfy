/**
  The theorems about accepted calls are about all the calls one would want: whatever
  defaults and entries are valid, there are arguments that ask for them, and with a PDP
  that serves any given policy they are answered.
 */
module Reachability {
  import opened Wrappers
  import opened Json
  import opened JsonRoundTrip
  import opened GoJson
  import opened Requests
  import opened Wire
  import opened Pdp
  import opened Client
  import opened Theorems
  import Endpoints

  const EVALUATIONS_ARG := "evaluations"
  const SEMANTIC_ARG := "evaluations_semantic"

  function BatchArgs(defaults: Ask, entries: seq<Value>, semantic: string): Args {
    AskArgs(defaults, map[EVALUATIONS_ARG := Text(Array(FromSeq(entries))), SEMANTIC_ARG := semantic])
  }

  lemma DefaultsAccepted(a: Ask, rest: Args, maxBytes: nat)
    requires forall n | IsPart(n) :: n !in rest
    requires Valid(a) && Sendable(a) && Fits(a, maxBytes) && ObjectContext(a) && Convertible(a)
    ensures ArgsOk(AskArgs(a, rest), maxBytes, false) && GivenAsk(AskArgs(a, rest)) == a
  {
    forall n | IsPart(n) ensures Gives(AskArgs(a, rest), a, n) {
      AskArg(a, rest, n);
    }
    AskAccepted(AskArgs(a, rest), a, maxBytes, false);
  }

  lemma EntriesAccepted(args: Args, entries: seq<Value>, maxBytes: nat)
    requires 1 <= |entries| <= MAX_BATCH && forall e | e in entries :: WellFormed(e)
    requires GetString(args, "evaluations", "") == Text(Array(FromSeq(entries)))
    requires |Text(Array(FromSeq(entries)))| <= maxBytes
    ensures EntryList(args, maxBytes) == Some(entries)
  {
    FromSeqWellFormed(entries);
    TextBack(Array(FromSeq(entries)));
    ElementsFromSeq(entries);
  }

  lemma NamesOfArgs()
    ensures forall n | IsPart(n) :: n != EVALUATIONS_ARG && n != SEMANTIC_ARG && n != "pdp_url"
    ensures EVALUATIONS_ARG != SEMANTIC_ARG && "pdp_url" != EVALUATIONS_ARG && "pdp_url" != SEMANTIC_ARG
  {
    assert |EVALUATIONS_ARG| != |SEMANTIC_ARG|;
    assert "pdp_url"[0] == 'p' && EVALUATIONS_ARG[0] == 'e' && SEMANTIC_ARG[0] == 'e';
    assert "subject"[0] == 's' && "action"[0] == 'a' && "resource"[0] == 'r' && "context"[0] == 'c';
  }

  // A plan that the argument checks let through.
  predicate Accepted(p: Plan, maxArgBytes: nat) {
    && 1 <= |p.entries| <= MAX_BATCH && p.semantic in SEMANTICS
    && Valid(p.defaults) && Sendable(p.defaults) && Fits(p.defaults, maxArgBytes)
    && ObjectContext(p.defaults) && Convertible(p.defaults)
    && (forall e | e in p.entries :: WellFormed(e) && EntryOk(e, p.defaults))
    && |Text(Array(FromSeq(p.entries)))| <= maxArgBytes
  }

  lemma PlanReached(p: Plan, cfg: Config)
    requires Accepted(p, cfg.maxArgBytes) && Endpoints.BatchEndpoint(cfg.pdpURL) == Some(p.endpoint)
    ensures PlanOf(BatchArgs(p.defaults, p.entries, p.semantic), cfg) == Some(p)
  {
    var rest: Args := map[EVALUATIONS_ARG := Text(Array(FromSeq(p.entries))), SEMANTIC_ARG := p.semantic];
    var args := BatchArgs(p.defaults, p.entries, p.semantic);
    NamesOfArgs();
    OtherArgs(p);
    DefaultsAccepted(p.defaults, rest, cfg.maxArgBytes);
    EntriesAccepted(args, p.entries, cfg.maxArgBytes);
    DerivedValid(cfg.pdpURL, p.endpoint);
    PlanAssembled(args, cfg, p);
  }

  lemma OtherArgs(p: Plan)
    ensures var args := BatchArgs(p.defaults, p.entries, p.semantic);
      && GetString(args, "evaluations", "") == Text(Array(FromSeq(p.entries)))
      && GetString(args, "evaluations_semantic", EXECUTE_ALL) == p.semantic
      && GetString(args, "pdp_url", "") == ""
  {
    var rest: Args := map[EVALUATIONS_ARG := Text(Array(FromSeq(p.entries))), SEMANTIC_ARG := p.semantic];
    NamesOfArgs();
    OtherArg(p.defaults, rest, EVALUATIONS_ARG);
    OtherArg(p.defaults, rest, SEMANTIC_ARG);
    OtherArg(p.defaults, rest, "pdp_url");
  }

  lemma PlanAssembled(args: Args, cfg: Config, p: Plan)
    requires GetString(args, "pdp_url", "") == "" && Endpoints.BatchEndpoint(cfg.pdpURL) == Some(p.endpoint)
    requires Endpoints.Parse(p.endpoint).Some?
    requires ArgsOk(args, cfg.maxArgBytes, false) && GivenAsk(args) == p.defaults
    requires EntryList(args, cfg.maxArgBytes) == Some(p.entries)
    requires forall e | e in p.entries :: EntryOk(e, p.defaults)
    requires GetString(args, "evaluations_semantic", EXECUTE_ALL) == p.semantic && p.semantic in SEMANTICS
    ensures PlanOf(args, cfg) == Some(p)
  {
    assert BatchURL(args, cfg) == Some(p.endpoint);
    assert PlanAt(args, cfg.maxArgBytes, p.endpoint) == Some(p);
  }

  lemma DerivedValid(configured: string, endpoint: string)
    requires Endpoints.BatchEndpoint(configured) == Some(endpoint)
    ensures Endpoints.Parse(endpoint).Some?
  {
    Endpoints.DerivedParses(configured, Endpoints.EVALUATIONS);
  }

  lemma ReachedAccepted(args: Args, cfg: Config, p: Plan)
    requires PlanOf(args, cfg) == Some(p)
    ensures Accepted(p, cfg.maxArgBytes)
  {
    PlanFacts(args, cfg, p);
    GivenRead(args, "context", cfg.maxArgBytes, false);
    EntriesText(args, cfg.maxArgBytes, p.entries);
  }

  lemma EntriesText(args: Args, maxBytes: nat, entries: seq<Value>)
    requires EntryList(args, maxBytes) == Some(entries)
    ensures |Text(Array(FromSeq(entries)))| <= maxBytes
  {
    var s := GetString(args, "evaluations", "");
    DocRead(s, ParseDoc(s).value);
    FromElements(ParseDoc(s).value.values);
  }

  lemma {:induction false} FromElements(vs: Values)
    ensures FromSeq(Elements(vs)) == vs
  {
    if vs.Values? {
      FromElements(vs.tail);
      assert Elements(vs)[1..] == Elements(vs.tail);
    }
  }

  /**
    The plans that calls lead to are exactly the accepted ones: no check of the client
    is missing from Accepted, and none refuses a plan that satisfies it.
   */
  lemma PlansAreTheAccepted(p: Plan, cfg: Config)
    requires Endpoints.BatchEndpoint(cfg.pdpURL) == Some(p.endpoint)
    ensures (exists args :: PlanOf(args, cfg) == Some(p)) <==> Accepted(p, cfg.maxArgBytes)
  {
    if Accepted(p, cfg.maxArgBytes) {
      PlanReached(p, cfg);
    }
    forall args | PlanOf(args, cfg) == Some(p) ensures Accepted(p, cfg.maxArgBytes) {
      ReachedAccepted(args, cfg, p);
    }
  }

  /**
    For every policy and every accepted plan there is a PDP that serves the policy and a
    response cap under which the call is answered with the policy's decisions. The same
    PDP serves single calls, so the hypotheses of every theorem here can be met at once.
   */
  lemma EveryAcceptedPlanIsAnswered(p: Plan, cfg: Config, policy: Policy)
    returns (net: Transport, cfg': Config)
    requires Endpoints.BatchEndpoint(cfg.pdpURL) == Some(p.endpoint)
    requires Accepted(p, cfg.maxArgBytes) && EntriesAlike(p)
    ensures cfg' == cfg.(pdpMaxBytes := cfg'.pdpMaxBytes)
    ensures forall endpoint ::
              && ServesBatch(policy, net, endpoint, Credentials(cfg))
              && ServesOne(policy, net, endpoint, Credentials(cfg))
    ensures var result := BatchResult(BatchArgs(p.defaults, p.entries, p.semantic), cfg', net);
      result.Some? && Reports(result.value, p, Decisions(policy, p), Stop(p.semantic, Decisions(policy, p)))
  {
    net := rq => Reference(policy, Credentials(cfg), rq);
    var reply := net(Posted(p, cfg));
    cfg' := cfg.(pdpMaxBytes := |reply.body|);
    forall endpoint
      ensures ServesBatch(policy, net, endpoint, Credentials(cfg)) && ServesOne(policy, net, endpoint, Credentials(cfg))
    {
      ReferenceServes(policy, endpoint, Credentials(cfg));
    }
    var args := BatchArgs(p.defaults, p.entries, p.semantic);
    PlanReached(p, cfg');
    assert Posted(p, cfg') == Posted(p, cfg);
    RequestArrives(args, cfg', p);
    SentComplete(args, cfg', p);
    assert Succeeded(reply);
    BatchEndToEnd(args, cfg', net, policy, p);
  }
}
