/**
  What a caller must write for a call to get past the argument checks, said of the texts
  of the arguments, and where the call then goes.
 */
module Acceptance {
  import opened Wrappers
  import opened Json
  import opened JsonRoundTrip
  import opened Grammar
  import opened GoJson
  import opened Numbers
  import opened Requests
  import opened Pdp
  import opened Wire
  import opened Client
  import Endpoints

  // The argument is there, and not empty.
  predicate Written(args: Args, n: string) { n in args && args[n] != "" }

  // The argument spells the object v, in at most maxBytes bytes, with its numbers in range.
  ghost predicate WritesObject(args: Args, n: string, maxBytes: nat, v: Value) {
    Written(args, n) && |args[n]| <= maxBytes && Spells(args[n], v) && v.Object? && InRange(v)
  }

  // The member m of v is a non-empty string.
  ghost predicate NonEmptyText(v: Value, m: string) {
    v.Object? && exists s :: Field(v.members, m, Exact) == Some(String(s)) && Unescape(s) != ""
  }

  ghost predicate IsEntity(v: Value) { NonEmptyText(v, "type") && NonEmptyText(v, "id") }

  ghost predicate IsAction(v: Value) { NonEmptyText(v, "name") }

  lemma TextExactly(v: Value, m: string)
    ensures NonEmptyText(v, m) <==> HoldsText(Some(v), m)
  {
    if v.Object? {
      match Field(v.members, m, Exact)
      case Some(String(s)) => assert NonEmptyText(v, m) <==> Unescape(s) != "";
      case _ =>
    }
  }

  // The argument as a tree.
  lemma WrittenExactly(args: Args, n: string, maxBytes: nat, v: Value)
    ensures WritesObject(args, n, maxBytes, v)
       <==> Acceptable(args, n, maxBytes, true) && Given(args, n) == Some(v)
  {
    if Written(args, n) {
      DocExactly(args[n], v);
    }
  }

  lemma EntityExactly(v: Value)
    ensures IsEntity(v) <==> Carries(Some(v), ["type", "id"])
  {
    TextExactly(v, "type");
    TextExactly(v, "id");
    CarriesHolds(Some(v), ["type", "id"]);
    assert "type" in ["type", "id"] && "id" in ["type", "id"];
  }

  lemma ActionExactly(v: Value)
    ensures IsAction(v) <==> Carries(Some(v), ["name"])
  {
    TextExactly(v, "name");
    CarriesHolds(Some(v), ["name"]);
    assert "name" in ["name"];
  }

  // ----- the single tool

  ghost predicate WritesEntity(args: Args, n: string, maxBytes: nat) {
    exists v :: WritesObject(args, n, maxBytes, v) && IsEntity(v)
  }

  ghost predicate WritesAction(args: Args, maxBytes: nat) {
    exists v :: WritesObject(args, "action", maxBytes, v) && IsAction(v)
  }

  ghost predicate WritesContext(args: Args, maxBytes: nat) {
    exists v :: WritesObject(args, "context", maxBytes, v)
  }

  lemma EntityWritten(args: Args, n: string, maxBytes: nat)
    ensures WritesEntity(args, n, maxBytes)
       <==> Acceptable(args, n, maxBytes, true) && Carries(Given(args, n), ["type", "id"])
  {
    if Given(args, n).Some? {
      EntityExactly(Given(args, n).value);
      WrittenExactly(args, n, maxBytes, Given(args, n).value);
    }
    forall v | WritesObject(args, n, maxBytes, v) ensures Given(args, n) == Some(v) {
      WrittenExactly(args, n, maxBytes, v);
    }
  }

  lemma ActionWritten(args: Args, maxBytes: nat)
    ensures WritesAction(args, maxBytes)
       <==> Acceptable(args, "action", maxBytes, true) && Carries(Given(args, "action"), ["name"])
  {
    if Given(args, "action").Some? {
      ActionExactly(Given(args, "action").value);
      WrittenExactly(args, "action", maxBytes, Given(args, "action").value);
    }
    forall v | WritesObject(args, "action", maxBytes, v) ensures Given(args, "action") == Some(v) {
      WrittenExactly(args, "action", maxBytes, v);
    }
  }

  lemma ContextWritten(args: Args, maxBytes: nat)
    ensures WritesContext(args, maxBytes) <==> Acceptable(args, "context", maxBytes, true)
  {
    if Given(args, "context").Some? {
      WrittenExactly(args, "context", maxBytes, Given(args, "context").value);
    }
    forall v | WritesObject(args, "context", maxBytes, v) ensures Acceptable(args, "context", maxBytes, true) {
      WrittenExactly(args, "context", maxBytes, v);
    }
  }

  lemma Optionally(args: Args, n: string, maxBytes: nat)
    ensures Acceptable(args, n, maxBytes, false) <==> !Written(args, n) || Acceptable(args, n, maxBytes, true)
    ensures !Written(args, n) <==> Given(args, n).None? && GetString(args, n, "") == ""
    ensures Acceptable(args, n, maxBytes, true) ==> Written(args, n) && Given(args, n).Some?
  {
  }

  /**
    The arguments of authzen_evaluate are accepted exactly when subject and resource are
    written as objects with a non-empty type and id, action as one with a non-empty name,
    and context, if at all, as an object.
   */
  lemma SingleAcceptedExactly(args: Args, maxBytes: nat)
    ensures ArgsOk(args, maxBytes, true) <==>
      && WritesEntity(args, "subject", maxBytes) && WritesAction(args, maxBytes)
      && WritesEntity(args, "resource", maxBytes)
      && (Written(args, "context") ==> WritesContext(args, maxBytes))
  {
    EntityWritten(args, "subject", maxBytes);
    ActionWritten(args, maxBytes);
    EntityWritten(args, "resource", maxBytes);
    ContextWritten(args, maxBytes);
    Optionally(args, "context", maxBytes);
  }

  // ----- the batch tool

  /** The defaults of a batch: the same, of those that are written. */
  lemma DefaultsAcceptedExactly(args: Args, maxBytes: nat)
    ensures ArgsOk(args, maxBytes, false) <==>
      && (Written(args, "subject") ==> WritesEntity(args, "subject", maxBytes))
      && (Written(args, "action") ==> WritesAction(args, maxBytes))
      && (Written(args, "resource") ==> WritesEntity(args, "resource", maxBytes))
      && (Written(args, "context") ==> WritesContext(args, maxBytes))
  {
    EntityWritten(args, "subject", maxBytes);
    ActionWritten(args, maxBytes);
    EntityWritten(args, "resource", maxBytes);
    ContextWritten(args, maxBytes);
    Optionally(args, "subject", maxBytes);
    Optionally(args, "action", maxBytes);
    Optionally(args, "resource", maxBytes);
    Optionally(args, "context", maxBytes);
  }

  // The part n of an entry: its own member, matched in any case, or else the default.
  ghost predicate EntryGives(args: Args, maxBytes: nat, e: Value, n: string, v: Value) {
    e.Object? &&
    if Field(e.members, n, Folded).Some? then Field(e.members, n, Folded) == Some(v)
    else WritesObject(args, n, maxBytes, v)
  }

  ghost predicate GivesEntity(args: Args, maxBytes: nat, e: Value, n: string) {
    exists v :: EntryGives(args, maxBytes, e, n, v) && IsEntity(v)
  }

  ghost predicate GivesAction(args: Args, maxBytes: nat, e: Value) {
    exists v :: EntryGives(args, maxBytes, e, "action", v) && IsAction(v)
  }

  // An entry that is complete, with the arguments of the call for what it leaves out.
  ghost predicate CompleteEntry(args: Args, maxBytes: nat, e: Value) {
    && e.Object? && InRange(e)
    && GivesEntity(args, maxBytes, e, "subject") && GivesAction(args, maxBytes, e)
    && GivesEntity(args, maxBytes, e, "resource")
  }

  lemma GivenExactly(args: Args, maxBytes: nat, e: Value, n: string, v: Value)
    requires e.Object? && Acceptable(args, n, maxBytes, false)
    ensures EntryGives(args, maxBytes, e, n, v)
       <==> FirstPresent(Field(e.members, n, Folded), Given(args, n)) == Some(v)
  {
    WrittenExactly(args, n, maxBytes, v);
    Optionally(args, n, maxBytes);
  }

  lemma EntityGiven(args: Args, maxBytes: nat, e: Value, n: string)
    requires e.Object? && Acceptable(args, n, maxBytes, false)
    ensures var x := FirstPresent(Field(e.members, n, Folded), Given(args, n));
      GivesEntity(args, maxBytes, e, n) <==> x.Some? && Carries(x, ["type", "id"])
  {
    var x := FirstPresent(Field(e.members, n, Folded), Given(args, n));
    forall v ensures EntryGives(args, maxBytes, e, n, v) <==> x == Some(v) {
      GivenExactly(args, maxBytes, e, n, v);
    }
    if x.Some? {
      EntityExactly(x.value);
    }
  }

  lemma ActionGiven(args: Args, maxBytes: nat, e: Value)
    requires e.Object? && Acceptable(args, "action", maxBytes, false)
    ensures var x := FirstPresent(Field(e.members, "action", Folded), Given(args, "action"));
      GivesAction(args, maxBytes, e) <==> x.Some? && Carries(x, ["name"])
  {
    var x := FirstPresent(Field(e.members, "action", Folded), Given(args, "action"));
    forall v ensures EntryGives(args, maxBytes, e, "action", v) <==> x == Some(v) {
      GivenExactly(args, maxBytes, e, "action", v);
    }
    if x.Some? {
      ActionExactly(x.value);
    }
  }

  lemma EntryExactly(args: Args, maxBytes: nat, e: Value)
    requires ArgsOk(args, maxBytes, false)
    ensures EntryOk(e, GivenAsk(args)) <==> CompleteEntry(args, maxBytes, e)
  {
    if e.Object? {
      EntityGiven(args, maxBytes, e, "subject");
      ActionGiven(args, maxBytes, e);
      EntityGiven(args, maxBytes, e, "resource");
    }
  }

  // The evaluations argument spells an array of 1 to 100 such entries.
  ghost predicate WritesEntries(args: Args, maxBytes: nat, entries: seq<Value>) {
    && Written(args, "evaluations") && |args["evaluations"]| <= maxBytes
    && (exists vs :: Spells(args["evaluations"], Array(vs)) && Elements(vs) == entries)
    && 1 <= |entries| <= 100
    && forall e | e in entries :: CompleteEntry(args, maxBytes, e)
  }

  lemma EntriesExactly(args: Args, maxBytes: nat, entries: seq<Value>)
    requires ArgsOk(args, maxBytes, false)
    ensures WritesEntries(args, maxBytes, entries)
       <==> EntryList(args, maxBytes) == Some(entries) && forall e | e in entries :: EntryOk(e, GivenAsk(args))
  {
    forall e ensures EntryOk(e, GivenAsk(args)) <==> CompleteEntry(args, maxBytes, e) {
      EntryExactly(args, maxBytes, e);
    }
    if Written(args, "evaluations") {
      forall vs ensures Spells(args["evaluations"], Array(vs)) <==> ParseDoc(args["evaluations"]) == Some(Array(vs)) {
        DocExactly(args["evaluations"], Array(vs));
      }
    }
  }

  // The semantic asked for; execute_all when none is.
  function AskedSemantic(args: Args): string {
    if "evaluations_semantic" in args then args["evaluations_semantic"] else "execute_all"
  }

  lemma SemanticsAre()
    ensures SEMANTICS == ["execute_all", "deny_on_first_deny", "permit_on_first_permit"]
  {
  }

  /**
    The arguments of authzen_evaluate_batch are accepted exactly when the defaults are,
    the entries are written and complete over them, and the semantic is one of three. The
    plan then has those entries and that semantic.
   */
  lemma BatchAcceptedExactly(args: Args, maxBytes: nat, endpoint: string)
    ensures PlanAt(args, maxBytes, endpoint).Some? <==>
      && ArgsOk(args, maxBytes, false)
      && (exists entries :: WritesEntries(args, maxBytes, entries))
      && AskedSemantic(args) in ["execute_all", "deny_on_first_deny", "permit_on_first_permit"]
    ensures PlanAt(args, maxBytes, endpoint).Some? ==>
      var p := PlanAt(args, maxBytes, endpoint).value;
      && WritesEntries(args, maxBytes, p.entries) && p.semantic == AskedSemantic(args)
      && p.defaults == GivenAsk(args) && p.endpoint == endpoint
  {
    SemanticsAre();
    if ArgsOk(args, maxBytes, false) {
      forall entries
        ensures WritesEntries(args, maxBytes, entries) <==>
          EntryList(args, maxBytes) == Some(entries) && forall e | e in entries :: EntryOk(e, GivenAsk(args))
      {
        EntriesExactly(args, maxBytes, entries);
      }
    }
  }

  // ----- where a call goes

  // The URL that a call is about: the one written, or else the configured one.
  function AskedURL(args: Args, configured: string): string {
    if Written(args, "pdp_url") then args["pdp_url"] else configured
  }

  // Two settings that differ in nothing but the URL.
  predicate SameButURL(cfg: Config, cfg': Config) {
    cfg.pdpToken == cfg'.pdpToken && cfg.pdpMaxBytes == cfg'.pdpMaxBytes && cfg.maxArgBytes == cfg'.maxArgBytes
  }

  ghost predicate AgreeAt(net: Transport, net': Transport, url: string) {
    forall rq: HttpRequest | rq.endpoint == url :: net(rq) == net'(rq)
  }

  /** The endpoint of authzen_evaluate is the URL asked for, when that is valid. */
  lemma ResolvedExactly(args: Args, cfg: Config, url: string)
    ensures ResolveEndpoint(args, cfg) == Some(url)
       <==> url == AskedURL(args, cfg.pdpURL) && url != "" && Endpoints.Parse(url).Some?
  {
  }

  lemma SameAnswer(cfg: Config, cfg': Config, net: Transport, net': Transport, url: string, body: Value)
    requires SameButURL(cfg, cfg') && AgreeAt(net, net', url)
    ensures Answered(cfg, net, url, body) == Answered(cfg', net', url, body)
  {
    assert Sent(cfg, url, body) == Sent(cfg', url, body);
    assert Sent(cfg, url, body).endpoint == url;
  }

  /**
    authzen_evaluate asks at the URL written as pdp_url, and nowhere else, whatever is
    configured; without one, at the configured URL. The result names that URL.
   */
  lemma SingleGoesTo(args: Args, cfg: Config, cfg': Config, net: Transport, net': Transport, url: string)
    requires SameButURL(cfg, cfg')
    requires url == AskedURL(args, cfg.pdpURL) == AskedURL(args, cfg'.pdpURL)
    requires AgreeAt(net, net', url)
    ensures SingleResult(args, cfg, net) == SingleResult(args, cfg', net')
    ensures SingleResult(args, cfg, net).Some? ==> SingleResult(args, cfg, net).value.pdpURL == url
  {
    ResolvedTo(args, cfg, url);
    ResolvedTo(args, cfg', url);
    SameAnswer(cfg, cfg', net, net', url, Object(SingleMembers(GivenAsk(args))));
    SingleAt(args, cfg, net, url);
    SingleAt(args, cfg', net', url);
  }

  lemma ResolvedTo(args: Args, cfg: Config, url: string)
    requires url == AskedURL(args, cfg.pdpURL)
    ensures ResolveEndpoint(args, cfg) == if url != "" && Endpoints.Parse(url).Some? then Some(url) else None
  {
    ResolvedExactly(args, cfg, url);
    if ResolveEndpoint(args, cfg).Some? {
      ResolvedExactly(args, cfg, ResolveEndpoint(args, cfg).value);
    }
  }

  lemma SingleAt(args: Args, cfg: Config, net: Transport, url: string)
    requires ResolveEndpoint(args, cfg) == if url != "" && Endpoints.Parse(url).Some? then Some(url) else None
    ensures SingleResult(args, cfg, net) ==
      if ResolveEndpoint(args, cfg).None? || !ArgsOk(args, cfg.maxArgBytes, true) then None
      else SingleFrom(Answered(cfg, net, url, Object(SingleMembers(GivenAsk(args)))), url)
    ensures SingleResult(args, cfg, net).Some? ==> SingleResult(args, cfg, net).value.pdpURL == url
  {
    var endpoint := ResolveEndpoint(args, cfg);
    assert endpoint.Some? ==> endpoint.value == url;
  }

  // The batch endpoint: the URL written as it is, or the one derived from what is configured.
  function AskedBatchURL(args: Args, configured: string): Option<string> {
    if Written(args, "pdp_url") then Some(args["pdp_url"]) else Endpoints.BatchEndpoint(configured)
  }

  lemma BatchResolvedExactly(args: Args, cfg: Config, url: string)
    ensures BatchURL(args, cfg) == Some(url)
       <==> AskedBatchURL(args, cfg.pdpURL) == Some(url) && Endpoints.Parse(url).Some?
  {
  }

  /** The same for a batch: a written URL is used as it is. */
  lemma BatchGoesTo(args: Args, cfg: Config, cfg': Config, net: Transport, net': Transport, url: string)
    requires SameButURL(cfg, cfg')
    requires AskedBatchURL(args, cfg.pdpURL) == AskedBatchURL(args, cfg'.pdpURL) == Some(url)
    requires AgreeAt(net, net', url)
    ensures BatchResult(args, cfg, net) == BatchResult(args, cfg', net')
    ensures BatchResult(args, cfg, net).Some? ==> BatchResult(args, cfg, net).value.pdpURL == url
  {
    SamePlan(args, cfg, cfg', url);
    if PlanOf(args, cfg).Some? {
      SamePlanResult(PlanOf(args, cfg).value, cfg, cfg', net, net', url);
    }
  }

  lemma SamePlan(args: Args, cfg: Config, cfg': Config, url: string)
    requires SameButURL(cfg, cfg')
    requires AskedBatchURL(args, cfg.pdpURL) == AskedBatchURL(args, cfg'.pdpURL) == Some(url)
    ensures PlanOf(args, cfg) == PlanOf(args, cfg')
    ensures PlanOf(args, cfg).Some? ==> PlanOf(args, cfg).value.endpoint == url
  {
    BatchResolvedExactly(args, cfg, url);
    BatchResolvedExactly(args, cfg', url);
    assert BatchURL(args, cfg) == BatchURL(args, cfg');
    if BatchURL(args, cfg).Some? {
      BatchResolvedExactly(args, cfg, BatchURL(args, cfg).value);
      PlanEndpoint(args, cfg.maxArgBytes, url);
    }
  }

  lemma PlanEndpoint(args: Args, maxBytes: nat, url: string)
    ensures PlanAt(args, maxBytes, url).Some? ==> PlanAt(args, maxBytes, url).value.endpoint == url
  {
  }

  lemma SamePlanResult(p: Plan, cfg: Config, cfg': Config, net: Transport, net': Transport, url: string)
    requires SameButURL(cfg, cfg') && AgreeAt(net, net', url) && p.endpoint == url
    ensures ResultOf(p, cfg, net) == ResultOf(p, cfg', net')
    ensures ResultOf(p, cfg, net).Some? ==> ResultOf(p, cfg, net).value.pdpURL == url
  {
    SameAnswer(cfg, cfg', net, net', url, RequestOf(p));
  }

  lemma DiscoverResolvedExactly(args: Args, cfg: Config)
    ensures DiscoverURL(args, cfg) ==
      var url := AskedURL(args, cfg.pdpURL);
      if url == "" then None else Endpoints.MetadataEndpoint(url)
  {
  }

  /** The same for discovery: it asks at the metadata URL of the root of the URL asked for. */
  lemma DiscoverGoesTo(args: Args, cfg: Config, cfg': Config, net: Transport, net': Transport, url: string)
    requires SameButURL(cfg, cfg')
    requires AskedURL(args, cfg.pdpURL) == AskedURL(args, cfg'.pdpURL)
    requires Endpoints.MetadataEndpoint(AskedURL(args, cfg.pdpURL)) == Some(url) && AgreeAt(net, net', url)
    ensures DiscoverResult(args, cfg, net) == DiscoverResult(args, cfg', net')
    ensures DiscoverResult(args, cfg, net).Some? ==> DiscoverResult(args, cfg, net).value.metadataURL == url
  {
    DiscoverResolvedExactly(args, cfg);
    DiscoverResolvedExactly(args, cfg');
    SameDocument(cfg, cfg', net, net', url);
    DiscoveredAt(args, cfg, net, url);
    DiscoveredAt(args, cfg', net', url);
  }

  lemma DiscoveredAt(args: Args, cfg: Config, net: Transport, url: string)
    requires DiscoverURL(args, cfg) == (if AskedURL(args, cfg.pdpURL) == "" then None else Some(url))
    ensures DiscoverResult(args, cfg, net)
         == if AskedURL(args, cfg.pdpURL) == "" then None else DiscoverAt(cfg, net, url)
  {
  }

  lemma SameDocument(cfg: Config, cfg': Config, net: Transport, net': Transport, url: string)
    requires SameButURL(cfg, cfg') && AgreeAt(net, net', url)
    ensures DiscoverAt(cfg, net, url) == DiscoverAt(cfg', net', url)
    ensures DiscoverAt(cfg, net, url).Some? ==> DiscoverAt(cfg, net, url).value.metadataURL == url
  {
    assert Asking(cfg, url) == Asking(cfg', url) && Asking(cfg, url).endpoint == url;
    assert Fetched(cfg, net, url) == Fetched(cfg', net', url);
    assert FetchedMetadata(cfg, net, url) == FetchedMetadata(cfg', net', url);
  }
}
