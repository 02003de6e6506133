/** What the AuthZEN tools guarantee, against any transport and against a PDP that serves a policy. */
module Theorems {
  import opened Wrappers
  import opened Json
  import opened JsonPrefix
  import opened JsonRoundTrip
  import opened Grammar
  import opened GoJson
  import opened Numbers
  import opened Requests
  import opened Wire
  import opened Pdp
  import opened Responses
  import opened Client
  import opened Acceptance
  import opened Strings
  import Authorization
  import Endpoints

  // ----- the response cap

  // A body decoded for each of the two tools.
  function ReadBatch(body: string): Option<Option<seq<Single>>> {
    var v :- ParseDoc(body);
    DecodeBatch(v)
  }

  function ReadSingle(body: string): Option<Single> {
    var v :- ParseDoc(body);
    DecodeSingle(v)
  }

  lemma CappedIsPrefix(body: string, cap: nat) returns (n: nat)
    ensures n <= |body| && Capped(body, cap) == body[..n]
  {
    n := if |body| <= cap then |body| else cap;
    assert body[..|body|] == body;
  }

  /** On a valid body the cap can cost the answer but never changes it. */
  lemma CapNeverChangesAnswer(body: string, cap: nat)
    requires ParseDoc(body).Some?
    ensures ReadBatch(Capped(body, cap)).None? || ReadBatch(Capped(body, cap)) == ReadBatch(body)
    ensures ReadSingle(Capped(body, cap)).None? || ReadSingle(Capped(body, cap)) == ReadSingle(body)
  {
    var n := CappedIsPrefix(body, cap);
    if ParseDoc(body[..n]).Some? {
      PrefixFree(body, n, ParseDoc(body).value, ParseDoc(body[..n]).value);
    }
  }

  // The bytes the cap removes.
  function Removed(body: string, cap: nat): string {
    if |body| <= cap then "" else body[cap..]
  }

  /**
    On any body at all, an answer obtained through the cap is the answer to the whole
    body exactly when only whitespace was removed.
   */
  lemma CapOnAnyBody(body: string, cap: nat)
    ensures ReadBatch(Capped(body, cap)).Some? ==>
      (ReadBatch(body) == ReadBatch(Capped(body, cap)) <==> AllSpace(Removed(body, cap)))
    ensures ReadSingle(Capped(body, cap)).Some? ==>
      (ReadSingle(body) == ReadSingle(Capped(body, cap)) <==> AllSpace(Removed(body, cap)))
  {
    if |body| > cap && ParseDoc(body[..cap]).Some? {
      var v := ParseDoc(body[..cap]).value;
      if !v.Number? {
        CutVersusWhole(body, cap, v);
      }
    }
  }

  /** For a body that is not JSON, the cap can turn a failure into a permit. */
  lemma CapAcceptsBrokenBody() returns (body: string, cap: nat)
    ensures 0 < cap && ReadSingle(body).None?
    ensures ReadSingle(Capped(body, cap)).Some? && ReadSingle(Capped(body, cap)).value.decision == Some(true)
  {
    var v := OneAnswer(true);
    OneAnswerIsAnswer(true);
    TextBack(v);
    OneDecoded(v, true);
    body, cap := Text(v) + " x", |Text(v)|;
    assert body[..cap] == Text(v) && body[cap..] == " x";
    assert body[cap..][1] == 'x';
    CutVersusWhole(body, cap, v);
  }

  // ----- a failure is never a decision

  // The object that a usable response holds: status 200 and JSON within the cap.
  function BodyObject(o: Outcome, cap: nat): Option<Members> {
    match o
    case Response(200, body) =>
      (match ParseDoc(Capped(body, cap))
       case Some(Object(ms)) => Some(ms)
       case _ => None)
    case _ => None
  }

  /**
    Over every transport, a batch report exists only for status 200 and a JSON object
    within the cap, and each decision in it is a boolean which that object states at
    the very index it is reported under.
   */
  lemma ReportIsFromBody(args: Args, cfg: Config, net: Transport, r: Report)
    requires BatchResult(args, cfg, net) == Some(r)
    ensures PlanOf(args, cfg).Some?
    ensures var p := PlanOf(args, cfg).value;
      var stated := BodyObject(net(Sent(cfg, p.endpoint, RequestOf(p))), cfg.pdpMaxBytes);
      && stated.Some?
      && |r.decisions| <= |p.entries|
      && (r.truncated <==> |r.decisions| < |p.entries|)
      && forall i | 0 <= i < |r.decisions| ::
           r.decisions[i].index == i && SaysAt(stated.value, i, r.decisions[i].decision)
  {
    var p := PlanOf(args, cfg).value;
    var v, ss := ReportRead(p, cfg, net, r);
    BatchIs(v, ss);
    AnsweredBody(cfg, net, p.endpoint, RequestOf(p), v);
    ReportWhenDecided(p, ss);
    forall i | 0 <= i < |r.decisions| ensures SaysAt(v.members, i, r.decisions[i].decision) {
      assert Some(r.decisions[i].decision) == ss[i].decision;
      DecisionWasSaid(v, ss, i, r.decisions[i].decision);
    }
  }

  lemma ReportRead(p: Plan, cfg: Config, net: Transport, r: Report) returns (v: Value, ss: seq<Single>)
    requires ResultOf(p, cfg, net) == Some(r)
    ensures Answered(cfg, net, p.endpoint, RequestOf(p)) == Some(v)
    ensures DecodeBatch(v) == Some(Some(ss)) && ReportOf(p, Some(ss)) == Some(r)
  {
    v := Answered(cfg, net, p.endpoint, RequestOf(p)).value;
    ss := DecodeBatch(v).value.value;
  }

  lemma AnsweredBody(cfg: Config, net: Transport, endpoint: string, body: Value, v: Value)
    requires Answered(cfg, net, endpoint, body) == Some(v) && v.Object?
    ensures BodyObject(net(Sent(cfg, endpoint, body)), cfg.pdpMaxBytes) == Some(v.members)
  {
  }

  /** The same for the single tool. */
  lemma DecisionIsFromBody(args: Args, cfg: Config, net: Transport, r: Evaluated)
    requires SingleResult(args, cfg, net) == Some(r)
    ensures ResolveEndpoint(args, cfg).Some? && ArgsOk(args, cfg.maxArgBytes, true)
    ensures var request := Sent(cfg, ResolveEndpoint(args, cfg).value, Object(SingleMembers(GivenAsk(args))));
      var stated := BodyObject(net(request), cfg.pdpMaxBytes);
      stated.Some? && SaysOne(stated.value, r.decision)
  {
    var e := ResolveEndpoint(args, cfg).value;
    SingleWasSaid(Answered(cfg, net, e, Object(SingleMembers(GivenAsk(args)))).value, r.decision);
  }

  /**
    The answer to a single call, exactly: there is one when the body states a decision,
    and it is that decision with the body's own context. This holds of every JSON object,
    repeated members included.
   */
  lemma DecisionExactly(args: Args, cfg: Config, net: Transport, endpoint: string, ms: Members)
    requires endpoint == AskedURL(args, cfg.pdpURL) && endpoint != "" && Endpoints.Parse(endpoint).Some?
    requires ArgsOk(args, cfg.maxArgBytes, true)
    requires BodyObject(net(Sent(cfg, endpoint, Object(SingleMembers(GivenAsk(args))))), cfg.pdpMaxBytes) == Some(ms)
    ensures SingleResult(args, cfg, net).Some? <==> StatesSome(Object(ms))
    ensures SingleResult(args, cfg, net).Some? ==>
      && States(Object(ms), SingleResult(args, cfg, net).value.decision)
      && SingleResult(args, cfg, net).value.context == ContextOf(Object(ms))
  {
    ResolvedExactly(args, cfg, endpoint);
    AnsweredIs(cfg, net, endpoint, Object(SingleMembers(GivenAsk(args))), ms);
    StatesExactly(Object(ms));
  }

  // What stands at each position of the last of these evaluations arrays.
  predicate StandsDecided(xs: seq<Value>, n: nat) {
    forall i | 0 <= i < n :: Standing(xs, i).decision.Some?
  }

  /**
    The report of a batch, exactly, for every JSON object: there is one when every
    evaluations member is null or an array of fillable values, the last one is an array no
    longer than the entries, and a decision stands at each of its positions. It then lists
    what stands there, decisions and contexts, all of it.
   */
  lemma ReportAlways(args: Args, cfg: Config, net: Transport, p: Plan, ms: Members)
    requires PlanOf(args, cfg) == Some(p)
    requires BodyObject(net(Sent(cfg, p.endpoint, RequestOf(p))), cfg.pdpMaxBytes) == Some(ms)
    ensures BatchResult(args, cfg, net).Some? <==>
      && AllFillable(Evaluations(ms)) && Stated(ms).Some? && |Stated(ms).value| <= |p.entries|
      && StandsDecided(Evaluations(ms), |Stated(ms).value|)
    ensures BatchResult(args, cfg, net).Some? ==>
      var decisions := BatchResult(args, cfg, net).value.decisions;
      && Stated(ms).Some? && |decisions| == |Stated(ms).value|
      && forall i | 0 <= i < |decisions| ::
           var x := Standing(Evaluations(ms), i);
           decisions[i].index == i && Some(decisions[i].decision) == x.decision && decisions[i].context == x.context
  {
    DecodedAlways(ms);
    ResultIs(args, cfg, net, p, ms);
    var d := DecodeBatch(Object(ms));
    if d.Some? && d.value.Some? {
      var ss := d.value.value;
      assert DecidedEach(ss) <==> StandsDecided(Evaluations(ms), |ss|) by {
        assert forall i | 0 <= i < |ss| :: ss[i] == Standing(Evaluations(ms), i);
      }
      ReportWhenDecided(p, ss);
    }
  }

  /**
    The report of a batch, exactly, for every JSON object with at most one evaluations
    member: there is one when that member is an array, no longer than the entries, whose
    every element states a decision. It then lists those decisions, all of them, each with
    the element's own context. One missing decision, or one too many, and there is none.
   */
  lemma ReportExactly(args: Args, cfg: Config, net: Transport, p: Plan, ms: Members)
    requires PlanOf(args, cfg) == Some(p) && AtMostOne(ms, "evaluations")
    requires BodyObject(net(Sent(cfg, p.endpoint, RequestOf(p))), cfg.pdpMaxBytes) == Some(ms)
    ensures BatchResult(args, cfg, net).Some? <==>
      && Stated(ms).Some? && |Stated(ms).value| <= |p.entries|
      && forall v | v in Stated(ms).value :: StatesSome(v)
    ensures BatchResult(args, cfg, net).Some? ==>
      var decisions := BatchResult(args, cfg, net).value.decisions;
      && Stated(ms).Some? && |decisions| == |Stated(ms).value|
      && forall i | 0 <= i < |decisions| ::
           && decisions[i].index == i && States(Stated(ms).value[i], decisions[i].decision)
           && decisions[i].context == ContextOf(Stated(ms).value[i])
  {
    DecodedExactly(ms);
    ResultIs(args, cfg, net, p, ms);
    var d := DecodeBatch(Object(ms));
    if d.Some? && d.value.Some? {
      ReportWhenDecided(p, d.value.value);
    }
  }

  /**
    The report of a batch for every JSON object, repeated members included: it lists as
    many decisions as the last evaluations member has elements, and decision i is the one
    that element i states exactly when that element has a decision at all.
   */
  lemma ReportFollowsLast(args: Args, cfg: Config, net: Transport, p: Plan, ms: Members, r: Report)
    requires PlanOf(args, cfg) == Some(p) && BatchResult(args, cfg, net) == Some(r)
    requires BodyObject(net(Sent(cfg, p.endpoint, RequestOf(p))), cfg.pdpMaxBytes) == Some(ms)
    ensures Stated(ms).Some? && |r.decisions| == |Stated(ms).value|
    ensures forall i | 0 <= i < |r.decisions| ::
              States(Stated(ms).value[i], r.decisions[i].decision) <==> HasDecision(Stated(ms).value[i])
  {
    ResultIs(args, cfg, net, p, ms);
    var ss := DecodeBatch(Object(ms)).value.value;
    ReportWhenDecided(p, ss);
    LastStatedExactly(ms, ss);
    forall i | 0 <= i < |ss| ensures r.decisions[i].decision == ss[i].decision.value {
      assert Some(r.decisions[i].decision) == ss[i].decision;
    }
  }

  lemma ResultIs(args: Args, cfg: Config, net: Transport, p: Plan, ms: Members)
    requires PlanOf(args, cfg) == Some(p)
    requires BodyObject(net(Sent(cfg, p.endpoint, RequestOf(p))), cfg.pdpMaxBytes) == Some(ms)
    ensures var d := DecodeBatch(Object(ms));
      BatchResult(args, cfg, net) == if d.Some? then ReportOf(p, d.value) else None
  {
    AnsweredIs(cfg, net, p.endpoint, RequestOf(p), ms);
    assert BatchResult(args, cfg, net) == ResultOf(p, cfg, net);
  }

  lemma AnsweredIs(cfg: Config, net: Transport, endpoint: string, body: Value, ms: Members)
    requires BodyObject(net(Sent(cfg, endpoint, body)), cfg.pdpMaxBytes) == Some(ms)
    ensures Answered(cfg, net, endpoint, body) == Some(Object(ms))
  {
  }

  lemma ReportWhenDecided(p: Plan, ss: seq<Single>)
    ensures ReportOf(p, Some(ss)).Some? <==> |ss| <= |p.entries| && DecidedEach(ss)
    ensures ReportOf(p, Some(ss)).Some? ==>
      var decisions := ReportOf(p, Some(ss)).value.decisions;
      && |decisions| == |ss|
      && (ReportOf(p, Some(ss)).value.truncated <==> |ss| < |p.entries|)
      && forall i | 0 <= i < |ss| ::
           && decisions[i].index == i && Some(decisions[i].decision) == ss[i].decision
           && decisions[i].context == ss[i].context
  {
    if exists i | 0 <= i < |ss| :: ss[i].decision.None? {
      assert ReportOf(p, Some(ss)).None? && !DecidedEach(ss);
    } else {
      assert DecidedEach(ss);
      forall i | 0 <= i < |ss| ensures Some(ss[i].decision == Some(true)) == ss[i].decision {
        assert ss[i].decision == if ss[i].decision.value then Some(true) else Some(false);
      }
    }
  }

  /**
    A discovered document comes from status 200 and a JSON object within the cap, and
    every string in it is one that the object states under its name; among them a
    non-empty evaluation endpoint. It was asked for at the metadata URL of the root.
   */
  lemma DiscoveryIsFromBody(args: Args, cfg: Config, net: Transport, r: Discovered)
    requires DiscoverResult(args, cfg, net) == Some(r)
    ensures DiscoverURL(args, cfg) == Some(r.metadataURL)
    ensures var stated := BodyObject(net(Asking(cfg, r.metadataURL)), cfg.pdpMaxBytes);
      && stated.Some?
      && (forall n :: StringField(r.metadata, n) != "" ==>
            SaysString(stated.value, n, StringField(r.metadata, n)))
      && StringField(r.metadata, EVALUATION_ENDPOINT) != ""
  {
    Discovery(args, cfg, net, r);
    var v := Fetched(cfg, net, r.metadataURL).value;
    MetadataSaid(v, EVALUATION_ENDPOINT);
    FetchedBody(cfg, net, r.metadataURL, v);
    forall n | StringField(r.metadata, n) != "" ensures SaysString(v.members, n, StringField(r.metadata, n)) {
      MetadataSaid(v, n);
    }
  }

  lemma Discovery(args: Args, cfg: Config, net: Transport, r: Discovered)
    requires DiscoverResult(args, cfg, net) == Some(r)
    ensures DiscoverURL(args, cfg) == Some(r.metadataURL)
    ensures Fetched(cfg, net, r.metadataURL).Some?
    ensures DecodeMetadata(Fetched(cfg, net, r.metadataURL).value) == Some(r.metadata)
    ensures StringField(r.metadata, EVALUATION_ENDPOINT) != ""
  {
    var url := DiscoverURL(args, cfg).value;
    assert DiscoverAt(cfg, net, url) == Some(r);
    DocumentAt(cfg, net, url, r);
  }

  lemma DocumentAt(cfg: Config, net: Transport, url: string, r: Discovered)
    requires DiscoverAt(cfg, net, url) == Some(r)
    ensures r.metadataURL == url && Fetched(cfg, net, url).Some?
    ensures DecodeMetadata(Fetched(cfg, net, url).value) == Some(r.metadata)
    ensures StringField(r.metadata, EVALUATION_ENDPOINT) != ""
  {
  }

  lemma FetchedBody(cfg: Config, net: Transport, url: string, v: Value)
    requires Fetched(cfg, net, url) == Some(v) && v.Object?
    ensures BodyObject(net(Asking(cfg, url)), cfg.pdpMaxBytes) == Some(v.members)
  {
  }

  // ----- a batch against a PDP that serves a policy

  // What the client takes each entry to ask.
  function AskFor(entry: Value, defaults: Ask): Ask {
    if entry.Object? then Effective(entry.members, defaults) else defaults
  }

  function Asks(p: Plan): (asks: seq<Ask>)
    ensures |asks| == |p.entries|
  {
    seq(|p.entries|, i requires 0 <= i < |p.entries| => AskFor(p.entries[i], p.defaults))
  }

  // The policy's decision on every entry.
  function Decisions(policy: Policy, p: Plan): (ds: seq<bool>)
    ensures |ds| == |p.entries|
  {
    Decide(policy, Asks(p))
  }

  // Every entry is read alike by the client and by an exact reader.
  predicate EntriesAlike(p: Plan) { forall e | e in p.entries :: ReadAlike(e, p.defaults) }

  lemma PlanFacts(args: Args, cfg: Config, p: Plan)
    requires PlanOf(args, cfg) == Some(p)
    ensures 1 <= |p.entries| <= MAX_BATCH
    ensures p.semantic in SEMANTICS && p.semantic != "" && CleanName(p.semantic)
    ensures Sendable(p.defaults) && Fits(p.defaults, cfg.maxArgBytes) && Convertible(p.defaults)
    ensures forall e | e in p.entries ::
              EntryOk(e, p.defaults) && WellFormed(e) && |Text(e)| <= cfg.maxArgBytes
  {
    DefaultsSendable(args, cfg.maxArgBytes, false);
    forall e | e in p.entries ensures WellFormed(e) && |Text(e)| <= cfg.maxArgBytes {
      EntriesSendable(args, cfg.maxArgBytes, e);
    }
    SemanticsClean(p.semantic);
  }

  lemma SemanticsClean(s: string)
    requires s in SEMANTICS
    ensures s != "" && CleanName(s)
  {
    assert s == EXECUTE_ALL || s == DENY_ON_FIRST_DENY || s == PERMIT_ON_FIRST_PERMIT;
  }

  /** The PDP decides exactly the evaluations that the client validated. */
  lemma DecidedAsValidated(p: Plan, policy: Policy)
    requires p.semantic != "" && EntriesAlike(p) && forall e | e in p.entries :: e.Object?
    ensures var ds := Decisions(policy, p);
      BatchDecisions(policy, Compact(RequestOf(p))) == ds[..Stop(p.semantic, ds)]
  {
    SemanticSeen(p.defaults, p.entries, p.semantic);
    SeenAsValidated(p, policy);
  }

  lemma EarlyExitNever()
    ensures EXECUTE_ALL != DENY_ON_FIRST_DENY && EXECUTE_ALL != PERMIT_ON_FIRST_PERMIT && EXECUTE_ALL != ""
  {
    assert EXECUTE_ALL[0] == 'e' && DENY_ON_FIRST_DENY[0] == 'd' && PERMIT_ON_FIRST_PERMIT[0] == 'p';
  }

  // What the policy says of every evaluation as the PDP reads it, before any early exit.
  function Seen(policy: Policy, p: Plan): seq<bool> { Decide(policy, EntryAsks(Compact(RequestOf(p)))) }

  /**
    Reading every entry alike is what it takes for every policy to be asked what was
    validated, under each semantic; under execute_all, also for it to decide so.
   */
  lemma DecidedAsValidatedExactly(p: Plan)
    requires forall e | e in p.entries :: e.Object?
    ensures (forall policy :: Seen(policy, p) == Decisions(policy, p)) <==> EntriesAlike(p)
    ensures p.semantic == EXECUTE_ALL ==>
      ((forall policy :: BatchDecisions(policy, Compact(RequestOf(p))) == Decisions(policy, p)) <==> EntriesAlike(p))
  {
    if EntriesAlike(p) {
      forall policy ensures Seen(policy, p) == Decisions(policy, p) {
        SeenAsValidated(p, policy);
      }
    } else {
      var i :| 0 <= i < |p.entries| && !ReadAlike(p.entries[i], p.defaults);
      var policy := UnlikeSeen(p, i);
    }
    forall policy | p.semantic == EXECUTE_ALL
      ensures BatchDecisions(policy, Compact(RequestOf(p))) == Seen(policy, p)
    {
      AllDecided(p, policy);
    }
  }

  lemma SeenAsValidated(p: Plan, policy: Policy)
    requires EntriesAlike(p) && forall e | e in p.entries :: e.Object?
    ensures Seen(policy, p) == Decisions(policy, p)
  {
    AllSentAlike(p);
  }

  lemma AllDecided(p: Plan, policy: Policy)
    requires p.semantic == EXECUTE_ALL
    ensures BatchDecisions(policy, Compact(RequestOf(p))) == Seen(policy, p)
  {
    EarlyExitNever();
    SemanticSeen(p.defaults, p.entries, p.semantic);
    assert Seen(policy, p)[..|Seen(policy, p)|] == Seen(policy, p);
  }

  lemma OneEntrySeen(p: Plan, policy: Policy, i: nat)
    requires i < |p.entries|
    ensures |Seen(policy, p)| == |p.entries|
    ensures Seen(policy, p)[i] == policy(AskMeaning(EntryAsk(Compact(RequestOf(p)), Compact(p.entries[i]))))
  {
    EntriesSeen(p.defaults, p.entries, p.semantic);
  }

  // A policy that tells what was validated from what the PDP takes the entry to ask.
  lemma UnlikeSeen(p: Plan, i: nat) returns (policy: Policy)
    requires i < |p.entries| && p.entries[i].Object? && !ReadAlike(p.entries[i], p.defaults)
    ensures Seen(policy, p) != Decisions(policy, p)
  {
    policy := a => a == AskMeaning(Asks(p)[i]);
    OneEntrySeen(p, policy, i);
    EntrySeen(p.entries[i], p.defaults, p.entries, p.semantic);
    assert Decisions(policy, p)[i];
  }

  // ----- what is sent is complete

  // The context of every evaluation is absent or an object.
  predicate ObjectContexts(p: Plan) { forall a | a in Asks(p) :: ObjectContext(a) }

  // What makes a request complete, given what its entries are read as.
  lemma CompleteWhen(v: Value, asks: seq<Ask>)
    requires |EntriesOf(v)| == |asks| && asks != [] && SemanticOf(v) in SEMANTICS
    requires forall i | 0 <= i < |asks| ::
               EntriesOf(v)[i].Object? && AskMeaning(EntryAsks(v)[i]) == AskMeaning(asks[i])
    ensures CompleteBatch(v) <==> forall a | a in asks :: Complete(a)
    ensures BatchContexts(v) <==> forall a | a in asks :: ObjectContext(a)
  {
    forall i | 0 <= i < |asks|
      ensures CompleteAsk(EntryAsk(v, EntriesOf(v)[i])) <==> Complete(asks[i])
      ensures ObjectContext(EntryAsk(v, EntriesOf(v)[i])) <==> ObjectContext(asks[i])
    {
      CompleteExactly(EntryAsk(v, EntriesOf(v)[i]));
      assert EntryAsks(v)[i] == EntryAsk(v, EntriesOf(v)[i]);
      CompleteMeaning(EntryAsk(v, EntriesOf(v)[i]));
      CompleteMeaning(asks[i]);
    }
  }

  lemma SentShape(p: Plan)
    requires p.semantic in SEMANTICS && forall e | e in p.entries :: e.Object?
    ensures var v := Compact(RequestOf(p));
      && |EntriesOf(v)| == |p.entries| && SemanticOf(v) in SEMANTICS
      && forall i | 0 <= i < |p.entries| :: EntriesOf(v)[i].Object?
  {
    SemanticsClean(p.semantic);
    EntriesSeen(p.defaults, p.entries, p.semantic);
    SemanticSeen(p.defaults, p.entries, p.semantic);
    forall i | 0 <= i < |p.entries| ensures EntriesOf(Compact(RequestOf(p)))[i].Object? {
      assert p.entries[i] in p.entries;
    }
  }

  // The entries as an exact reader takes them.
  function ExactAsks(p: Plan): (asks: seq<Ask>)
    ensures |asks| == |p.entries|
  {
    seq(|p.entries|, i requires 0 <= i < |p.entries| => ReadExactly(p.entries[i], p.defaults))
  }

  lemma SentExactly(p: Plan, i: nat)
    requires i < |p.entries| && p.entries[i].Object?
    ensures |EntryAsks(Compact(RequestOf(p)))| == |p.entries|
    ensures AskMeaning(EntryAsks(Compact(RequestOf(p)))[i]) == AskMeaning(ExactAsks(p)[i])
  {
    EntriesSeen(p.defaults, p.entries, p.semantic);
    ExactlySeen(p.entries[i], p.defaults, p.entries, p.semantic);
  }

  lemma SentAlike(p: Plan, i: nat)
    requires i < |p.entries| && p.entries[i].Object? && ReadAlike(p.entries[i], p.defaults)
    ensures |EntryAsks(Compact(RequestOf(p)))| == |p.entries|
    ensures AskMeaning(EntryAsks(Compact(RequestOf(p)))[i]) == AskMeaning(Asks(p)[i])
  {
    EntriesSeen(p.defaults, p.entries, p.semantic);
    EntrySeen(p.entries[i], p.defaults, p.entries, p.semantic);
  }

  /**
    The request that an accepted call sends is complete, as the PDP reads it, exactly when
    each entry is complete over the defaults with its names matched exactly; and so for
    the contexts.
   */
  lemma SentCompleteExactly(args: Args, cfg: Config, p: Plan)
    requires PlanOf(args, cfg) == Some(p)
    ensures CompleteBatch(Compact(RequestOf(p))) <==> forall a | a in ExactAsks(p) :: Complete(a)
    ensures BatchContexts(Compact(RequestOf(p))) <==> forall a | a in ExactAsks(p) :: ObjectContext(a)
  {
    PlanFacts(args, cfg, p);
    SentShape(p);
    AllSentExactly(p);
    CompleteWhen(Compact(RequestOf(p)), ExactAsks(p));
  }

  lemma AllSentExactly(p: Plan)
    requires forall e | e in p.entries :: e.Object?
    ensures |EntryAsks(Compact(RequestOf(p)))| == |p.entries|
    ensures forall i | 0 <= i < |p.entries| ::
              AskMeaning(EntryAsks(Compact(RequestOf(p)))[i]) == AskMeaning(ExactAsks(p)[i])
  {
    EntriesSeen(p.defaults, p.entries, p.semantic);
    forall i | 0 <= i < |p.entries|
      ensures AskMeaning(EntryAsks(Compact(RequestOf(p)))[i]) == AskMeaning(ExactAsks(p)[i])
    {
      SentExactly(p, i);
    }
  }

  /**
    When every entry is read alike, the request is complete; and its contexts are objects
    exactly when those of the evaluations are, which the client does not check.
   */
  lemma SentComplete(args: Args, cfg: Config, p: Plan)
    requires PlanOf(args, cfg) == Some(p) && EntriesAlike(p)
    ensures CompleteBatch(Compact(RequestOf(p)))
    ensures BatchContexts(Compact(RequestOf(p))) <==> ObjectContexts(p)
  {
    PlanFacts(args, cfg, p);
    SentShape(p);
    AllSentAlike(p);
    CompleteWhen(Compact(RequestOf(p)), Asks(p));
    AsksComplete(args, cfg, p);
  }

  lemma AllSentAlike(p: Plan)
    requires EntriesAlike(p) && forall e | e in p.entries :: e.Object?
    ensures |EntryAsks(Compact(RequestOf(p)))| == |p.entries|
    ensures forall i | 0 <= i < |p.entries| ::
              AskMeaning(EntryAsks(Compact(RequestOf(p)))[i]) == AskMeaning(Asks(p)[i])
  {
    EntriesSeen(p.defaults, p.entries, p.semantic);
    forall i | 0 <= i < |p.entries|
      ensures AskMeaning(EntryAsks(Compact(RequestOf(p)))[i]) == AskMeaning(Asks(p)[i])
    {
      SentAlike(p, i);
    }
  }

  lemma AsksComplete(args: Args, cfg: Config, p: Plan)
    requires PlanOf(args, cfg) == Some(p)
    ensures forall a | a in Asks(p) :: Complete(a)
  {
    forall i | 0 <= i < |p.entries| ensures Complete(Asks(p)[i]) {
      EffectiveOk(args, cfg, p, i);
    }
  }

  // The request a plan is sent as, and the transport's reply.
  function Posted(p: Plan, cfg: Config): HttpRequest { Sent(cfg, p.endpoint, RequestOf(p)) }

  function Reply(p: Plan, cfg: Config, net: Transport): Outcome { net(Posted(p, cfg)) }

  lemma RequestArrives(args: Args, cfg: Config, p: Plan)
    requires PlanOf(args, cfg) == Some(p)
    ensures ParseDoc(Posted(p, cfg).body) == Some(Compact(RequestOf(p)))
    ensures Spells(Posted(p, cfg).body, Compact(RequestOf(p)))
  {
    PlanFacts(args, cfg, p);
    BatchWellFormed(p.defaults, p.entries, p.semantic);
    MarshalBack(RequestOf(p));
    DocExactly(Posted(p, cfg).body, Compact(RequestOf(p)));
  }

  /**
    The wire round trip. The bytes sent for a batch are one JSON object. Each default
    means there what its argument meant, and is absent when the argument was; entry i
    means what entry i of the argument meant; and the semantic is the one asked for.
   */
  lemma BatchRoundTrip(args: Args, cfg: Config, p: Plan)
    requires PlanOf(args, cfg) == Some(p)
    ensures ParseDoc(Posted(p, cfg).body).Some? && ParseDoc(Posted(p, cfg).body).value.Object?
    ensures var sent := ParseDoc(Posted(p, cfg).body).value;
      && (forall n | IsPart(n) :: OptionMeaning(Member(sent, n)) == OptionMeaning(Part(p.defaults, n)))
      && |EntriesOf(sent)| == |p.entries|
      && (forall i | 0 <= i < |p.entries| :: Meaning(EntriesOf(sent)[i]) == Meaning(p.entries[i]))
      && SemanticOf(sent) == p.semantic
  {
    RequestArrives(args, cfg, p);
    PlanFacts(args, cfg, p);
    EntriesSeen(p.defaults, p.entries, p.semantic);
    SemanticSeen(p.defaults, p.entries, p.semantic);
    var sent := Compact(RequestOf(p));
    forall n | IsPart(n) ensures OptionMeaning(Member(sent, n)) == OptionMeaning(Part(p.defaults, n)) {
      DefaultSeen(p, n);
    }
    forall i | 0 <= i < |p.entries| ensures Meaning(EntriesOf(sent)[i]) == Meaning(p.entries[i]) {
      CompactMeaning(p.entries[i]);
    }
  }

  lemma DefaultSeen(p: Plan, n: string)
    requires IsPart(n)
    ensures OptionMeaning(Member(Compact(RequestOf(p)), n)) == OptionMeaning(Part(p.defaults, n))
  {
    var top := BatchMembers(p.defaults, p.entries, p.semantic);
    BatchField(p.defaults, p.entries, p.semantic, n);
    MemberSeen(top, n);
  }

  lemma MemberSeen(ms: Members, n: string)
    ensures OptionMeaning(Member(Compact(Object(ms)), n)) == OptionMeaning(Field(ms, n, Exact))
  {
    CompactField(ms, n, Exact);
    CompactOptionMeaning(Field(ms, n, Exact));
  }

  // The header that every request is sent with.
  function Credentials(cfg: Config): Option<string> { Authorization.Header(cfg.pdpToken) }

  lemma ReplyAnswers(args: Args, cfg: Config, net: Transport, policy: Policy, p: Plan)
    requires PlanOf(args, cfg) == Some(p) && ServesBatch(policy, net, p.endpoint, Credentials(cfg))
    requires CompleteBatch(Compact(RequestOf(p)))
    ensures Succeeded(Reply(p, cfg, net)) ==>
      Answering(Reply(p, cfg, net), BatchDecisions(policy, Compact(RequestOf(p))))
    ensures BatchContexts(Compact(RequestOf(p))) ==> Succeeded(Reply(p, cfg, net))
  {
    RequestArrives(args, cfg, p);
    assert BatchServed(policy, Posted(p, cfg), net(Posted(p, cfg)));
  }

  // The report that states exactly the first n decisions of ds.
  predicate Reports(r: Report, p: Plan, ds: seq<bool>, n: nat) {
    && n <= |ds|
    && |r.decisions| == n
    && (forall i | 0 <= i < n :: r.decisions[i].index == i && r.decisions[i].decision == ds[i])
    && (r.truncated <==> n < |p.entries|)
    && r.semantic == p.semantic && r.pdpURL == p.endpoint
  }

  lemma ReportOfDecisions(p: Plan, ss: seq<Single>, ds: seq<bool>, n: nat)
    requires n <= |ds| == |p.entries| && |ss| == n
    requires forall i | 0 <= i < n :: ss[i].decision == Some(ds[..n][i])
    ensures ReportOf(p, Some(ss)).Some? && Reports(ReportOf(p, Some(ss)).value, p, ds, n)
  {
  }

  lemma AnswerReported(p: Plan, body: string, cap: nat, ds: seq<bool>, n: nat, v: Value)
    requires n <= |ds| == |p.entries|
    requires Spells(body, v) && AnswersAll(v, ds[..n])
    ensures var read := ReadBatch(Capped(body, cap));
      && (read.Some? ==> ReportOf(p, read.value).Some? && Reports(ReportOf(p, read.value).value, p, ds, n))
      && (|body| <= cap ==> read.Some?)
  {
    DocExactly(body, v);
    AllDecoded(v, ds[..n]);
    CapNeverChangesAnswer(body, cap);
    ReportOfDecisions(p, ReadBatch(body).value.value, ds, n);
  }

  /**
    End to end: the report lists (i, policy of entry i over the defaults) up to the
    semantic's stopping point, and says it is truncated exactly when that point comes
    before the last entry. There is one whenever the PDP replies with status 200 and the
    cap does not cut the reply; and it does so when every context is an object.
   */
  lemma BatchEndToEnd(args: Args, cfg: Config, net: Transport, policy: Policy, p: Plan)
    requires PlanOf(args, cfg) == Some(p) && EntriesAlike(p)
    requires ServesBatch(policy, net, p.endpoint, Credentials(cfg))
    ensures BatchResult(args, cfg, net).Some? ==>
      Reports(BatchResult(args, cfg, net).value, p, Decisions(policy, p), Stop(p.semantic, Decisions(policy, p)))
    ensures Succeeded(Reply(p, cfg, net)) && |Reply(p, cfg, net).body| <= cfg.pdpMaxBytes
        ==> BatchResult(args, cfg, net).Some?
    ensures ObjectContexts(p) ==> Succeeded(Reply(p, cfg, net))
  {
    var ds := Decisions(policy, p);
    PlanFacts(args, cfg, p);
    SentComplete(args, cfg, p);
    DecidedAsValidated(p, policy);
    DecidedIsReported(args, cfg, net, policy, p, ds, Stop(p.semantic, ds));
  }

  // The report is of what the PDP decides on the request it received.
  lemma DecidedIsReported(args: Args, cfg: Config, net: Transport, policy: Policy, p: Plan, ds: seq<bool>, n: nat)
    requires PlanOf(args, cfg) == Some(p) && ServesBatch(policy, net, p.endpoint, Credentials(cfg))
    requires CompleteBatch(Compact(RequestOf(p)))
    requires n <= |ds| == |p.entries| && BatchDecisions(policy, Compact(RequestOf(p))) == ds[..n]
    ensures BatchResult(args, cfg, net).Some? ==> Reports(BatchResult(args, cfg, net).value, p, ds, n)
    ensures Succeeded(Reply(p, cfg, net)) && |Reply(p, cfg, net).body| <= cfg.pdpMaxBytes
        ==> BatchResult(args, cfg, net).Some?
    ensures BatchContexts(Compact(RequestOf(p))) ==> Succeeded(Reply(p, cfg, net))
  {
    ReplyAnswers(args, cfg, net, policy, p);
    if Succeeded(Reply(p, cfg, net)) {
      var v :| Spells(Reply(p, cfg, net).body, v) && AnswersAll(v, ds[..n]);
      AnswerReported(p, Reply(p, cfg, net).body, cfg.pdpMaxBytes, ds, n, v);
      ResultOfReply(p, cfg, net, Reply(p, cfg, net).body);
    } else {
      assert Answered(cfg, net, p.endpoint, RequestOf(p)).None?;
    }
  }

  lemma ResultOfReply(p: Plan, cfg: Config, net: Transport, body: string)
    requires Reply(p, cfg, net) == Response(200, body)
    ensures var read := ReadBatch(Capped(body, cfg.pdpMaxBytes));
      ResultOf(p, cfg, net) == if read.Some? then ReportOf(p, read.value) else None
  {
  }

  /** The last reported decision settles the conjunction, or the disjunction, over all entries. */
  lemma ReportSettlesAll(args: Args, cfg: Config, net: Transport, policy: Policy, p: Plan, r: Report)
    requires PlanOf(args, cfg) == Some(p) && EntriesAlike(p)
    requires ServesBatch(policy, net, p.endpoint, Credentials(cfg))
    requires BatchResult(args, cfg, net) == Some(r)
    ensures r.decisions != []
    ensures var last := r.decisions[|r.decisions| - 1].decision;
      && (p.semantic == DENY_ON_FIRST_DENY ==> (last <==> false !in Decisions(policy, p)))
      && (p.semantic == PERMIT_ON_FIRST_PERMIT ==> (last <==> true in Decisions(policy, p)))
      && (r.truncated ==> p.semantic != EXECUTE_ALL && last == (p.semantic == PERMIT_ON_FIRST_PERMIT))
    ensures p.semantic != EXECUTE_ALL ==>
      forall i | 0 <= i < |r.decisions| - 1 :: r.decisions[i].decision == (p.semantic == DENY_ON_FIRST_DENY)
  {
    PlanFacts(args, cfg, p);
    BatchEndToEnd(args, cfg, net, policy, p);
    StopSettlesAll(p, Decisions(policy, p), r);
  }

  lemma StopSettlesAll(p: Plan, ds: seq<bool>, r: Report)
    requires p.semantic in SEMANTICS && ds != [] && |ds| == |p.entries|
    requires Reports(r, p, ds, Stop(p.semantic, ds))
    ensures r.decisions != []
    ensures var last := r.decisions[|r.decisions| - 1].decision;
      && (p.semantic == DENY_ON_FIRST_DENY ==> (last <==> false !in ds))
      && (p.semantic == PERMIT_ON_FIRST_PERMIT ==> (last <==> true in ds))
      && (r.truncated ==> p.semantic != EXECUTE_ALL && last == (p.semantic == PERMIT_ON_FIRST_PERMIT))
    ensures p.semantic != EXECUTE_ALL ==>
      forall i | 0 <= i < |r.decisions| - 1 :: r.decisions[i].decision == (p.semantic == DENY_ON_FIRST_DENY)
  {
    EarlyExit(ds, p.semantic);
    assert p.semantic == EXECUTE_ALL || p.semantic == DENY_ON_FIRST_DENY || p.semantic == PERMIT_ON_FIRST_PERMIT;
  }

  // ----- the loop that a batch replaces

  // An argument given as the compact text of its tree, or not at all.
  function Put(args: Args, name: string, v: Option<Value>): Args {
    if v.Some? then args[name := Text(v.value)] else args
  }

  // The arguments that give the parts of a, beside those in rest.
  function AskArgs(a: Ask, rest: Args): Args {
    Put(Put(Put(Put(rest, "subject", a.subject), "action", a.action), "resource", a.resource), "context", a.context)
  }

  // The arguments of authzen_evaluate for one evaluation, without a pdp_url.
  function LoopArgs(a: Ask): Args { AskArgs(a, map[]) }

  lemma OtherArg(a: Ask, rest: Args, n: string)
    requires !IsPart(n)
    ensures GetString(AskArgs(a, rest), n, "") == GetString(rest, n, "")
    ensures n in rest ==> n in AskArgs(a, rest) && AskArgs(a, rest)[n] == rest[n]
  {
  }

  // The argument n gives part n of a.
  predicate Gives(args: Args, a: Ask, n: string)
    requires IsPart(n)
  {
    && Given(args, n) == Part(a, n)
    && GetString(args, n, "") == (if Part(a, n).Some? then Text(Part(a, n).value) else "")
    && (Part(a, n).Some? ==> GetString(args, n, "") != "")
  }

  lemma AskArg(a: Ask, rest: Args, n: string)
    requires IsPart(n) && n !in rest && Sendable(a)
    ensures Gives(AskArgs(a, rest), a, n)
  {
    NamesDiffer();
    if Part(a, n).Some? {
      TextBack(Part(a, n).value);
      FirstByte(Part(a, n).value);
    }
  }

  lemma PartAccepted(args: Args, a: Ask, n: string, maxBytes: nat, required: bool)
    requires IsPart(n) && Gives(args, a, n) && (required ==> Part(a, n).Some?)
    requires Part(a, n).Some? ==> |Text(Part(a, n).value)| <= maxBytes
    ensures Acceptable(args, n, maxBytes, required)
       <==> (Part(a, n).Some? ==> Part(a, n).value.Object? && InRange(Part(a, n).value))
  {
  }

  lemma GivenBy(args: Args, a: Ask)
    requires forall n | IsPart(n) :: Gives(args, a, n)
    ensures GivenAsk(args) == a
  {
    NamesDiffer();
    assert Gives(args, a, "subject") && Gives(args, a, "action") && Gives(args, a, "resource");
    assert Gives(args, a, "context");
  }

  lemma AskAccepted(args: Args, a: Ask, maxBytes: nat, required: bool)
    requires forall n | IsPart(n) :: Gives(args, a, n)
    requires Fits(a, maxBytes) && if required then Complete(a) else Valid(a)
    ensures GivenAsk(args) == a
    ensures ArgsOk(args, maxBytes, required) <==> ObjectContext(a) && Convertible(a)
  {
    NamesDiffer();
    GivenBy(args, a);
    PartAccepted(args, a, "subject", maxBytes, required);
    PartAccepted(args, a, "action", maxBytes, required);
    PartAccepted(args, a, "resource", maxBytes, required);
    PartAccepted(args, a, "context", maxBytes, false);
    ValidEntitiesAreObjects(a);
  }

  /**
    An evaluation passes the single tool's own checks, byte limit included, exactly when
    its context is absent or an object and its numbers are in range. The latter holds of
    every evaluation of an accepted batch (EffectiveOk).
   */
  lemma LoopArgsAccepted(a: Ask, maxBytes: nat)
    requires Complete(a) && Sendable(a) && Fits(a, maxBytes)
    ensures GivenAsk(LoopArgs(a)) == a
    ensures ArgsOk(LoopArgs(a), maxBytes, true) <==> ObjectContext(a) && Convertible(a)
  {
    forall n | IsPart(n) ensures Gives(LoopArgs(a), a, n) {
      AskArg(a, map[], n);
    }
    AskAccepted(LoopArgs(a), a, maxBytes, true);
  }

  lemma EffectiveOk(args: Args, cfg: Config, p: Plan, i: nat)
    requires PlanOf(args, cfg) == Some(p) && i < |p.entries|
    ensures var a := AskFor(p.entries[i], p.defaults);
      Complete(a) && Sendable(a) && Fits(a, cfg.maxArgBytes) && Convertible(a)
  {
    PlanFacts(args, cfg, p);
    AskForOk(p.entries[i], p.defaults, cfg.maxArgBytes);
  }

  lemma AskForOk(entry: Value, defaults: Ask, maxBytes: nat)
    requires EntryOk(entry, defaults) && WellFormed(entry) && |Text(entry)| <= maxBytes
    requires Sendable(defaults) && Fits(defaults, maxBytes) && Convertible(defaults)
    ensures var a := AskFor(entry, defaults);
      Complete(a) && Sendable(a) && Fits(a, maxBytes) && Convertible(a)
  {
    EffectiveConvertible(entry.members, defaults);
    EffectiveSendable(entry.members, defaults, maxBytes);
  }

  // The request and the reply for one evaluation.
  function Asked(a: Ask, cfg: Config, endpoint: string): HttpRequest {
    Sent(cfg, endpoint, Object(SingleMembers(a)))
  }

  lemma AskArrives(a: Ask, cfg: Config, endpoint: string) returns (received: Value)
    requires a.subject.Some? && a.action.Some? && a.resource.Some? && Sendable(a)
    ensures Spells(Asked(a, cfg, endpoint).body, received)
    ensures AskMeaning(AskOf(received)) == AskMeaning(a)
  {
    received := Compact(Object(SingleMembers(a)));
    SingleWellFormed(a);
    MarshalBack(Object(SingleMembers(a)));
    DocExactly(Asked(a, cfg, endpoint).body, received);
    SingleSeen(a);
  }

  lemma OneAnswerRead(body: string, cap: nat, d: bool, v: Value)
    requires Spells(body, v) && AnswersOne(v, d)
    ensures var read := ReadSingle(Capped(body, cap));
      (read.Some? ==> read.value.decision == Some(d)) && (|body| <= cap ==> read.Some?)
  {
    DocExactly(body, v);
    OneDecoded(v, d);
    CapNeverChangesAnswer(body, cap);
  }

  /** End to end for the single tool: the PDP's decision on the arguments, or an error. */
  lemma SingleEndToEnd(args: Args, cfg: Config, net: Transport, policy: Policy, endpoint: string)
    requires endpoint == AskedURL(args, cfg.pdpURL) && endpoint != "" && Endpoints.Parse(endpoint).Some?
    requires ArgsOk(args, cfg.maxArgBytes, true)
    requires ServesOne(policy, net, endpoint, Credentials(cfg))
    ensures SingleResult(args, cfg, net).Some? ==>
      SingleResult(args, cfg, net).value.decision == policy(AskMeaning(GivenAsk(args)))
    ensures Succeeded(net(Asked(GivenAsk(args), cfg, endpoint)))
    ensures |net(Asked(GivenAsk(args), cfg, endpoint)).body| <= cfg.pdpMaxBytes
        ==> SingleResult(args, cfg, net).Some?
  {
    var a := GivenAsk(args);
    ResolvedExactly(args, cfg, endpoint);
    DefaultsSendable(args, cfg.maxArgBytes, true);
    GivenComplete(args, cfg.maxArgBytes);
    AskAnswered(a, cfg, net, policy, endpoint);
    var body := net(Asked(a, cfg, endpoint)).body;
    SingleResultIs(args, cfg, net, endpoint, body);
  }

  // What the single tool accepts is complete, and its context an object.
  lemma GivenComplete(args: Args, maxBytes: nat)
    requires ArgsOk(args, maxBytes, true)
    ensures Complete(GivenAsk(args)) && ObjectContext(GivenAsk(args))
  {
  }

  lemma AskAnswered(a: Ask, cfg: Config, net: Transport, policy: Policy, endpoint: string)
    requires Complete(a) && ObjectContext(a) && Sendable(a)
    requires ServesOne(policy, net, endpoint, Credentials(cfg))
    ensures var o := net(Asked(a, cfg, endpoint));
      && Succeeded(o)
      && var read := ReadSingle(Capped(o.body, cfg.pdpMaxBytes));
      && (read.Some? ==> read.value.decision == Some(policy(AskMeaning(a))))
      && (|o.body| <= cfg.pdpMaxBytes ==> read.Some?)
  {
    var received := AskArrives(a, cfg, endpoint);
    CompleteMeaning(a);
    CompleteMeaning(AskOf(received));
    CompleteExactly(AskOf(received));
    var o, d := net(Asked(a, cfg, endpoint)), policy(AskMeaning(a));
    assert OneServed(policy, Asked(a, cfg, endpoint), o);
    var v :| Spells(o.body, v) && AnswersOne(v, d);
    OneAnswerRead(o.body, cfg.pdpMaxBytes, d, v);
  }

  lemma SingleResultIs(args: Args, cfg: Config, net: Transport, endpoint: string, body: string)
    requires ResolveEndpoint(args, cfg) == Some(endpoint) && ArgsOk(args, cfg.maxArgBytes, true)
    requires net(Asked(GivenAsk(args), cfg, endpoint)) == Response(200, body)
    ensures var read := ReadSingle(Capped(body, cfg.pdpMaxBytes));
      SingleResult(args, cfg, net) ==
        if read.Some? && read.value.decision.Some?
        then Some(Evaluated(read.value.decision.value, read.value.context, endpoint))
        else None
  {
  }

  lemma SinglePartSeen(a: Ask, n: string)
    requires a.subject.Some? && a.action.Some? && a.resource.Some? && IsPart(n)
    ensures OptionMeaning(Member(Compact(Object(SingleMembers(a))), n)) == OptionMeaning(Part(a, n))
  {
    SingleField(a, n);
    MemberSeen(SingleMembers(a), n);
  }

  lemma SingleSeen(a: Ask)
    requires a.subject.Some? && a.action.Some? && a.resource.Some?
    ensures AskMeaning(AskOf(Compact(Object(SingleMembers(a))))) == AskMeaning(a)
  {
    NamesDiffer();
    SinglePartSeen(a, "subject");
    SinglePartSeen(a, "action");
    SinglePartSeen(a, "resource");
    SinglePartSeen(a, "context");
  }

  lemma LoopEndToEnd(a: Ask, cfg: Config, net: Transport, policy: Policy)
    requires Complete(a) && Sendable(a) && Fits(a, cfg.maxArgBytes) && Convertible(a)
    requires cfg.pdpURL != "" && Endpoints.Parse(cfg.pdpURL).Some?
    requires ServesOne(policy, net, cfg.pdpURL, Credentials(cfg))
    ensures var loop := SingleResult(LoopArgs(a), cfg, net);
      && (loop.Some? ==> loop.value.decision == policy(AskMeaning(a)))
      && (loop.None? ==>
            || !ObjectContext(a)
            || LongReply(net(Asked(a, cfg, cfg.pdpURL)), cfg.pdpMaxBytes))
  {
    LoopArgsAccepted(a, cfg.maxArgBytes);
    NoPdpUrl(a);
    if ArgsOk(LoopArgs(a), cfg.maxArgBytes, true) {
      SingleEndToEnd(LoopArgs(a), cfg, net, policy, cfg.pdpURL);
    }
  }

  // A reply that the cap cuts.
  predicate LongReply(o: Outcome, cap: nat) { o.Response? && |o.body| > cap }

  /**
    Under execute_all, decision i of a batch is what authzen_evaluate reports for the
    i-th evaluation on its own. It reports one unless its context is not an object, or
    the cap cuts its reply.
   */
  lemma BatchRefinesLoop(args: Args, cfg: Config, net: Transport, policy: Policy, p: Plan, r: Report, i: nat)
    requires PlanOf(args, cfg) == Some(p) && EntriesAlike(p) && p.semantic == EXECUTE_ALL
    requires ServesBatch(policy, net, p.endpoint, Credentials(cfg))
    requires cfg.pdpURL != "" && Endpoints.Parse(cfg.pdpURL).Some?
    requires ServesOne(policy, net, cfg.pdpURL, Credentials(cfg))
    requires BatchResult(args, cfg, net) == Some(r) && i < |p.entries|
    ensures |r.decisions| == |p.entries| && Complete(Asks(p)[i])
    ensures var loop := SingleResult(LoopArgs(Asks(p)[i]), cfg, net);
      && (loop.Some? ==> loop.value.decision == r.decisions[i].decision)
      && (loop.None? ==>
            || !ObjectContext(Asks(p)[i])
            || LongReply(net(Asked(Asks(p)[i], cfg, cfg.pdpURL)), cfg.pdpMaxBytes))
  {
    EffectiveOk(args, cfg, p, i);
    LoopEndToEnd(Asks(p)[i], cfg, net, policy);
    BatchEndToEnd(args, cfg, net, policy, p);
    EarlyExit(Decisions(policy, p), EXECUTE_ALL);
  }

  lemma NoPdpUrl(a: Ask)
    ensures GetString(LoopArgs(a), "pdp_url", "") == ""
  {
    assert "pdp_url"[0] == 'p';
    assert "subject"[0] == 's' && "action"[0] == 'a' && "resource"[0] == 'r' && "context"[0] == 'c';
    OtherArg(a, map[], "pdp_url");
  }

  // ----- one PDP, many URLs

  /**
    Whichever URL of a PDP is configured (its root, with or without a slash, or any of
    its known endpoints, with any query or fragment), batch and discovery calls have
    the same outcome.
   */
  lemma AnyUrlOfThePdp(args: Args, cfg: Config, cfg': Config, net: Transport, base: Endpoints.Url, p: string, p': string)
    requires GetString(args, "pdp_url", "") == ""
    requires cfg' == cfg.(pdpURL := cfg'.pdpURL)
    requires p in ["", "/"] + Endpoints.KNOWN && p' in ["", "/"] + Endpoints.KNOWN
    requires Endpoints.Names(cfg.pdpURL, base, p) && Endpoints.Names(cfg'.pdpURL, base, p')
    requires !base.forceQuery && !HasSuffix(base.path, "/")
    requires forall k | k in Endpoints.KNOWN :: !HasSuffix(base.path, k)
    ensures BatchResult(args, cfg, net) == BatchResult(args, cfg', net)
    ensures DiscoverResult(args, cfg, net) == DiscoverResult(args, cfg', net)
  {
    Endpoints.Converge(cfg.pdpURL, base, p);
    Endpoints.Converge(cfg'.pdpURL, base, p');
    SameBatch(args, cfg, cfg', net);
    SameDiscovery(args, cfg, cfg', net);
  }

  lemma SameBatch(args: Args, cfg: Config, cfg': Config, net: Transport)
    requires GetString(args, "pdp_url", "") == "" && cfg' == cfg.(pdpURL := cfg'.pdpURL)
    requires Endpoints.BatchEndpoint(cfg.pdpURL) == Endpoints.BatchEndpoint(cfg'.pdpURL)
    ensures BatchResult(args, cfg, net) == BatchResult(args, cfg', net)
  {
    assert BatchURL(args, cfg) == BatchURL(args, cfg');
    assert PlanOf(args, cfg) == PlanOf(args, cfg');
    if PlanOf(args, cfg).Some? {
      SameResult(PlanOf(args, cfg).value, cfg, cfg', net);
    }
  }

  lemma SameResult(p: Plan, cfg: Config, cfg': Config, net: Transport)
    requires cfg' == cfg.(pdpURL := cfg'.pdpURL)
    ensures ResultOf(p, cfg, net) == ResultOf(p, cfg', net)
  {
    assert Sent(cfg, p.endpoint, RequestOf(p)) == Sent(cfg', p.endpoint, RequestOf(p));
  }

  lemma SameDiscovery(args: Args, cfg: Config, cfg': Config, net: Transport)
    requires GetString(args, "pdp_url", "") == "" && cfg' == cfg.(pdpURL := cfg'.pdpURL)
    requires cfg.pdpURL != "" && cfg'.pdpURL != ""
    requires Endpoints.MetadataEndpoint(cfg.pdpURL) == Endpoints.MetadataEndpoint(cfg'.pdpURL)
    ensures DiscoverResult(args, cfg, net) == DiscoverResult(args, cfg', net)
  {
    assert DiscoverURL(args, cfg) == DiscoverURL(args, cfg');
    if DiscoverURL(args, cfg).Some? {
      SameFetch(cfg, cfg', net, DiscoverURL(args, cfg).value);
    }
  }

  lemma SameFetch(cfg: Config, cfg': Config, net: Transport, url: string)
    requires cfg' == cfg.(pdpURL := cfg'.pdpURL)
    ensures DiscoverAt(cfg, net, url) == DiscoverAt(cfg', net, url)
  {
    assert Fetched(cfg, net, url) == Fetched(cfg', net, url);
    assert FetchedMetadata(cfg, net, url) == FetchedMetadata(cfg', net, url);
  }
}
