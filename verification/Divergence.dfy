/**
  Calls for which the code does not do what is said of it, each as one that is accepted,
  sent and answered.
 */
module Divergence {
  import opened Wrappers
  import opened Json
  import opened JsonRoundTrip
  import opened GoJson
  import opened Numbers
  import opened Requests
  import opened Wire
  import opened Pdp
  import opened Responses
  import opened Client
  import opened Theorems
  import opened Reachability
  import Endpoints

  // ----- objects of string members

  function TextMember(name: string, text: string, rest: Members): Members {
    Members(Spell(name), String(Spell(text)), rest)
  }

  lemma TextMemberOk(name: string, text: string, rest: Members)
    requires CleanName(name) && CleanName(text) && MembersWellFormed(rest) && MembersInRange(rest)
    ensures MembersWellFormed(TextMember(name, text, rest)) && MembersInRange(TextMember(name, text, rest))
  {
    SpellOk(name);
    SpellOk(text);
  }

  lemma TextMemberHolds(name: string, text: string, rest: Members)
    requires text != "" && Field(rest, name, Exact).None?
    ensures HasText(TextMember(name, text, rest), name)
  {
    SpellUnescape(name);
    SpellUnescape(text);
  }

  lemma TextMemberSkipped(name: string, text: string, rest: Members, m: string)
    requires HasText(rest, m)
    ensures HasText(TextMember(name, text, rest), m)
  {
  }

  function IdMember(id: string): Members { TextMember("id", id, NoMembers) }

  function Entity(id: string): Value { Object(TextMember("type", "user", IdMember(id))) }

  function ReadAction(): Value { Object(TextMember("name", "read", NoMembers)) }

  lemma EntityOk(id: string)
    requires id != "" && CleanName(id)
    ensures WellFormed(Entity(id)) && InRange(Entity(id)) && Carries(Some(Entity(id)), ["type", "id"])
  {
    TextMemberOk("id", id, NoMembers);
    TextMemberOk("type", "user", IdMember(id));
    TextMemberHolds("id", id, NoMembers);
    TextMemberSkipped("type", "user", IdMember(id), "id");
    SpellUnescape("id");
    assert "type"[0] == 't' && "id"[0] == 'i';
    TextMemberHolds("type", "user", IdMember(id));
  }

  lemma ReadActionOk()
    ensures WellFormed(ReadAction()) && InRange(ReadAction()) && Carries(Some(ReadAction()), ["name"])
  {
    TextMemberOk("name", "read", NoMembers);
    TextMemberHolds("name", "read", NoMembers);
  }

  lemma EntitiesDiffer(a: string, b: string)
    requires a != b
    ensures Meaning(Entity(a)) != Meaning(Entity(b))
  {
    IdMeaning(a);
    IdMeaning(b);
    SpellUnescape(a);
    SpellUnescape(b);
  }

  lemma IdMeaning(id: string)
    ensures Meaning(Entity(id)).Object? && Meaning(Entity(id)).members.Members?
    ensures Meaning(Entity(id)).members.rest == IdMember(id)
  {
    SpellUnescape(id);
    SpellUnescape("id");
    assert MembersMeaning(IdMember(id)) == IdMember(id);
    assert MembersMeaning(TextMember("type", "user", IdMember(id))).rest == IdMember(id);
  }

  // ----- a decision on something else than what was validated

  // An entry whose own subject goes by the name "Subject".
  function Shadowing(mine: string): Value { Object(Members(Spell("Subject"), Entity(mine), NoMembers)) }

  function Defaults(theirs: string): Ask {
    Ask(Some(Entity(theirs)), Some(ReadAction()), Some(Entity("doc")), None)
  }

  function ShadowingPlan(mine: string, theirs: string, endpoint: string): Plan {
    Plan(endpoint, Defaults(theirs), [Shadowing(mine)], EXECUTE_ALL)
  }

  lemma NotSubject(n: string)
    requires n != "" && 'a' <= n[0] <= 'z' && n[0] != 's'
    ensures Fold("Subject") != Fold(n)
  {
    SubjectFolds();
    FirstDiffers("subject", n);
  }

  lemma FirstDiffers(a: string, b: string)
    requires a != "" && 'a' <= a[0] <= 'z' && b != "" && 'a' <= b[0] <= 'z' && a[0] != b[0]
    ensures Fold(a) != Fold(b)
  {
    FoldFirst(a);
    FoldFirst(b);
  }

  lemma OtherName(k: string, x: Value, n: string)
    requires Fold(k) != Fold(n)
    ensures Field(Members(Spell(k), x, NoMembers), n, Folded).None?
  {
    SpellUnescape(k);
    assert Field(NoMembers, n, Folded).None?;
  }

  // The client validates mine in the place of theirs.
  lemma ShadowingValidated(mine: string, theirs: string)
    ensures Effective(Shadowing(mine).members, Defaults(theirs))
         == Defaults(theirs).(subject := Some(Entity(mine)))
  {
    SubjectFolds();
    LoneMember("Subject", Entity(mine), "subject");
    NotSubject("action");
    NotSubject("resource");
    NotSubject("context");
    OtherName("Subject", Entity(mine), "action");
    OtherName("Subject", Entity(mine), "resource");
    OtherName("Subject", Entity(mine), "context");
  }

  lemma DefaultsOk(theirs: string)
    requires theirs != "" && CleanName(theirs)
    ensures Valid(Defaults(theirs)) && Sendable(Defaults(theirs)) && Convertible(Defaults(theirs))
  {
    EntityOk(theirs);
    DocOk();
    ReadActionOk();
  }

  lemma DocOk()
    ensures WellFormed(Entity("doc")) && InRange(Entity("doc")) && Carries(Some(Entity("doc")), ["type", "id"])
  {
    EntityOk("doc");
  }

  lemma LoneMemberOk(k: string, x: Value)
    requires CleanName(k) && WellFormed(x) && InRange(x)
    ensures var v := Object(Members(Spell(k), x, NoMembers)); WellFormed(v) && InRange(v)
  {
    SpellOk(k);
  }

  lemma SubjectReplaced(a: Ask, x: Value)
    requires Complete(a) && Carries(Some(x), ["type", "id"])
    ensures Complete(a.(subject := Some(x)))
  {
  }

  lemma ShadowingEntryOk(mine: string, theirs: string)
    requires mine != "" && CleanName(mine) && Valid(Defaults(theirs))
    ensures WellFormed(Shadowing(mine)) && EntryOk(Shadowing(mine), Defaults(theirs))
  {
    EntityOk(mine);
    SubjectClean();
    LoneMemberOk("Subject", Entity(mine));
    SubjectReplaced(Defaults(theirs), Entity(mine));
    ShadowingValidated(mine, theirs);
  }

  lemma ShadowingAccepted(mine: string, theirs: string, endpoint: string) returns (maxBytes: nat)
    requires mine != "" && CleanName(mine) && theirs != "" && CleanName(theirs)
    ensures Accepted(ShadowingPlan(mine, theirs, endpoint), maxBytes)
  {
    var p := ShadowingPlan(mine, theirs, endpoint);
    DefaultsOk(theirs);
    ShadowingEntryOk(mine, theirs);
    maxBytes := RoomFor(p);
    assert EXECUTE_ALL in SEMANTICS;
  }

  lemma RoomFor(p: Plan) returns (maxBytes: nat)
    requires p.defaults.subject.Some? && p.defaults.action.Some? && p.defaults.resource.Some?
    requires p.defaults.context.None?
    ensures Fits(p.defaults, maxBytes) && |Text(Array(FromSeq(p.entries)))| <= maxBytes
  {
    maxBytes := |Text(p.defaults.subject.value)| + |Text(p.defaults.action.value)|
              + |Text(p.defaults.resource.value)| + |Text(Array(FromSeq(p.entries)))|;
  }

  lemma SubjectClean()
    ensures CleanName("Subject")
  {
  }

  // The PDP evaluates theirs.
  lemma ShadowingEvaluated(mine: string, theirs: string, endpoint: string)
    requires mine != theirs
    ensures var p := ShadowingPlan(mine, theirs, endpoint);
      && AskMeaning(EntryAsk(Compact(RequestOf(p)), Compact(p.entries[0]))).subject == Some(Meaning(Entity(theirs)))
      && AskMeaning(Asks(p)[0]).subject == Some(Meaning(Entity(mine)))
      && Meaning(Entity(mine)) != Meaning(Entity(theirs))
  {
    var p := ShadowingPlan(mine, theirs, endpoint);
    NamesDiffer();
    SubjectFolds();
    LoneMember("Subject", Entity(mine), "subject");
    PartSeen(p.entries[0], p.defaults, p.entries, p.semantic, "subject");
    ShadowingValidated(mine, theirs);
    EntitiesDiffer(mine, theirs);
  }

  lemma ShadowingDecided(mine: string, theirs: string, endpoint: string) returns (policy: Policy)
    requires mine != theirs
    ensures var p := ShadowingPlan(mine, theirs, endpoint);
      Decisions(policy, p) == [false] && BatchDecisions(policy, Compact(RequestOf(p))) == [true]
  {
    var p := ShadowingPlan(mine, theirs, endpoint);
    policy := (a: Ask) => a.subject == Some(Meaning(Entity(theirs)));
    ShadowingEvaluated(mine, theirs, endpoint);
    OneEntrySeen(p, policy, 0);
    AllDecided(p, policy);
  }

  /**
    An accepted batch of one entry, whose subject is named "Subject": the policy denies
    what the client validated, and a PDP that serves the policy is reported to permit it.
   */
  lemma ShadowedEntryDiverges(mine: string, theirs: string, url: string)
    returns (args: Args, cfg: Config, net: Transport, policy: Policy, p: Plan)
    requires mine != theirs && mine != "" && theirs != "" && CleanName(mine) && CleanName(theirs)
    requires Endpoints.BatchEndpoint(url).Some?
    ensures cfg.pdpURL == url && PlanOf(args, cfg) == Some(p)
    ensures ServesBatch(policy, net, p.endpoint, Credentials(cfg))
    ensures Decisions(policy, p) == [false]
    ensures BatchResult(args, cfg, net).Some? && Reports(BatchResult(args, cfg, net).value, p, [true], 1)
  {
    p := ShadowingPlan(mine, theirs, Endpoints.BatchEndpoint(url).value);
    policy := ShadowingDecided(mine, theirs, p.endpoint);
    args := BatchArgs(p.defaults, p.entries, p.semantic);
    var maxBytes := ShadowingAccepted(mine, theirs, p.endpoint);
    net, cfg := Answerable(p, policy, url, maxBytes);
    PlanReached(p, cfg);
    assert [true][..1] == [true];
    ShadowingComplete(args, cfg, mine, theirs, p.endpoint);
    DecidedIsReported(args, cfg, net, policy, p, [true], 1);
  }

  // The request is complete: the PDP takes the entry to be the defaults.
  lemma ShadowingComplete(args: Args, cfg: Config, mine: string, theirs: string, endpoint: string)
    requires theirs != "" && CleanName(theirs)
    requires PlanOf(args, cfg) == Some(ShadowingPlan(mine, theirs, endpoint))
    ensures CompleteBatch(Compact(RequestOf(ShadowingPlan(mine, theirs, endpoint))))
    ensures BatchContexts(Compact(RequestOf(ShadowingPlan(mine, theirs, endpoint))))
  {
    var p := ShadowingPlan(mine, theirs, endpoint);
    DefaultsComplete(theirs);
    ShadowingRead(mine, theirs);
    AllExact(p, Defaults(theirs));
    SentCompleteExactly(args, cfg, p);
  }

  lemma DefaultsComplete(theirs: string)
    requires theirs != "" && CleanName(theirs)
    ensures Complete(Defaults(theirs)) && ObjectContext(Defaults(theirs))
  {
    DefaultsOk(theirs);
  }

  lemma AllExact(p: Plan, a: Ask)
    requires forall e | e in p.entries :: ReadExactly(e, p.defaults) == a
    ensures forall x | x in ExactAsks(p) :: x == a
  {
  }

  lemma ShadowingRead(mine: string, theirs: string)
    ensures ReadExactly(Shadowing(mine), Defaults(theirs)) == Defaults(theirs)
  {
    SubjectFolds();
    LoneMember("Subject", Entity(mine), "subject");
    NotSubject("action");
    NotSubject("resource");
    NotSubject("context");
    OtherExactly("Subject", Entity(mine), "action");
    OtherExactly("Subject", Entity(mine), "resource");
    OtherExactly("Subject", Entity(mine), "context");
  }

  lemma OtherExactly(k: string, x: Value, n: string)
    requires Fold(k) != Fold(n)
    ensures Field(Members(Spell(k), x, NoMembers), n, Exact).None?
  {
    SpellUnescape(k);
    assert Field(NoMembers, n, Exact).None?;
  }

  // A PDP that serves the policy, and a cap that does not cut its reply.
  lemma Answerable(p: Plan, policy: Policy, url: string, maxArgBytes: nat) returns (net: Transport, cfg: Config)
    ensures cfg.pdpURL == url && cfg.maxArgBytes == maxArgBytes
    ensures ServesBatch(policy, net, p.endpoint, Credentials(cfg))
    ensures Reply(p, cfg, net).Response? ==> |Reply(p, cfg, net).body| <= cfg.pdpMaxBytes
  {
    var credentials := Credentials(Config(url, "", 0, maxArgBytes));
    net := rq => Reference(policy, credentials, rq);
    ReferenceServes(policy, p.endpoint, credentials);
    var reply := net(Posted(p, Config(url, "", 0, maxArgBytes)));
    cfg := Config(url, "", |reply.body|, maxArgBytes);
    assert Posted(p, cfg) == Posted(p, Config(url, "", 0, maxArgBytes));
  }

  // ----- two evaluations members

  // Two members of one name, an array of one element each.
  function TwiceMembers(k: seq<Item>, h1: Value, h2: Value): Members {
    Members(k, Array(Values(h1, NoValues)), Members(k, Array(Values(h2, NoValues)), NoMembers))
  }

  lemma OneElement(h: Value)
    ensures Elements(Values(h, NoValues)) == [h]
  {
    assert Elements(NoValues) == [];
  }

  lemma TwiceRead(k: seq<Item>, h1: Value, h2: Value)
    requires Reads(k, "evaluations", Folded)
    ensures Evaluations(TwiceMembers(k, h1, h2)) == [Array(Values(h1, NoValues)), Array(Values(h2, NoValues))]
  {
    var rest := Members(k, Array(Values(h2, NoValues)), NoMembers);
    assert ReadAll(NoMembers, "evaluations") == [];
    assert ReadAll(rest, "evaluations") == [Array(Values(h2, NoValues))];
  }

  // The second array is decoded into the slice of the first.
  lemma TwoStand(h1: Value, h2: Value)
    requires Fillable(h1) && Fillable(h2)
    ensures var xs := [Array(Values(h1, NoValues)), Array(Values(h2, NoValues))];
      AllFillable(xs) && Standing(xs, 0) == Over(h2, Over(h1, BLANK))
  {
    OneElement(h1);
    OneElement(h2);
    var first := [Array(Values(h1, NoValues))];
    var xs := first + [Array(Values(h2, NoValues))];
    assert first[..0] == [] && Standing([], 0) == BLANK;
    assert Standing(first, 0) == Over(h1, BLANK);
    assert xs[..1] == first;
  }

  lemma TwiceText(k: seq<Item>, h1: Value, h2: Value)
    requires ItemsOk(k) && WellFormed(h1) && WellFormed(h2)
    ensures var v := Object(TwiceMembers(k, h1, h2)); ParseDoc(Text(v)) == Some(v)
  {
    assert AllWellFormed(NoValues) && MembersWellFormed(NoMembers);
    assert AllWellFormed(Values(h1, NoValues)) && AllWellFormed(Values(h2, NoValues));
    assert WellFormed(Array(Values(h1, NoValues))) && WellFormed(Array(Values(h2, NoValues)));
    assert MembersWellFormed(Members(k, Array(Values(h2, NoValues)), NoMembers));
    TextBack(Object(TwiceMembers(k, h1, h2)));
  }

  // For every accepted batch there is a 200 response with these two members, for which
  // what the first gives is reported where the second does not give it.
  lemma BothReported(args: Args, cfg: Config, p: Plan, h1: Value, h2: Value)
    returns (cfg': Config, net: Transport, ms: Members)
    requires PlanOf(args, cfg) == Some(p)
    requires WellFormed(h1) && WellFormed(h2) && Fillable(h1) && Fillable(h2)
    requires Over(h2, Over(h1, BLANK)).decision.Some?
    ensures cfg' == cfg.(pdpMaxBytes := cfg'.pdpMaxBytes)
    ensures BodyObject(Reply(p, cfg', net), cfg'.pdpMaxBytes) == Some(ms)
    ensures Stated(ms) == Some([h2])
    ensures BatchResult(args, cfg', net).Some?
    ensures var x := Over(h2, Over(h1, BLANK));
      BatchResult(args, cfg', net).value.decisions == [Decision(0, x.decision.value, x.context)]
  {
    var k := Spell("evaluations");
    ms := TwiceMembers(k, h1, h2);
    cfg', net := Sending(Object(ms), cfg);
    NamesClean("evaluations");
    SpellOk("evaluations");
    SpellUnescape("evaluations");
    TwiceText(k, h1, h2);
    TwiceRead(k, h1, h2);
    TwoStand(h1, h2);
    SamePlan(args, cfg, cfg');
    TwoReported(args, cfg', net, p, ms, h1, h2);
  }

  lemma TwoReported(args: Args, cfg: Config, net: Transport, p: Plan, ms: Members, h1: Value, h2: Value)
    requires PlanOf(args, cfg) == Some(p)
    requires BodyObject(Reply(p, cfg, net), cfg.pdpMaxBytes) == Some(ms)
    requires Evaluations(ms) == [Array(Values(h1, NoValues)), Array(Values(h2, NoValues))]
    requires AllFillable(Evaluations(ms)) && Standing(Evaluations(ms), 0).decision.Some?
    ensures Stated(ms) == Some([h2])
    ensures BatchResult(args, cfg, net).Some?
    ensures var x := Standing(Evaluations(ms), 0);
      BatchResult(args, cfg, net).value.decisions == [Decision(0, x.decision.value, x.context)]
  {
    LastStated(ms, h1, h2);
    AtLeastOne(args, cfg, p);
    ReportAlways(args, cfg, net, p, ms);
    OnlyDecision(BatchResult(args, cfg, net).value.decisions, Standing(Evaluations(ms), 0));
  }

  lemma LastStated(ms: Members, h1: Value, h2: Value)
    requires Evaluations(ms) == [Array(Values(h1, NoValues)), Array(Values(h2, NoValues))]
    ensures Stated(ms) == Some([h2])
  {
    OneElement(h2);
  }

  lemma OnlyDecision(decisions: seq<Decision>, x: Single)
    requires |decisions| == 1 && x.decision.Some? && decisions[0].index == 0
    requires Some(decisions[0].decision) == x.decision && decisions[0].context == x.context
    ensures decisions == [Decision(0, x.decision.value, x.context)]
  {
    assert decisions[0] == Decision(0, x.decision.value, x.context);
  }

  lemma OneAnswerStands(b: bool)
    ensures WellFormed(OneAnswer(b)) && Fillable(OneAnswer(b))
    ensures forall before :: Over(OneAnswer(b), before) == Single(Some(b), before.context)
  {
    OneAnswerIsAnswer(b);
    AnswerStates(OneAnswer(b), b);
    FoldDiffers();
    OtherName("decision", Bool(b), "context");
    forall before ensures Over(OneAnswer(b), before) == Single(Some(b), before.context) {
      DecisionOnly(OneAnswer(b), b, before);
    }
  }

  lemma DecisionOnly(v: Value, b: bool, before: Single)
    requires States(v, b) && Field(v.members, "context", Folded).None?
    ensures Fillable(v) && Over(v, before) == Single(Some(b), before.context)
  {
  }

  // An answer with a context.
  function Explained(b: bool, c: Value): Value {
    Object(Members(Spell("decision"), Bool(b), Members(Spell("context"), c, NoMembers)))
  }

  lemma ExplainedStands(b: bool, c: Value)
    requires WellFormed(c)
    ensures WellFormed(Explained(b, c)) && Fillable(Explained(b, c))
    ensures Over(Explained(b, c), BLANK) == Single(Some(b), Some(c))
  {
    ExplainedOk(b, c);
    FoldDiffers();
    TwoMembers("decision", Bool(b), "context", c);
    BothGiven(Explained(b, c).members, b, c);
  }

  lemma BothGiven(ms: Members, b: bool, c: Value)
    requires Sole(ms, "decision", Bool(b)) && Sole(ms, "context", c)
    ensures Fillable(Object(ms)) && Over(Object(ms), BLANK) == Single(Some(b), Some(c))
  {
    SoleRead(ms, "decision", Bool(b));
    SoleRead(ms, "context", c);
    SoleDecidable(ms, b);
  }

  lemma ExplainedOk(b: bool, c: Value)
    requires WellFormed(c)
    ensures WellFormed(Explained(b, c))
  {
    NamesClean("context");
    DecisionClean();
    MemberWellFormed("context", Some(c), NoMembers);
    MemberWellFormed("decision", Some(Bool(b)), Members(Spell("context"), c, NoMembers));
  }

  /**
    The report can hold a decision that the last evaluations member does not state: for
    every accepted batch there is a 200 response with two such members, the second one
    without a decision, for which the decision of the first is reported.
   */
  lemma RepeatedMemberReported(args: Args, cfg: Config, p: Plan, b: bool) returns (cfg': Config, net: Transport, ms: Members)
    requires PlanOf(args, cfg) == Some(p)
    ensures cfg' == cfg.(pdpMaxBytes := cfg'.pdpMaxBytes)
    ensures BodyObject(Reply(p, cfg', net), cfg'.pdpMaxBytes) == Some(ms)
    ensures Stated(ms) == Some([Object(NoMembers)]) && !StatesSome(Object(NoMembers))
    ensures BatchResult(args, cfg', net).Some?
    ensures BatchResult(args, cfg', net).value.decisions == [Decision(0, b, None)]
  {
    OneAnswerStands(b);
    EmptyGivesNothing();
    cfg', net, ms := BothReported(args, cfg, p, OneAnswer(b), Object(NoMembers));
  }

  lemma EmptyGivesNothing()
    ensures Fillable(Object(NoMembers)) && !StatesSome(Object(NoMembers))
    ensures forall before :: Over(Object(NoMembers), before) == before
  {
    assert Field(NoMembers, "decision", Folded).None? && Field(NoMembers, "context", Folded).None?;
  }

  /**
    And it can pair a decision with the context of another one: here the reported decision
    is b, stated without a context, and the context is that of an earlier decision d.
   */
  lemma StaleContextReported(args: Args, cfg: Config, p: Plan, d: bool, c: Value, b: bool)
    returns (cfg': Config, net: Transport, ms: Members)
    requires PlanOf(args, cfg) == Some(p) && WellFormed(c)
    ensures cfg' == cfg.(pdpMaxBytes := cfg'.pdpMaxBytes)
    ensures BodyObject(Reply(p, cfg', net), cfg'.pdpMaxBytes) == Some(ms)
    ensures Stated(ms) == Some([OneAnswer(b)]) && ContextOf(OneAnswer(b)).None?
    ensures BatchResult(args, cfg', net).Some?
    ensures BatchResult(args, cfg', net).value.decisions == [Decision(0, b, Some(c))]
  {
    OneAnswerStands(b);
    OverBlank(OneAnswer(b));
    ExplainedStands(d, c);
    cfg', net, ms := BothReported(args, cfg, p, Explained(d, c), OneAnswer(b));
  }

  // A transport that answers everything with one tree, in full.
  lemma Sending(v: Value, cfg: Config) returns (cfg': Config, net: Transport)
    ensures cfg' == cfg.(pdpMaxBytes := cfg'.pdpMaxBytes)
    ensures forall rq: HttpRequest :: net(rq) == Response(200, Text(v))
    ensures Capped(Text(v), cfg'.pdpMaxBytes) == Text(v)
  {
    cfg' := cfg.(pdpMaxBytes := |Text(v)|);
    net := rq => Response(200, Text(v));
  }

  lemma AtLeastOne(args: Args, cfg: Config, p: Plan)
    requires PlanOf(args, cfg) == Some(p)
    ensures |p.entries| >= 1
  {
    PlanFacts(args, cfg, p);
  }

  lemma SamePlan(args: Args, cfg: Config, cfg': Config)
    requires cfg' == cfg.(pdpMaxBytes := cfg'.pdpMaxBytes)
    ensures PlanOf(args, cfg') == PlanOf(args, cfg)
  {
    assert BatchURL(args, cfg') == BatchURL(args, cfg);
  }
}
