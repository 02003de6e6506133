/**
  A Policy Decision Point, over an arbitrary policy: it reads the request from the bytes
  it receives, takes an entry's own members over the top-level defaults (section 7.1.1 of
  the OpenID AuthZEN Authorization API 1.0), and stops where the requested semantic lets
  it stop (section 7.1.2.1). It may refuse what is incomplete or lacks its credentials.
 */
module Pdp {
  import opened Wrappers
  import opened Json
  import opened JsonRoundTrip
  import opened Grammar
  import opened GoJson
  import opened Requests
  import opened Wire

  // The decision on one evaluation. It sees meanings: not how a string is escaped.
  type Policy = Ask -> bool

  const EXECUTE_ALL := "execute_all"
  const DENY_ON_FIRST_DENY := "deny_on_first_deny"
  const PERMIT_ON_FIRST_PERMIT := "permit_on_first_permit"
  const SEMANTICS := [EXECUTE_ALL, DENY_ON_FIRST_DENY, PERMIT_ON_FIRST_PERMIT]

  // ----- transport

  datatype HttpRequest = HttpRequest(endpoint: string, authorization: Option<string>, body: string)

  // ReadError: the connection broke while the body was read.
  datatype Outcome = SendError | ReadError | Response(status: int, body: string)

  type Transport = HttpRequest -> Outcome

  // ----- reading a request

  // The member of an object, matched exactly.
  function Member(v: Value, name: string): Option<Value> {
    if v.Object? then Field(v.members, name, Exact) else None
  }

  function AskOf(v: Value): Ask {
    Ask(Member(v, "subject"), Member(v, "action"), Member(v, "resource"), Member(v, "context"))
  }

  function EntryAsk(request: Value, entry: Value): Ask {
    Ask(FirstPresent(Member(entry, "subject"), Member(request, "subject")),
        FirstPresent(Member(entry, "action"), Member(request, "action")),
        FirstPresent(Member(entry, "resource"), Member(request, "resource")),
        FirstPresent(Member(entry, "context"), Member(request, "context")))
  }

  function EntriesOf(request: Value): seq<Value> {
    match Member(request, "evaluations")
    case Some(Array(vs)) => Elements(vs)
    case _ => []
  }

  function SemanticOf(request: Value): string {
    match Member(request, "options")
    case None => EXECUTE_ALL
    case Some(o) =>
      match Member(o, "evaluations_semantic")
      case Some(String(s)) => Unescape(s)
      case _ => EXECUTE_ALL
  }

  // ----- deciding

  // The position of the first b in ds, or |ds|.
  function First(ds: seq<bool>, b: bool): (i: nat)
    ensures i <= |ds| && (i < |ds| ==> ds[i] == b)
    ensures forall j | 0 <= j < i :: ds[j] != b
  {
    if ds == [] || ds[0] == b then 0 else 1 + First(ds[1..], b)
  }

  // How many entries are evaluated.
  function Stop(semantic: string, ds: seq<bool>): (n: nat)
    ensures n <= |ds|
  {
    var i :=
      if semantic == DENY_ON_FIRST_DENY then First(ds, false)
      else if semantic == PERMIT_ON_FIRST_PERMIT then First(ds, true)
      else |ds|;
    if i < |ds| then i + 1 else |ds|
  }

  function Decide(policy: Policy, asks: seq<Ask>): (ds: seq<bool>)
    ensures |ds| == |asks|
  {
    seq(|asks|, i requires 0 <= i < |asks| => policy(AskMeaning(asks[i])))
  }

  function EntryAsks(request: Value): (asks: seq<Ask>)
    ensures |asks| == |EntriesOf(request)|
  {
    seq(|EntriesOf(request)|, i requires 0 <= i < |EntriesOf(request)| =>
      EntryAsk(request, EntriesOf(request)[i]))
  }

  function BatchDecisions(policy: Policy, request: Value): seq<bool> {
    var ds := Decide(policy, EntryAsks(request));
    ds[..Stop(SemanticOf(request), ds)]
  }

  // ----- answering

  // x is the value of the one member called name, in any case.
  predicate Sole(ms: Members, name: string, x: Value) {
    ms.Members? &&
    if Reads(ms.name, name, Folded)
    then Reads(ms.name, name, Exact) && ms.value == x && Field(ms.rest, name, Folded).None?
    else Sole(ms.rest, name, x)
  }

  predicate AnswersOne(v: Value, d: bool) {
    v.Object? && Sole(v.members, "decision", Bool(d))
  }

  predicate AnswersEach(vs: Values, ds: seq<bool>) {
    |Elements(vs)| == |ds| && forall i | 0 <= i < |ds| :: AnswersOne(Elements(vs)[i], ds[i])
  }

  ghost predicate AnswersAll(v: Value, ds: seq<bool>) {
    v.Object? && exists vs :: Sole(v.members, "evaluations", Array(vs)) && AnswersEach(vs, ds)
  }

  predicate Succeeded(o: Outcome) { o.Response? && o.status == 200 }

  // A 200 reply whose body, in any JSON text, states exactly ds.
  ghost predicate Answering(o: Outcome, ds: seq<bool>) {
    Succeeded(o) && exists v :: Spells(o.body, v) && AnswersAll(v, ds)
  }

  ghost predicate AnsweringOne(o: Outcome, d: bool) {
    Succeeded(o) && exists v :: Spells(o.body, v) && AnswersOne(v, d)
  }

  // ----- serving a policy

  // The value is an object whose member m is a non-empty string.
  predicate HoldsText(v: Option<Value>, m: string) {
    v.Some? && v.value.Object? &&
    match Field(v.value.members, m, Exact)
    case Some(String(s)) => Unescape(s) != ""
    case _ => false
  }

  // What an evaluation must have (sections 5.1 to 5.3).
  predicate CompleteAsk(a: Ask) {
    && HoldsText(a.subject, "type") && HoldsText(a.subject, "id")
    && HoldsText(a.action, "name")
    && HoldsText(a.resource, "type") && HoldsText(a.resource, "id")
  }

  // A batch request in which every evaluation has what it needs.
  predicate CompleteBatch(v: Value) {
    && EntriesOf(v) != [] && SemanticOf(v) in SEMANTICS
    && forall e | e in EntriesOf(v) :: e.Object? && CompleteAsk(EntryAsk(v, e))
  }

  predicate BatchContexts(v: Value) { forall e | e in EntriesOf(v) :: ObjectContext(EntryAsk(v, e)) }

  // What is required of the reply to a batch request: when the request is complete, a 200
  // reply states the decisions; and there is one when every context is an object.
  ghost predicate BatchServed(policy: Policy, rq: HttpRequest, o: Outcome) {
    forall v | Spells(rq.body, v) && CompleteBatch(v) ::
      && (Succeeded(o) ==> Answering(o, BatchDecisions(policy, v)))
      && (BatchContexts(v) ==> Succeeded(o))
  }

  ghost predicate OneServed(policy: Policy, rq: HttpRequest, o: Outcome) {
    forall v | Spells(rq.body, v) && CompleteAsk(AskOf(v)) ::
      && (Succeeded(o) ==> AnsweringOne(o, policy(AskMeaning(AskOf(v)))))
      && (ObjectContext(AskOf(v)) ==> Succeeded(o))
  }

  // Serves the policy at endpoint, to requests with these credentials. Nothing is asked of
  // the replies to any other request, nor to an incomplete one: they may be refusals.
  ghost predicate ServesOne(policy: Policy, net: Transport, endpoint: string, credentials: Option<string>) {
    forall rq: HttpRequest | rq.endpoint == endpoint && rq.authorization == credentials ::
      OneServed(policy, rq, net(rq))
  }

  ghost predicate ServesBatch(policy: Policy, net: Transport, endpoint: string, credentials: Option<string>) {
    forall rq: HttpRequest | rq.endpoint == endpoint && rq.authorization == credentials ::
      BatchServed(policy, rq, net(rq))
  }

  // ----- such a PDP exists: one that answers both kinds of request

  function OneAnswer(d: bool): Value { Object(Members(Spell("decision"), Bool(d), NoMembers)) }

  function Answer(d: bool, ds: seq<bool>): Value {
    var all := seq(|ds|, i requires 0 <= i < |ds| => OneAnswer(ds[i]));
    Object(Members(Spell("decision"), Bool(d),
      Members(Spell("evaluations"), Array(FromSeq(all)), NoMembers)))
  }

  // Refuses requests without its credentials, and incomplete ones.
  function Reference(policy: Policy, credentials: Option<string>, rq: HttpRequest): Outcome {
    if rq.authorization != credentials then Response(401, "")
    else
      match ParseDoc(rq.body)
      case None => Response(400, "")
      case Some(v) =>
        if !CompleteBatch(v) && !CompleteAsk(AskOf(v)) then Response(400, "")
        else Response(200, Text(Answer(policy(AskMeaning(AskOf(v))), BatchDecisions(policy, v))))
  }

  lemma OneAnswerIsAnswer(d: bool)
    ensures WellFormed(OneAnswer(d)) && AnswersOne(OneAnswer(d), d)
  {
    SpellUnescape("decision");
    SpellOk("decision");
  }

  lemma AnswerIsAnswer(d: bool, ds: seq<bool>)
    ensures WellFormed(Answer(d, ds)) && AnswersOne(Answer(d, ds), d) && AnswersAll(Answer(d, ds), ds)
  {
    var all := seq(|ds|, i requires 0 <= i < |ds| => OneAnswer(ds[i]));
    forall i | 0 <= i < |ds| ensures WellFormed(all[i]) && AnswersOne(all[i], ds[i]) {
      OneAnswerIsAnswer(ds[i]);
    }
    FromSeqWellFormed(all);
    ElementsFromSeq(all);
    AnswerShape(d, FromSeq(all));
    assert AnswersEach(FromSeq(all), ds);
  }

  lemma AnswerShape(d: bool, vs: Values)
    requires AllWellFormed(vs)
    ensures var ms := Members(Spell("decision"), Bool(d), Members(Spell("evaluations"), Array(vs), NoMembers));
      MembersWellFormed(ms) && Sole(ms, "decision", Bool(d)) && Sole(ms, "evaluations", Array(vs))
  {
    FoldDiffers();
    TwoMembers("decision", Bool(d), "evaluations", Array(vs));
    NamesClean("evaluations");
    DecisionClean();
    MemberWellFormed("evaluations", Some(Array(vs)), NoMembers);
    MemberWellFormed("decision", Some(Bool(d)), Members(Spell("evaluations"), Array(vs), NoMembers));
  }

  lemma DecisionClean()
    ensures CleanName("decision")
  {
  }

  lemma TwoMembers(n1: string, x1: Value, n2: string, x2: Value)
    requires Fold(n1) != Fold(n2)
    ensures var ms := Members(Spell(n1), x1, Members(Spell(n2), x2, NoMembers));
      Sole(ms, n1, x1) && Sole(ms, n2, x2)
  {
    SpellUnescape(n1);
    SpellUnescape(n2);
    var rest := Members(Spell(n2), x2, NoMembers);
    assert Field(rest, n1, Folded).None?;
    assert Sole(rest, n2, x2);
  }

  lemma FoldDiffers()
    ensures Fold("decision") != Fold("evaluations")
    ensures Fold("decision") != Fold("context")
  {
    FoldFirst("decision");
    FoldFirst("evaluations");
    FoldFirst("context");
  }

  lemma FoldFirst(s: string)
    requires s != "" && 'a' <= s[0] <= 'z'
    ensures Fold(s) != "" && Fold(s)[0] == s[0] - 'a' + 'A'
  {
  }

  /** For every policy there is a PDP that serves it, and refuses all that it may refuse for. */
  lemma ReferenceServes(policy: Policy, endpoint: string, credentials: Option<string>)
    ensures ServesOne(policy, rq => Reference(policy, credentials, rq), endpoint, credentials)
    ensures ServesBatch(policy, rq => Reference(policy, credentials, rq), endpoint, credentials)
  {
    forall rq: HttpRequest | rq.authorization == credentials
      ensures OneServed(policy, rq, Reference(policy, credentials, rq))
      ensures BatchServed(policy, rq, Reference(policy, credentials, rq))
    {
      forall v | Spells(rq.body, v)
        ensures ParseDoc(rq.body) == Some(v)
        ensures var d, ds := policy(AskMeaning(AskOf(v))), BatchDecisions(policy, v);
          var o := Response(200, Text(Answer(d, ds)));
          AnsweringOne(o, d) && Answering(o, ds)
      {
        DocExactly(rq.body, v);
        AnswerRead(policy, v);
      }
    }
  }

  lemma ReferenceRefuses(policy: Policy, credentials: Option<string>, rq: HttpRequest, v: Value)
    requires Spells(rq.body, v)
    ensures rq.authorization != credentials || (!CompleteBatch(v) && !CompleteAsk(AskOf(v)))
       <==> !Succeeded(Reference(policy, credentials, rq))
  {
    DocExactly(rq.body, v);
  }

  lemma AnswerRead(policy: Policy, v: Value)
    ensures var d, ds := policy(AskMeaning(AskOf(v))), BatchDecisions(policy, v);
      var o := Response(200, Text(Answer(d, ds)));
      AnsweringOne(o, d) && Answering(o, ds)
  {
    var d, ds := policy(AskMeaning(AskOf(v))), BatchDecisions(policy, v);
    AnswerIsAnswer(d, ds);
    TextBack(Answer(d, ds));
    DocExactly(Text(Answer(d, ds)), Answer(d, ds));
  }

  // ----- what is complete

  lemma CarriesHolds(v: Option<Value>, names: seq<string>)
    requires v.Some? && names != []
    ensures Carries(v, names) <==> forall m | m in names :: HoldsText(v, m)
  {
    if !v.value.Object? {
      assert names[0] in names;
      assert !HasText(NoMembers, names[0]);
    }
  }

  /** The client's checks let through exactly what has its five members. */
  lemma CompleteExactly(a: Ask)
    ensures Complete(a) <==> CompleteAsk(a)
  {
    assert "type" in ["type", "id"] && "id" in ["type", "id"] && "name" in ["name"];
    if a.subject.Some? && a.action.Some? && a.resource.Some? {
      CarriesHolds(a.subject, ["type", "id"]);
      CarriesHolds(a.action, ["name"]);
      CarriesHolds(a.resource, ["type", "id"]);
    }
  }

  // ----- what the PDP finds in a batch request

  // Part n of an entry means the same whether its name is matched in any case or exactly:
  // what shadows it means what the exact member, or else the default, means.
  predicate PartAlike(ms: Members, defaults: Ask, n: string)
    requires IsPart(n)
  {
    || Unshadowed(ms, n)
    || OptionMeaning(Field(ms, n, Folded)) == OptionMeaning(FirstPresent(Field(ms, n, Exact), Part(defaults, n)))
  }

  predicate ReadAlike(entry: Value, defaults: Ask) {
    entry.Object? ==>
      && PartAlike(entry.members, defaults, "subject") && PartAlike(entry.members, defaults, "action")
      && PartAlike(entry.members, defaults, "resource") && PartAlike(entry.members, defaults, "context")
  }

  lemma MemberCompact(ms: Members, n: string)
    ensures Member(Compact(Object(ms)), n) == CompactOption(Field(ms, n, Exact))
  {
    CompactField(ms, n, Exact);
  }

  lemma PresentMeaning(x: Option<Value>, y: Option<Value>)
    ensures OptionMeaning(FirstPresent(CompactOption(x), CompactOption(y))) == OptionMeaning(FirstPresent(x, y))
  {
    CompactOptionMeaning(x);
    CompactOptionMeaning(y);
  }

  lemma TopPart(defaults: Ask, entries: seq<Value>, semantic: string, n: string)
    requires IsPart(n)
    ensures Member(Compact(Object(BatchMembers(defaults, entries, semantic))), n) == CompactOption(Part(defaults, n))
  {
    MemberCompact(BatchMembers(defaults, entries, semantic), n);
    BatchField(defaults, entries, semantic, n);
  }

  // What an exact reader takes for part n of an entry.
  lemma PartSeen(entry: Value, defaults: Ask, entries: seq<Value>, semantic: string, n: string)
    requires entry.Object? && IsPart(n)
    ensures var request := Compact(Object(BatchMembers(defaults, entries, semantic)));
      OptionMeaning(FirstPresent(Member(Compact(entry), n), Member(request, n)))
      == OptionMeaning(FirstPresent(Field(entry.members, n, Exact), Part(defaults, n)))
  {
    MemberCompact(entry.members, n);
    TopPart(defaults, entries, semantic, n);
    PresentMeaning(Field(entry.members, n, Exact), Part(defaults, n));
  }

  // An entry as an exact reader takes it, over the defaults.
  function ReadExactly(entry: Value, defaults: Ask): Ask {
    Ask(FirstPresent(Member(entry, "subject"), defaults.subject),
        FirstPresent(Member(entry, "action"), defaults.action),
        FirstPresent(Member(entry, "resource"), defaults.resource),
        FirstPresent(Member(entry, "context"), defaults.context))
  }

  lemma ExactlySeen(entry: Value, defaults: Ask, entries: seq<Value>, semantic: string)
    requires entry.Object?
    ensures var request := Compact(Object(BatchMembers(defaults, entries, semantic)));
      AskMeaning(EntryAsk(request, Compact(entry))) == AskMeaning(ReadExactly(entry, defaults))
  {
    NamesDiffer();
    PartSeen(entry, defaults, entries, semantic, "subject");
    PartSeen(entry, defaults, entries, semantic, "action");
    PartSeen(entry, defaults, entries, semantic, "resource");
    PartSeen(entry, defaults, entries, semantic, "context");
  }

  lemma AlikeExactly(ms: Members, defaults: Ask, n: string)
    requires IsPart(n)
    ensures OptionMeaning(FirstPresent(Field(ms, n, Exact), Part(defaults, n)))
         == OptionMeaning(FirstPresent(Field(ms, n, Folded), Part(defaults, n)))
       <==> PartAlike(ms, defaults, n)
  {
    if Unshadowed(ms, n) {
      SameField(ms, n);
    } else {
      SamePosition(ms, n);
      FieldAtPosition(ms, n, Folded);
      FieldAtPosition(ms, n, Exact);
    }
  }

  lemma PartSeenAlike(entry: Value, defaults: Ask, entries: seq<Value>, semantic: string, n: string)
    requires entry.Object? && IsPart(n)
    ensures var request := Compact(Object(BatchMembers(defaults, entries, semantic)));
      OptionMeaning(FirstPresent(Member(Compact(entry), n), Member(request, n)))
      == OptionMeaning(FirstPresent(Field(entry.members, n, Folded), Part(defaults, n)))
      <==> PartAlike(entry.members, defaults, n)
  {
    PartSeen(entry, defaults, entries, semantic, n);
    AlikeExactly(entry.members, defaults, n);
  }

  /** The PDP evaluates what the client validated exactly when every part is read alike. */
  lemma EntrySeen(entry: Value, defaults: Ask, entries: seq<Value>, semantic: string)
    requires entry.Object?
    ensures var request := Compact(Object(BatchMembers(defaults, entries, semantic)));
      AskMeaning(EntryAsk(request, Compact(entry))) == AskMeaning(Effective(entry.members, defaults))
      <==> ReadAlike(entry, defaults)
  {
    NamesDiffer();
    PartSeenAlike(entry, defaults, entries, semantic, "subject");
    PartSeenAlike(entry, defaults, entries, semantic, "action");
    PartSeenAlike(entry, defaults, entries, semantic, "resource");
    PartSeenAlike(entry, defaults, entries, semantic, "context");
  }

  lemma LoneMember(k: string, x: Value, name: string)
    requires k != name && Fold(k) == Fold(name)
    ensures var ms := Members(Spell(k), x, NoMembers);
      !Unshadowed(ms, name) && Field(ms, name, Folded) == Some(x) && Field(ms, name, Exact).None?
  {
    SpellUnescape(k);
    assert Field(NoMembers, name, Exact).None? && Field(NoMembers, name, Folded).None?;
  }

  lemma SubjectFolds()
    ensures Fold("Subject") == Fold("subject") && "Subject" != "subject"
  {
    assert "Subject"[1..] == "subject"[1..] == "ubject";
    assert "Subject"[0] != "subject"[0];
    assert Fold("Subject") == ['S'] + Fold("ubject");
    assert Fold("subject") == ['S'] + Fold("ubject");
  }

  lemma EvaluationsSeen(defaults: Ask, entries: seq<Value>, semantic: string)
    ensures Member(Compact(Object(BatchMembers(defaults, entries, semantic))), "evaluations")
         == Some(Array(CompactAll(FromSeq(entries))))
  {
    NamesDiffer();
    TopSeen(defaults, entries, semantic, "evaluations");
    TailField(entries, semantic, "evaluations");
  }

  lemma TopSeen(defaults: Ask, entries: seq<Value>, semantic: string, n: string)
    requires !IsPart(n)
    ensures Member(Compact(Object(BatchMembers(defaults, entries, semantic))), n)
         == CompactOption(Field(BatchTail(entries, semantic), n, Exact))
  {
    MemberCompact(BatchMembers(defaults, entries, semantic), n);
    BatchField(defaults, entries, semantic, n);
  }

  lemma EntriesSeen(defaults: Ask, entries: seq<Value>, semantic: string)
    ensures var request := Compact(Object(BatchMembers(defaults, entries, semantic)));
      && |EntriesOf(request)| == |entries|
      && forall i | 0 <= i < |entries| :: EntriesOf(request)[i] == Compact(entries[i])
  {
    EvaluationsSeen(defaults, entries, semantic);
    CompactElements(FromSeq(entries));
    ElementsFromSeq(entries);
  }

  lemma SemanticSeen(defaults: Ask, entries: seq<Value>, semantic: string)
    requires semantic != ""
    ensures SemanticOf(Compact(Object(BatchMembers(defaults, entries, semantic)))) == semantic
  {
    NamesDiffer();
    TopSeen(defaults, entries, semantic, "options");
    TailField(entries, semantic, "options");
    OptionalField("evaluations_semantic", Some(String(Spell(semantic))), NoMembers, "evaluations_semantic");
    CompactField(OptionsMembers(semantic), "evaluations_semantic", Exact);
    CompactUnescape(Spell(semantic));
    SpellUnescape(semantic);
  }

  // ----- the overall answer

  /**
    A short answer still determines the conjunction or the disjunction over all
    entries, and every reported decision but the last is the opposite of the last
    when the answer is cut short.
   */
  lemma EarlyExit(ds: seq<bool>, semantic: string)
    requires ds != []
    ensures var n := Stop(semantic, ds);
      && 0 < n
      && (semantic == DENY_ON_FIRST_DENY ==> (ds[n - 1] <==> false !in ds))
      && (semantic == PERMIT_ON_FIRST_PERMIT ==> (ds[n - 1] <==> true in ds))
      && (semantic == EXECUTE_ALL ==> n == |ds|)
      && (n < |ds| ==>
            && semantic in {DENY_ON_FIRST_DENY, PERMIT_ON_FIRST_PERMIT}
            && ds[n - 1] == (semantic == PERMIT_ON_FIRST_PERMIT))
      && (semantic in {DENY_ON_FIRST_DENY, PERMIT_ON_FIRST_PERMIT} ==>
            forall i | 0 <= i < n - 1 :: ds[i] == (semantic == DENY_ON_FIRST_DENY))
  {
    assert EXECUTE_ALL[0] == 'e' && DENY_ON_FIRST_DENY[0] == 'd' && PERMIT_ON_FIRST_PERMIT[0] == 'p';
  }
}
