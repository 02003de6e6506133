/** The request bodies of authzen.go, and what a reader of the sent bytes finds in them. */
module Wire {
  import opened Wrappers
  import opened Json
  import opened JsonRoundTrip
  import opened GoJson
  import opened Requests
  import opened Spelling
  import opened Strings

  // A member with omitempty.
  function Optional(name: string, v: Option<Value>, rest: Members): Members {
    if v.Some? then Members(Spell(name), v.value, rest) else rest
  }

  // A member without omitempty: an absent raw message is sent as null.
  function Always(name: string, v: Option<Value>, rest: Members): Members {
    Members(Spell(name), if v.Some? then v.value else Null, rest)
  }

  function SingleMembers(a: Ask): Members {
    Always("subject", a.subject,
      Always("action", a.action,
        Always("resource", a.resource,
          Optional("context", a.context, NoMembers))))
  }

  function OptionsMembers(semantic: string): Members {
    Optional("evaluations_semantic", if semantic == "" then None else Some(String(Spell(semantic))), NoMembers)
  }

  function BatchTail(entries: seq<Value>, semantic: string): Members {
    Always("evaluations", Some(Array(FromSeq(entries))),
      Always("options", Some(Object(OptionsMembers(semantic))), NoMembers))
  }

  function BatchMembers(defaults: Ask, entries: seq<Value>, semantic: string): Members {
    Optional("subject", defaults.subject,
      Optional("action", defaults.action,
        Optional("resource", defaults.resource,
          Optional("context", defaults.context, BatchTail(entries, semantic)))))
  }

  // json.Marshal: the bytes that are sent.
  function Marshal(v: Value): string { Text(Compact(v)) }

  // ----- reading the members back

  lemma OptionalField(name: string, v: Option<Value>, rest: Members, n: string)
    ensures Field(Optional(name, v, rest), n, Exact)
         == if Field(rest, n, Exact).Some? then Field(rest, n, Exact)
            else if n == name then v else None
  {
    SpellUnescape(name);
  }

  lemma AlwaysField(name: string, v: Option<Value>, rest: Members, n: string)
    requires v.Some?
    ensures Field(Always(name, v, rest), n, Exact)
         == if Field(rest, n, Exact).Some? then Field(rest, n, Exact)
            else if n == name then v else None
  {
    SpellUnescape(name);
  }

  lemma NamesDiffer()
    ensures "subject" != "action" && "subject" != "resource" && "subject" != "context"
    ensures "action" != "resource" && "action" != "context" && "resource" != "context"
    ensures forall s: string | s in ["subject", "action", "resource", "context"] ::
              s != "evaluations" && s != "options"
    ensures "evaluations" != "options"
  {
    assert "subject"[0] != "context"[0];
  }

  predicate IsPart(n: string) { n in ["subject", "action", "resource", "context"] }

  function Part(a: Ask, n: string): Option<Value>
    requires IsPart(n)
  {
    if n == "subject" then a.subject
    else if n == "action" then a.action
    else if n == "resource" then a.resource
    else a.context
  }

  lemma SingleField(a: Ask, n: string)
    requires a.subject.Some? && a.action.Some? && a.resource.Some? && IsPart(n)
    ensures Field(SingleMembers(a), n, Exact) == Part(a, n)
  {
    NamesDiffer();
    var m3 := Optional("context", a.context, NoMembers);
    var m2 := Always("resource", a.resource, m3);
    var m1 := Always("action", a.action, m2);
    OptionalField("context", a.context, NoMembers, n);
    AlwaysField("resource", a.resource, m3, n);
    AlwaysField("action", a.action, m2, n);
    AlwaysField("subject", a.subject, m1, n);
  }

  lemma TailField(entries: seq<Value>, semantic: string, n: string)
    ensures Field(BatchTail(entries, semantic), n, Exact)
         == if n == "evaluations" then Some(Array(FromSeq(entries)))
            else if n == "options" then Some(Object(OptionsMembers(semantic)))
            else None
  {
    NamesDiffer();
    var options := Some(Object(OptionsMembers(semantic)));
    var m := Always("options", options, NoMembers);
    AlwaysField("options", options, NoMembers, n);
    AlwaysField("evaluations", Some(Array(FromSeq(entries))), m, n);
  }

  /** Every member of the batch request is read back; an omitted one is absent. */
  lemma BatchField(defaults: Ask, entries: seq<Value>, semantic: string, n: string)
    ensures Field(BatchMembers(defaults, entries, semantic), n, Exact)
         == if IsPart(n) then Part(defaults, n) else Field(BatchTail(entries, semantic), n, Exact)
  {
    NamesDiffer();
    TailField(entries, semantic, n);
    var m4 := BatchTail(entries, semantic);
    var m3 := Optional("context", defaults.context, m4);
    var m2 := Optional("resource", defaults.resource, m3);
    var m1 := Optional("action", defaults.action, m2);
    OptionalField("context", defaults.context, m4, n);
    OptionalField("resource", defaults.resource, m3, n);
    OptionalField("action", defaults.action, m2, n);
    OptionalField("subject", defaults.subject, m1, n);
  }

  // ----- the bytes

  predicate CleanName(s: string) { forall i | 0 <= i < |s| :: IsPlain(s[i]) }

  lemma SpellOk(s: string)
    requires CleanName(s)
    ensures ItemsOk(Spell(s))
  {
  }

  lemma NamesClean(n: string)
    requires IsPart(n) || n == "evaluations" || n == "options" || n == "evaluations_semantic"
    ensures CleanName(n)
  {
  }

  lemma MemberWellFormed(name: string, v: Option<Value>, rest: Members)
    requires CleanName(name) && (v.Some? ==> WellFormed(v.value)) && MembersWellFormed(rest)
    ensures MembersWellFormed(Always(name, v, rest)) && MembersWellFormed(Optional(name, v, rest))
  {
    SpellOk(name);
  }

  lemma SingleWellFormed(a: Ask)
    requires Sendable(a)
    ensures MembersWellFormed(SingleMembers(a))
  {
    NamesClean("subject");
    NamesClean("action");
    NamesClean("resource");
    NamesClean("context");
    var m3 := Optional("context", a.context, NoMembers);
    var m2 := Always("resource", a.resource, m3);
    var m1 := Always("action", a.action, m2);
    MemberWellFormed("context", a.context, NoMembers);
    MemberWellFormed("resource", a.resource, m3);
    MemberWellFormed("action", a.action, m2);
    MemberWellFormed("subject", a.subject, m1);
  }

  lemma BatchWellFormed(defaults: Ask, entries: seq<Value>, semantic: string)
    requires Sendable(defaults) && (forall e | e in entries :: WellFormed(e)) && CleanName(semantic)
    ensures MembersWellFormed(BatchMembers(defaults, entries, semantic))
  {
    NamesClean("subject");
    NamesClean("action");
    NamesClean("resource");
    NamesClean("context");
    var m4 := BatchTail(entries, semantic);
    var m3 := Optional("context", defaults.context, m4);
    var m2 := Optional("resource", defaults.resource, m3);
    var m1 := Optional("action", defaults.action, m2);
    TailWellFormed(entries, semantic);
    MemberWellFormed("context", defaults.context, m4);
    MemberWellFormed("resource", defaults.resource, m3);
    MemberWellFormed("action", defaults.action, m2);
    MemberWellFormed("subject", defaults.subject, m1);
  }

  lemma TailWellFormed(entries: seq<Value>, semantic: string)
    requires (forall e | e in entries :: WellFormed(e)) && CleanName(semantic)
    ensures MembersWellFormed(BatchTail(entries, semantic))
  {
    NamesClean("evaluations");
    NamesClean("options");
    NamesClean("evaluations_semantic");
    SpellOk(semantic);
    FromSeqWellFormed(entries);
    var choice := if semantic == "" then None else Some(String(Spell(semantic)));
    MemberWellFormed("evaluations_semantic", choice, NoMembers);
    var options := Some(Object(OptionsMembers(semantic)));
    MemberWellFormed("options", options, NoMembers);
    MemberWellFormed("evaluations", Some(Array(FromSeq(entries))), Always("options", options, NoMembers));
  }

  /**
    What is sent is one JSON text. Its tree means the same as the tree that was
    marshalled: member order, number literals and string values are unchanged.
   */
  lemma MarshalBack(v: Value)
    requires WellFormed(v)
    ensures ParseDoc(Marshal(v)) == Some(Compact(v)) && Meaning(Compact(v)) == Meaning(v)
  {
    CompactWellFormed(v);
    TextBack(Compact(v));
    CompactMeaning(v);
  }

  function AskMeaning(a: Ask): Ask {
    Ask(OptionMeaning(a.subject), OptionMeaning(a.action), OptionMeaning(a.resource), OptionMeaning(a.context))
  }

  lemma CompactOptionMeaning(v: Option<Value>)
    ensures OptionMeaning(CompactOption(v)) == OptionMeaning(v)
  {
    if v.Some? {
      CompactMeaning(v.value);
    }
  }

  // ----- the request, byte for byte

  // Bytes that json.Marshal writes as they are.
  predicate PlainName(s: string) { CleanName(s) && forall c | c in s :: c != '<' && c != '>' && c != '&' && c != '\U{E2}' }

  lemma {:induction false} PlainCompact(s: string)
    requires PlainName(s)
    ensures CompactItems(Spell(s)) == Spell(s)
  {
    if s != "" {
      assert Spell(s)[1..] == Spell(s[1..]) && Spell(s)[0] == Plain(s[0]) && s[0] in s;
      assert forall c | c in s[1..] :: c in s;
      PlainCompact(s[1..]);
      assert Spell(s) == [Plain(s[0])] + Spell(s[1..]);
    }
  }

  // A raw message as it is sent.
  function SentText(v: Option<Value>): string { if v.Some? then Text(Compact(v.value)) else "null" }

  function SentField(name: string, v: Option<Value>): seq<string> {
    if v.Some? then [Named(name, SentText(v))] else []
  }

  lemma OptionalText(name: string, v: Option<Value>, rest: Members)
    requires PlainName(name)
    ensures FieldTexts(CompactMembers(Optional(name, v, rest))) == SentField(name, v) + FieldTexts(CompactMembers(rest))
  {
    if v.Some? {
      AlwaysText(name, v, rest);
    }
  }

  lemma AlwaysText(name: string, v: Option<Value>, rest: Members)
    requires PlainName(name)
    ensures FieldTexts(CompactMembers(Always(name, v, rest)))
         == [Named(name, SentText(v))] + FieldTexts(CompactMembers(rest))
  {
    PlainCompact(name);
    NamedText(name, SentText(v));
  }

  lemma NamedText(name: string, value: string)
    ensures StringText(Spell(name)) + ":" + value == Named(name, value)
  {
    SpellText(name);
    assert "\"" + name + "\":" == ['"'] + name + ['"'] + ":";
  }

  lemma PartsPlain()
    ensures PlainName("subject") && PlainName("action") && PlainName("resource") && PlainName("context")
  {
  }

  lemma TailPlain()
    ensures PlainName("evaluations") && PlainName("options") && PlainName("evaluations_semantic")
  {
  }

  /** The body of a single request: three members, and context when there is one. */
  lemma SingleText(a: Ask)
    ensures Marshal(Object(SingleMembers(a))) == Braced(
      [Named("subject", SentText(a.subject))] + ([Named("action", SentText(a.action))] +
      ([Named("resource", SentText(a.resource))] + SentField("context", a.context))))
  {
    PartsPlain();
    var m3 := Optional("context", a.context, NoMembers);
    var m2 := Always("resource", a.resource, m3);
    var m1 := Always("action", a.action, m2);
    OptionalText("context", a.context, NoMembers);
    assert SentField("context", a.context) + [] == SentField("context", a.context);
    AlwaysText("resource", a.resource, m3);
    AlwaysText("action", a.action, m2);
    AlwaysText("subject", a.subject, m1);
    ObjectBraced(CompactMembers(SingleMembers(a)));
  }

  function EntryTexts(entries: seq<Value>): seq<string> {
    seq(|entries|, i requires 0 <= i < |entries| => Text(Compact(entries[i])))
  }

  lemma {:induction false} CompactFromSeq(entries: seq<Value>)
    ensures CompactAll(FromSeq(entries)) == FromSeq(seq(|entries|, i requires 0 <= i < |entries| => Compact(entries[i])))
  {
    if entries != [] {
      CompactFromSeq(entries[1..]);
      var all := seq(|entries|, i requires 0 <= i < |entries| => Compact(entries[i]));
      assert all[1..] == seq(|entries[1..]|, i requires 0 <= i < |entries[1..]| => Compact(entries[1..][i]));
    }
  }

  lemma EntriesText(entries: seq<Value>)
    ensures SentText(Some(Array(FromSeq(entries)))) == Bracketed(EntryTexts(entries))
  {
    CompactFromSeq(entries);
    ArrayBracketed(seq(|entries|, i requires 0 <= i < |entries| => Compact(entries[i])), EntryTexts(entries));
  }

  lemma OptionsText(semantic: string)
    requires PlainName(semantic) && semantic != ""
    ensures SentText(Some(Object(OptionsMembers(semantic)))) == Braced([Named("evaluations_semantic", "\"" + semantic + "\"")])
  {
    TailPlain();
    var choice := Some(String(Spell(semantic)));
    OptionalText("evaluations_semantic", choice, NoMembers);
    PlainCompact(semantic);
    SpellText(semantic);
    assert SentText(choice) == "\"" + semantic + "\"";
    assert SentField("evaluations_semantic", choice) + [] == SentField("evaluations_semantic", choice);
    ObjectBraced(CompactMembers(OptionsMembers(semantic)));
  }

  /** The body of a batch request: the defaults there are, the entries in order, and the semantic. */
  lemma BatchText(defaults: Ask, entries: seq<Value>, semantic: string)
    requires PlainName(semantic) && semantic != ""
    ensures Marshal(Object(BatchMembers(defaults, entries, semantic))) == Braced(
      SentField("subject", defaults.subject) + (SentField("action", defaults.action) +
      (SentField("resource", defaults.resource) + (SentField("context", defaults.context) +
      ([Named("evaluations", Bracketed(EntryTexts(entries)))] +
      [Named("options", Braced([Named("evaluations_semantic", "\"" + semantic + "\"")]))])))))
  {
    PartsPlain();
    var m4 := BatchTail(entries, semantic);
    var m3 := Optional("context", defaults.context, m4);
    var m2 := Optional("resource", defaults.resource, m3);
    var m1 := Optional("action", defaults.action, m2);
    EndText(entries, semantic);
    OptionalText("context", defaults.context, m4);
    OptionalText("resource", defaults.resource, m3);
    OptionalText("action", defaults.action, m2);
    OptionalText("subject", defaults.subject, m1);
    ObjectBraced(CompactMembers(BatchMembers(defaults, entries, semantic)));
  }

  lemma EndText(entries: seq<Value>, semantic: string)
    requires PlainName(semantic) && semantic != ""
    ensures FieldTexts(CompactMembers(BatchTail(entries, semantic))) ==
      [Named("evaluations", Bracketed(EntryTexts(entries)))] +
      [Named("options", Braced([Named("evaluations_semantic", "\"" + semantic + "\"")]))]
  {
    TailPlain();
    EntriesText(entries);
    OptionsText(semantic);
    var options := Some(Object(OptionsMembers(semantic)));
    AlwaysText("options", options, NoMembers);
    AlwaysText("evaluations", Some(Array(FromSeq(entries))), Always("options", options, NoMembers));
  }

  // ----- completeness is a matter of meaning

  lemma TextMeaning(ms: Members, m: string)
    ensures HasText(MembersMeaning(ms), m) <==> HasText(ms, m)
  {
    MeaningField(ms, m, Exact);
    match Field(ms, m, Exact)
    case Some(String(s)) => SpellUnescape(Unescape(s));
    case _ =>
  }

  lemma CarriesMeaning(raw: Option<Value>, names: seq<string>)
    ensures Carries(OptionMeaning(raw), names) <==> Carries(raw, names)
  {
    if raw.Some? && AsMap(raw.value).Some? {
      var ms := AsMap(raw.value).value;
      assert AsMap(Meaning(raw.value)) == Some(MembersMeaning(ms));
      forall m | m in names ensures HasText(MembersMeaning(ms), m) <==> HasText(ms, m) {
        TextMeaning(ms, m);
      }
    }
  }

  /** Whether an evaluation is complete, and its context an object, depends on its meaning only. */
  lemma CompleteMeaning(a: Ask)
    ensures Complete(AskMeaning(a)) <==> Complete(a)
    ensures ObjectContext(AskMeaning(a)) <==> ObjectContext(a)
  {
    CarriesMeaning(a.subject, ["type", "id"]);
    CarriesMeaning(a.action, ["name"]);
    CarriesMeaning(a.resource, ["type", "id"]);
  }
}
