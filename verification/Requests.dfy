/**
  Reading and validating the arguments of the two evaluation tools. A raw message is
  represented by its syntax tree; an absent one by None.
 */
module Requests {
  import opened Wrappers
  import opened Json
  import opened JsonRoundTrip
  import opened GoJson
  import opened Numbers

  // The string arguments of a call.
  type Args = map<string, string>

  function GetString(args: Args, name: string, default: string): string {
    if name in args then args[name] else default
  }

  const MAX_BATCH := 100

  // The subject, action, resource and context of one evaluation.
  datatype Ask = Ask(subject: Option<Value>, action: Option<Value>,
                     resource: Option<Value>, context: Option<Value>)

  // ----- single arguments

  // json.Unmarshal into `any`: a number that is no finite float64 is an error.
  function DecodeAny(s: string): Option<Value> {
    var v :- ParseDoc(s);
    if InRange(v) then Some(v) else None
  }

  function AsJsonObject(s: string): (r: Option<Value>)
    ensures r.Some? <==> ParseDoc(s).Some? && ParseDoc(s).value.Object? && InRange(ParseDoc(s).value)
    ensures r.Some? ==> r == ParseDoc(s)
  {
    var v :- DecodeAny(s);
    if v.Object? then Some(v) else None
  }

  lemma Refused(s: string, v: Value)
    requires ParseDoc(s) == Some(v) && !InRange(v)
    ensures AsJsonObject(s).None?
  {
  }

  lemma LoneNumber(k: seq<Item>, x: Value)
    requires ItemsOk(k) && WellFormed(x) && !InRange(x)
    ensures var v := Object(Members(k, x, NoMembers)); WellFormed(v) && !InRange(v)
  {
  }

  /** A JSON object that is not accepted: one of its numbers is too large for a float64. */
  lemma HugeNumberRefused() returns (v: Value)
    ensures v.Object? && ParseDoc(Text(v)) == Some(v) && AsJsonObject(Text(v)).None?
  {
    var k, x := [Plain('a')], Number("1e400");
    v := Object(Members(k, x, NoMembers));
    HugeLiteral();
    LoneNumber(k, x);
    TextBack(v);
    Refused(Text(v), v);
  }

  // Err(()) is an error result; Ok(None) an absent argument.
  function JsonObjectArg(args: Args, name: string, maxBytes: nat, required: bool): (r: Result<Option<Value>, ()>)
    ensures r.Ok? <==> Acceptable(args, name, maxBytes, required)
    ensures r.Ok? ==> r.value == Given(args, name)
  {
    var s := GetString(args, name, "");
    if s == "" then
      if required then Err(()) else Ok(None)
    else if |s| > maxBytes then Err(())
    else
      match AsJsonObject(s)
      case None => Err(())
      case Some(v) => Ok(Some(v))
  }

  function OptionalJson(args: Args, name: string, maxBytes: nat): Result<Option<Value>, ()> {
    var s := GetString(args, name, "");
    if s == "" then Ok(None)
    else if |s| > maxBytes then Err(())
    else
      match ParseDoc(s)
      case None => Err(())
      case Some(v) => Ok(Some(v))
  }

  // ----- required members

  // The member named m is a non-empty string.
  predicate HasText(ms: Members, m: string) {
    match Field(ms, m, Exact)
    case Some(String(s)) => Unescape(s) != ""
    case _ => false
  }

  // What json.Unmarshal makes of a value read into a map: null is an empty map.
  function AsMap(v: Value): Option<Members> {
    match v
    case Object(ms) => Some(ms)
    case Null => Some(NoMembers)
    case _ => None
  }

  // raw, when present, reads as a map with every one of names as a non-empty string.
  predicate Carries(raw: Option<Value>, names: seq<string>) {
    raw.Some? ==> AsMap(raw.value).Some? && forall m | m in names :: HasText(AsMap(raw.value).value, m)
  }

  method RequireMembers(raw: Option<Value>, names: seq<string>) returns (ok: bool)
    ensures ok <==> Carries(raw, names)
  {
    if raw.None? {
      return true;
    }
    var obj := AsMap(raw.value);
    if obj.None? {
      return false;
    }
    for i := 0 to |names|
      invariant forall j | 0 <= j < i :: HasText(obj.value, names[j])
    {
      var v := Field(obj.value, names[i], Exact);
      if v.None? {
        assert !HasText(obj.value, names[i]);
        return false;
      }
      match v.value {
        case String(s) =>
          if Unescape(s) == "" {
            assert !HasText(obj.value, names[i]);
            return false;
          }
        case _ =>
          assert !HasText(obj.value, names[i]);
          return false;
      }
    }
    return true;
  }

  predicate Valid(a: Ask) {
    Carries(a.subject, ["type", "id"]) && Carries(a.action, ["name"]) && Carries(a.resource, ["type", "id"])
  }

  method ValidateEntities(a: Ask) returns (ok: bool)
    ensures ok <==> Valid(a)
  {
    ok := RequireMembers(a.subject, ["type", "id"]);
    if !ok {
      return;
    }
    ok := RequireMembers(a.action, ["name"]);
    if !ok {
      return;
    }
    ok := RequireMembers(a.resource, ["type", "id"]);
  }

  /** An explicit null entity counts as present and is then rejected. */
  lemma ValidEntitiesAreObjects(a: Ask)
    requires Valid(a)
    ensures a.subject.Some? ==> a.subject.value.Object?
    ensures a.action.Some? ==> a.action.value.Object?
    ensures a.resource.Some? ==> a.resource.value.Object?
  {
    assert !HasText(NoMembers, "type") && !HasText(NoMembers, "name");
    assert "type" in ["type", "id"] && "name" in ["name"];
  }

  // ----- the four arguments both tools share

  // The argument is absent and may be, or is an object within the byte limit whose
  // numbers are in range.
  predicate Acceptable(args: Args, name: string, maxBytes: nat, required: bool) {
    var s := GetString(args, name, "");
    if s == "" then !required
    else |s| <= maxBytes && ParseDoc(s).Some? && ParseDoc(s).value.Object? && InRange(ParseDoc(s).value)
  }

  function Given(args: Args, name: string): Option<Value> {
    var s := GetString(args, name, "");
    if s == "" then None else ParseDoc(s)
  }

  function GivenAsk(args: Args): Ask {
    Ask(Given(args, "subject"), Given(args, "action"), Given(args, "resource"), Given(args, "context"))
  }

  predicate ArgsOk(args: Args, maxBytes: nat, required: bool) {
    && Acceptable(args, "subject", maxBytes, required)
    && Acceptable(args, "action", maxBytes, required)
    && Acceptable(args, "resource", maxBytes, required)
    && Acceptable(args, "context", maxBytes, false)
    && Valid(GivenAsk(args))
  }

  method ReadEvaluationArgs(args: Args, maxBytes: nat, required: bool) returns (r: Result<Ask, ()>)
    ensures r.Ok? <==> ArgsOk(args, maxBytes, required)
    ensures r.Ok? ==> r.value == GivenAsk(args)
  {
    var out := Ask(None, None, None, None);
    var v := JsonObjectArg(args, "subject", maxBytes, required);
    if v.Err? {
      return Err(());
    }
    out := out.(subject := v.value);
    v := JsonObjectArg(args, "action", maxBytes, required);
    if v.Err? {
      return Err(());
    }
    out := out.(action := v.value);
    v := JsonObjectArg(args, "resource", maxBytes, required);
    if v.Err? {
      return Err(());
    }
    out := out.(resource := v.value);
    v := JsonObjectArg(args, "context", maxBytes, false);
    if v.Err? {
      return Err(());
    }
    out := out.(context := v.value);
    var ok := ValidateEntities(out);
    if !ok {
      return Err(());
    }
    return Ok(out);
  }

  // ----- the evaluations argument

  function FirstPresent(entry: Option<Value>, fallback: Option<Value>): Option<Value> {
    if entry.Some? then entry else fallback
  }

  // The entry as encoding/json reads it, over the defaults.
  function Effective(ms: Members, defaults: Ask): Ask {
    Ask(FirstPresent(Field(ms, "subject", Folded), defaults.subject),
        FirstPresent(Field(ms, "action", Folded), defaults.action),
        FirstPresent(Field(ms, "resource", Folded), defaults.resource),
        FirstPresent(Field(ms, "context", Folded), defaults.context))
  }

  // An evaluation the PDP can be asked for: all three entities, each with its required members.
  predicate Complete(a: Ask) {
    a.subject.Some? && a.action.Some? && a.resource.Some? && Valid(a)
  }

  // The context is an object, which is checked of an argument but not of an entry's own.
  predicate ObjectContext(a: Ask) { a.context.Some? ==> a.context.value.Object? }

  predicate EntryOk(entry: Value, defaults: Ask) {
    entry.Object? && InRange(entry) && Complete(Effective(entry.members, defaults))
  }

  datatype EntriesError = BadArgument | BadEntry(index: nat)

  // The argument is an array of 1 to 100 values within the byte limit.
  function EntryList(args: Args, maxBytes: nat): Option<seq<Value>> {
    var s := GetString(args, "evaluations", "");
    if s == "" || |s| > maxBytes then None
    else
      match ParseDoc(s)
      case Some(Array(vs)) =>
        if 1 <= |Elements(vs)| <= MAX_BATCH then Some(Elements(vs)) else None
      case _ => None
  }

  method CheckEntry(entry: Value, defaults: Ask) returns (ok: bool)
    ensures ok <==> EntryOk(entry, defaults)
  {
    if !entry.Object? || !InRange(entry) {
      return false;
    }
    var effective := Effective(entry.members, defaults);
    if effective.subject.None? || effective.action.None? || effective.resource.None? {
      return false;
    }
    ok := ValidateEntities(effective);
  }

  method ReadEvaluationEntries(args: Args, maxBytes: nat, defaults: Ask)
    returns (r: Result<seq<Value>, EntriesError>)
    ensures r.Ok? <==>
      && EntryList(args, maxBytes).Some?
      && forall e | e in EntryList(args, maxBytes).value :: EntryOk(e, defaults)
    ensures r.Ok? ==> Some(r.value) == EntryList(args, maxBytes)
    ensures r.Err? && r.error.BadArgument? <==> EntryList(args, maxBytes).None?
    ensures r.Err? && r.error.BadEntry? ==>
      var es, i := EntryList(args, maxBytes).value, r.error.index;
      && i < |es| && !EntryOk(es[i], defaults)
      && forall j | 0 <= j < i :: EntryOk(es[j], defaults)
  {
    var read := OptionalJson(args, "evaluations", maxBytes);
    if read.Err? || read.value.None? {
      return Err(BadArgument);
    }
    var entries := [];
    match read.value.value {
      case Array(vs) => entries := Elements(vs);
      case _ => return Err(BadArgument);
    }
    if |entries| == 0 {
      return Err(BadArgument);
    }
    if |entries| > MAX_BATCH {
      return Err(BadArgument);
    }
    for i := 0 to |entries|
      invariant forall j | 0 <= j < i :: EntryOk(entries[j], defaults)
    {
      assert entries[i] in entries;
      var ok := CheckEntry(entries[i], defaults);
      if !ok {
        return Err(BadEntry(i));
      }
    }
    return Ok(entries);
  }

  // ----- what is read can be sent

  predicate Sendable(a: Ask) {
    && (a.subject.Some? ==> WellFormed(a.subject.value))
    && (a.action.Some? ==> WellFormed(a.action.value))
    && (a.resource.Some? ==> WellFormed(a.resource.value))
    && (a.context.Some? ==> WellFormed(a.context.value))
  }

  // Every part that is present fits in maxBytes.
  predicate Fits(a: Ask, maxBytes: nat) {
    && (a.subject.Some? ==> |Text(a.subject.value)| <= maxBytes)
    && (a.action.Some? ==> |Text(a.action.value)| <= maxBytes)
    && (a.resource.Some? ==> |Text(a.resource.value)| <= maxBytes)
    && (a.context.Some? ==> |Text(a.context.value)| <= maxBytes)
  }

  // Every part that is present is in range.
  predicate Convertible(a: Ask) {
    && (a.subject.Some? ==> InRange(a.subject.value))
    && (a.action.Some? ==> InRange(a.action.value))
    && (a.resource.Some? ==> InRange(a.resource.value))
    && (a.context.Some? ==> InRange(a.context.value))
  }

  lemma GivenRead(args: Args, name: string, maxBytes: nat, required: bool)
    requires Acceptable(args, name, maxBytes, required)
    ensures var v := Given(args, name);
      v.Some? ==> WellFormed(v.value) && |Text(v.value)| <= maxBytes && v.value.Object? && InRange(v.value)
  {
    var s := GetString(args, name, "");
    if s != "" {
      DocRead(s, ParseDoc(s).value);
    }
  }

  lemma DefaultsSendable(args: Args, maxBytes: nat, required: bool)
    requires ArgsOk(args, maxBytes, required)
    ensures Sendable(GivenAsk(args)) && Fits(GivenAsk(args), maxBytes) && Convertible(GivenAsk(args))
  {
    GivenRead(args, "subject", maxBytes, required);
    GivenRead(args, "action", maxBytes, required);
    GivenRead(args, "resource", maxBytes, required);
    GivenRead(args, "context", maxBytes, false);
  }

  lemma EntriesSendable(args: Args, maxBytes: nat, entry: Value)
    requires EntryList(args, maxBytes).Some? && entry in EntryList(args, maxBytes).value
    ensures WellFormed(entry) && |Text(entry)| <= maxBytes
  {
    var s := GetString(args, "evaluations", "");
    var v := ParseDoc(s).value;
    DocRead(s, v);
    ElementsWellFormed(v.values);
    ArrayTextLength(v.values);
  }

  lemma ArrayTextLength(vs: Values)
    requires vs.Values?
    ensures |Text(Array(vs))| == |TailText(vs)|
  {
  }

  lemma PartSendable(ms: Members, name: string, default: Option<Value>, maxBytes: nat)
    requires MembersWellFormed(ms) && |Text(Object(ms))| <= maxBytes
    requires default.Some? ==> WellFormed(default.value) && |Text(default.value)| <= maxBytes
    ensures var v := FirstPresent(Field(ms, name, Folded), default);
      v.Some? ==> WellFormed(v.value) && |Text(v.value)| <= maxBytes
  {
    if Field(ms, name, Folded).Some? {
      FieldWellFormed(ms, name, Folded);
      assert |Text(Object(ms))| == |MoreText(ms)|;
    }
  }

  lemma EffectiveSendable(ms: Members, defaults: Ask, maxBytes: nat)
    requires MembersWellFormed(ms) && |Text(Object(ms))| <= maxBytes
    requires Sendable(defaults) && Fits(defaults, maxBytes)
    ensures Sendable(Effective(ms, defaults)) && Fits(Effective(ms, defaults), maxBytes)
  {
    PartSendable(ms, "subject", defaults.subject, maxBytes);
    PartSendable(ms, "action", defaults.action, maxBytes);
    PartSendable(ms, "resource", defaults.resource, maxBytes);
    PartSendable(ms, "context", defaults.context, maxBytes);
  }

  lemma PartConvertible(ms: Members, name: string, default: Option<Value>)
    requires MembersInRange(ms) && (default.Some? ==> InRange(default.value))
    ensures var v := FirstPresent(Field(ms, name, Folded), default);
      v.Some? ==> InRange(v.value)
  {
    if Field(ms, name, Folded).Some? {
      FieldInRange(ms, name, Folded);
    }
  }

  /** Of an entry in range over defaults in range, every part is in range. */
  lemma EffectiveConvertible(ms: Members, defaults: Ask)
    requires MembersInRange(ms) && Convertible(defaults)
    ensures Convertible(Effective(ms, defaults))
  {
    PartConvertible(ms, "subject", defaults.subject);
    PartConvertible(ms, "action", defaults.action);
    PartConvertible(ms, "resource", defaults.resource);
    PartConvertible(ms, "context", defaults.context);
  }
}
