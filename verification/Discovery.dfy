/** What a discovered metadata document says, field by field. */
module Discovery {
  import opened Wrappers
  import opened Json
  import opened Grammar
  import opened GoJson
  import opened Spelling
  import opened Requests
  import opened Pdp
  import opened Responses
  import opened Client
  import opened Acceptance
  import opened Theorems
  import Authorization
  import Endpoints

  // The fields that hold a string, and those that are passed on as they are.
  const TEXTS := [
    "policy_decision_point", "access_evaluation_endpoint", "access_evaluations_endpoint",
    "search_subject_endpoint", "search_resource_endpoint", "search_action_endpoint", "signed_metadata"]
  const RAWS := ["capabilities", "supported_evaluation_options"]

  // ----- names that differ are read apart

  predicate Apart(names: seq<string>) {
    && (forall i | 0 <= i < |names| :: LowerName(names[i]))
    && forall i, j | 0 <= i < j < |names| :: names[i] != names[j]
  }

  lemma ReadsOne(k: seq<Item>, a: string, b: string)
    requires LowerName(a) && LowerName(b) && Reads(k, a, Folded) && Reads(k, b, Folded)
    ensures a == b
  {
    LowerFold(a, b);
  }

  lemma {:induction false} FieldReadIs(k: seq<Item>, names: seq<string>, n: string)
    requires Apart(names)
    ensures FieldRead(k, names) == Some(n) <==> n in names && Reads(k, n, Folded)
  {
    if names != [] {
      assert Apart(names[1..]);
      assert n in names <==> n == names[0] || n in names[1..];
      FieldReadIs(k, names[1..], n);
      if n in names[1..] && Reads(k, n, Folded) && Reads(k, names[0], Folded) {
        var i :| 0 <= i < |names| - 1 && names[1..][i] == n;
        assert names[i + 1] == n;
        ReadsOne(k, n, names[0]);
      }
    }
  }

  lemma TextLengths()
    ensures |TEXTS| == 7 && |RAWS| == 2
    ensures |TEXTS[0]| == 21 && |TEXTS[1]| == 26 && |TEXTS[2]| == 27 && |TEXTS[3]| == 23
    ensures |TEXTS[4]| == 24 && |TEXTS[5]| == 22 && |TEXTS[6]| == 15
    ensures |RAWS[0]| == 12 && |RAWS[1]| == 28
  {
  }

  lemma LowerEndpoints()
    ensures LowerName("policy_decision_point") && LowerName("access_evaluation_endpoint")
    ensures LowerName("access_evaluations_endpoint")
  {
  }

  lemma LowerSearches()
    ensures LowerName("search_subject_endpoint") && LowerName("search_resource_endpoint")
    ensures LowerName("search_action_endpoint")
  {
  }

  lemma LowerOthers()
    ensures LowerName("signed_metadata") && LowerName("capabilities") && LowerName("supported_evaluation_options")
  {
  }

  lemma NamesApart()
    ensures Apart(TEXTS) && Apart(RAWS)
    ensures forall n | n in RAWS :: n !in TEXTS
  {
    LowerEndpoints();
    LowerSearches();
    LowerOthers();
    TextLengths();
  }

  lemma NamesAre()
    ensures TEXTS == METADATA_STRINGS && RAWS == METADATA_RAW
  {
  }

  // ----- one member

  // The text that these values leave in a string field: that of the last string.
  function LastText(xs: seq<Value>, before: string): string {
    if xs == [] then before
    else
      match xs[|xs| - 1]
      case String(s) => Unescape(s)
      case _ => LastText(xs[..|xs| - 1], before)
  }

  predicate Textual(x: Value) { x.String? || x.Null? }

  function RawField(m: Metadata, n: string): Option<Value> { if n in m.raw then Some(m.raw[n]) else None }

  function LastRaw(xs: seq<Value>, before: Option<Value>): Option<Value> {
    if xs == [] then before else Some(xs[|xs| - 1])
  }

  // What one member does to the string field n, and when it is an error.
  lemma NextText(k: seq<Item>, x: Value, out: Metadata, n: string)
    requires n in TEXTS
    ensures Reads(k, n, Folded) && !Textual(x) ==> NextMetadata(k, x, out).None?
    ensures NextMetadata(k, x, out).Some? ==>
      StringField(NextMetadata(k, x, out).value, n) ==
        if Reads(k, n, Folded) && x.String? then Unescape(x.items) else StringField(out, n)
  {
    NamesApart();
    NamesAre();
    FieldReadIs(k, METADATA_STRINGS, n);
    SetText(FieldRead(k, METADATA_STRINGS), FieldRead(k, METADATA_RAW), x, out, n);
  }

  lemma SetText(text: Option<string>, raw: Option<string>, x: Value, out: Metadata, n: string)
    ensures text == Some(n) && !Textual(x) ==> SetField(text, raw, x, out).None?
    ensures SetField(text, raw, x, out).Some? ==>
      StringField(SetField(text, raw, x, out).value, n) ==
        if text == Some(n) && x.String? then Unescape(x.items) else StringField(out, n)
  {
  }

  lemma NextRaw(k: seq<Item>, x: Value, out: Metadata, n: string)
    requires n in RAWS
    ensures NextMetadata(k, x, out).Some? ==>
      RawField(NextMetadata(k, x, out).value, n) == if Reads(k, n, Folded) then Some(x) else RawField(out, n)
  {
    NamesApart();
    NamesAre();
    FieldReadIs(k, METADATA_RAW, n);
    if Reads(k, n, Folded) {
      NotText(k, n);
    }
    SetRaw(FieldRead(k, METADATA_STRINGS), FieldRead(k, METADATA_RAW), x, out, n);
  }

  lemma NotText(k: seq<Item>, n: string)
    requires n in RAWS && Reads(k, n, Folded)
    ensures FieldRead(k, METADATA_STRINGS).None?
  {
    NamesApart();
    NamesAre();
    if FieldRead(k, METADATA_STRINGS).Some? {
      var m := FieldRead(k, METADATA_STRINGS).value;
      FieldReadIs(k, METADATA_STRINGS, m);
      ReadsOne(k, m, n);
    }
  }

  lemma SetRaw(text: Option<string>, raw: Option<string>, x: Value, out: Metadata, n: string)
    requires raw == Some(n) ==> text.None?
    ensures SetField(text, raw, x, out).Some? ==>
      RawField(SetField(text, raw, x, out).value, n) == if raw == Some(n) then Some(x) else RawField(out, n)
  {
  }

  // A member is an error only when it is read as a string field and is none.
  lemma NextFails(k: seq<Item>, x: Value, out: Metadata)
    requires forall n | n in TEXTS && Reads(k, n, Folded) :: Textual(x)
    ensures NextMetadata(k, x, out).Some?
  {
    NamesApart();
    NamesAre();
    if FieldRead(k, METADATA_STRINGS).Some? {
      FieldReadIs(k, METADATA_STRINGS, FieldRead(k, METADATA_STRINGS).value);
    }
  }

  // ----- a document

  // Every member read as a string field is a string or null.
  predicate AllTextual(ms: Members) {
    forall n | n in TEXTS :: forall x | x in ReadAll(ms, n) :: Textual(x)
  }

  lemma ReadAllFirst(ms: Members, n: string)
    requires ms.Members?
    ensures ReadAll(ms, n) == if Reads(ms.name, n, Folded) then [ms.value] + ReadAll(ms.rest, n) else ReadAll(ms.rest, n)
  {
    assert [] + ReadAll(ms.rest, n) == ReadAll(ms.rest, n);
  }

  lemma {:induction false} LastTextFirst(x: Value, xs: seq<Value>, before: string)
    ensures LastText([x] + xs, before) == LastText(xs, if x.String? then Unescape(x.items) else before)
  {
    var ys := [x] + xs;
    if xs == [] {
      assert ys[..0] == [];
    } else {
      assert ys[..|ys| - 1] == [x] + xs[..|xs| - 1];
      LastTextFirst(x, xs[..|xs| - 1], before);
    }
  }

  lemma AllTextualFirst(ms: Members)
    requires ms.Members?
    ensures AllTextual(ms) <==>
      (forall n | n in TEXTS && Reads(ms.name, n, Folded) :: Textual(ms.value)) && AllTextual(ms.rest)
  {
    forall n | n in TEXTS
      ensures (forall x | x in ReadAll(ms, n) :: Textual(x)) <==>
        (Reads(ms.name, n, Folded) ==> Textual(ms.value)) && forall x | x in ReadAll(ms.rest, n) :: Textual(x)
    {
      ReadAllFirst(ms, n);
    }
  }

  lemma {:induction false} FillWhen(ms: Members, out: Metadata)
    ensures FillMetadata(ms, out).Some? <==> AllTextual(ms)
  {
    if ms.Members? {
      AllTextualFirst(ms);
      var next := NextMetadata(ms.name, ms.value, out);
      if next.Some? {
        forall n | n in TEXTS && Reads(ms.name, n, Folded) ensures Textual(ms.value) {
          NextText(ms.name, ms.value, out, n);
        }
        FillWhen(ms.rest, next.value);
      } else if forall n | n in TEXTS && Reads(ms.name, n, Folded) :: Textual(ms.value) {
        NextFails(ms.name, ms.value, out);
      }
    }
  }

  lemma {:induction false} FillText(ms: Members, out: Metadata, n: string)
    requires n in TEXTS && FillMetadata(ms, out).Some?
    ensures StringField(FillMetadata(ms, out).value, n) == LastText(ReadAll(ms, n), StringField(out, n))
  {
    if ms.Members? {
      var next := NextMetadata(ms.name, ms.value, out).value;
      NextText(ms.name, ms.value, out, n);
      FillText(ms.rest, next, n);
      ReadAllFirst(ms, n);
      LastTextFirst(ms.value, ReadAll(ms.rest, n), StringField(out, n));
    }
  }

  lemma {:induction false} FillRaw(ms: Members, out: Metadata, n: string)
    requires n in RAWS && FillMetadata(ms, out).Some?
    ensures RawField(FillMetadata(ms, out).value, n) == LastRaw(ReadAll(ms, n), RawField(out, n))
  {
    if ms.Members? {
      var next := NextMetadata(ms.name, ms.value, out).value;
      NextRaw(ms.name, ms.value, out, n);
      FillRaw(ms.rest, next, n);
      ReadAllFirst(ms, n);
      LastRawFirst(ms.value, ReadAll(ms.rest, n), RawField(out, n));
    }
  }

  lemma LastRawFirst(x: Value, xs: seq<Value>, before: Option<Value>)
    ensures LastRaw([x] + xs, before) == LastRaw(xs, Some(x))
  {
  }

  // The request that discovery sends: a GET, with the configured header.
  function MetadataRequest(cfg: Config, url: string): HttpRequest {
    HttpRequest(url, Authorization.Header(cfg.pdpToken), "")
  }

  // The document read from ms, field by field.
  predicate ReadFrom(m: Metadata, ms: Members) {
    && (forall n | n in TEXTS :: StringField(m, n) == LastText(ReadAll(ms, n), ""))
    && (forall n | n in RAWS :: RawField(m, n) == LastRaw(ReadAll(ms, n), None))
  }

  lemma TextsFrom(ms: Members, m: Metadata)
    requires FillMetadata(ms, EMPTY) == Some(m)
    ensures forall n | n in TEXTS :: StringField(m, n) == LastText(ReadAll(ms, n), "")
  {
    forall n | n in TEXTS ensures StringField(m, n) == LastText(ReadAll(ms, n), "") {
      FillText(ms, EMPTY, n);
    }
  }

  lemma RawsFrom(ms: Members, m: Metadata)
    requires FillMetadata(ms, EMPTY) == Some(m)
    ensures forall n | n in RAWS :: RawField(m, n) == LastRaw(ReadAll(ms, n), None)
  {
    forall n | n in RAWS ensures RawField(m, n) == LastRaw(ReadAll(ms, n), None) {
      FillRaw(ms, EMPTY, n);
    }
  }

  const EMPTY := Metadata(map[], map[])

  lemma DocumentExactly(ms: Members)
    ensures DecodeMetadata(Object(ms)).Some? <==> AllTextual(ms)
    ensures AllTextual(ms) ==> ReadFrom(DecodeMetadata(Object(ms)).value, ms)
  {
    FillWhen(ms, EMPTY);
    if AllTextual(ms) {
      ReadFromFilled(ms, FillMetadata(ms, EMPTY).value);
    }
  }

  lemma ReadFromFilled(ms: Members, m: Metadata)
    requires FillMetadata(ms, EMPTY) == Some(m)
    ensures ReadFrom(m, ms)
  {
    TextsFrom(ms, m);
    RawsFrom(ms, m);
  }

  /**
    Discovery, exactly, for every JSON object as the reply: there is a document when every
    member read as one of the seven string fields is a string or null and the evaluation
    endpoint comes out non-empty. Each string field is then the text of the last string
    read for it, or empty, and each of the two raw fields the last value read for it.
   */
  lemma DiscoveryExactly(args: Args, cfg: Config, net: Transport, url: string, ms: Members)
    requires AskedURL(args, cfg.pdpURL) != ""
    requires Endpoints.MetadataEndpoint(AskedURL(args, cfg.pdpURL)) == Some(url)
    requires BodyObject(net(MetadataRequest(cfg, url)), cfg.pdpMaxBytes) == Some(ms)
    ensures DiscoverResult(args, cfg, net).Some? <==>
      AllTextual(ms) && LastText(ReadAll(ms, "access_evaluation_endpoint"), "") != ""
    ensures DiscoverResult(args, cfg, net).Some? ==>
      DiscoverResult(args, cfg, net).value.metadataURL == url && ReadFrom(DiscoverResult(args, cfg, net).value.metadata, ms)
  {
    DiscoverResolvedExactly(args, cfg);
    FetchedIs(cfg, net, url, ms);
    DocumentExactly(ms);
    DiscoveredIs(args, cfg, net, url, ms);
    if AllTextual(ms) {
      EndpointFrom(DecodeMetadata(Object(ms)).value, ms);
    }
  }

  lemma EndpointFrom(m: Metadata, ms: Members)
    requires ReadFrom(m, ms)
    ensures StringField(m, "access_evaluation_endpoint") == LastText(ReadAll(ms, "access_evaluation_endpoint"), "")
  {
    assert "access_evaluation_endpoint" == TEXTS[1];
  }

  lemma FetchedIs(cfg: Config, net: Transport, url: string, ms: Members)
    requires BodyObject(net(MetadataRequest(cfg, url)), cfg.pdpMaxBytes) == Some(ms)
    ensures Fetched(cfg, net, url) == Some(Object(ms))
  {
  }

  lemma DiscoveredIs(args: Args, cfg: Config, net: Transport, url: string, ms: Members)
    requires DiscoverURL(args, cfg) == Some(url) && Fetched(cfg, net, url) == Some(Object(ms))
    ensures var m := DecodeMetadata(Object(ms));
      DiscoverResult(args, cfg, net) ==
        if m.None? || StringField(m.value, "access_evaluation_endpoint") == "" then None
        else Some(Discovered(url, m.value))
  {
  }
}
