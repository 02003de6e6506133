/** The AuthZEN tools: what is sent, what is read back, and what is reported. */
module Client {
  import opened Wrappers
  import opened Json
  import opened Requests
  import opened Wire
  import opened Pdp
  import opened Responses
  import Authorization
  import Endpoints

  datatype Config = Config(pdpURL: string, pdpToken: string, pdpMaxBytes: nat, maxArgBytes: nat)

  // ----- the round trip

  // What io.LimitReader lets through.
  function Capped(body: string, cap: nat): string {
    if |body| <= cap then body else body[..cap]
  }

  method Do(cfg: Config, outcome: Outcome) returns (r: Option<string>)
    ensures r.Some? <==> outcome.Response? && outcome.status == 200
    ensures r.Some? ==> r.value == Capped(outcome.body, cfg.pdpMaxBytes)
    ensures r.Some? ==>
      r.value <= outcome.body && |r.value| == if |outcome.body| < cfg.pdpMaxBytes then |outcome.body| else cfg.pdpMaxBytes
  {
    match outcome {
      case SendError => return None;
      case ReadError => return None;
      case Response(status, body) =>
        var raw := Capped(body, cfg.pdpMaxBytes);
        if status != 200 {
          return None;
        }
        return Some(raw);
    }
  }

  function Sent(cfg: Config, endpoint: string, body: Value): HttpRequest {
    HttpRequest(endpoint, Authorization.Header(cfg.pdpToken), Marshal(body))
  }

  // The tree of the response, when there is one: status 200 and valid JSON within the cap.
  function Answered(cfg: Config, net: Transport, endpoint: string, body: Value): Option<Value> {
    match net(Sent(cfg, endpoint, body))
    case Response(200, text) => ParseDoc(Capped(text, cfg.pdpMaxBytes))
    case _ => None
  }

  method PostJson(cfg: Config, net: Transport, endpoint: string, body: Value) returns (r: Option<Value>)
    ensures r == Answered(cfg, net, endpoint, body)
  {
    var encoded := Marshal(body);
    var headers := Authorization.SetAuth(map[], cfg.pdpToken);
    var authorization := if "Authorization" in headers then Some(headers["Authorization"]) else None;
    var raw := Do(cfg, net(HttpRequest(endpoint, authorization, encoded)));
    if raw.None? {
      return None;
    }
    return ParseDoc(raw.value);
  }

  // ----- authzen_evaluate

  datatype Evaluated = Evaluated(decision: bool, context: Option<Value>, pdpURL: string)

  function ResolveEndpoint(args: Args, cfg: Config): Option<string> {
    var given := GetString(args, "pdp_url", "");
    var raw := if given == "" then cfg.pdpURL else given;
    if raw == "" || Endpoints.Parse(raw).None? then None else Some(raw)
  }

  // The result of a call at endpoint, from the answer.
  function SingleFrom(answer: Option<Value>, endpoint: string): Option<Evaluated> {
    var v :- answer;
    var out :- DecodeSingle(v);
    var d :- out.decision;
    Some(Evaluated(d, out.context, endpoint))
  }

  function SingleResult(args: Args, cfg: Config, net: Transport): Option<Evaluated> {
    var endpoint :- ResolveEndpoint(args, cfg);
    if !ArgsOk(args, cfg.maxArgBytes, true) then None
    else SingleFrom(Answered(cfg, net, endpoint, Object(SingleMembers(GivenAsk(args)))), endpoint)
  }

  // None is an error result.
  method AuthzenEvaluate(args: Args, cfg: Config, net: Transport) returns (r: Option<Evaluated>)
    ensures r == SingleResult(args, cfg, net)
  {
    var endpoint := ResolveEndpoint(args, cfg);
    if endpoint.None? {
      return None;
    }
    var body := ReadEvaluationArgs(args, cfg.maxArgBytes, true);
    if body.Err? {
      return None;
    }
    var v := PostJson(cfg, net, endpoint.value, Object(SingleMembers(body.value)));
    if v.None? {
      return None;
    }
    var decoded := DecodeSingle(v.value);
    if decoded.None? || decoded.value.decision.None? {
      return None;
    }
    return Some(Evaluated(decoded.value.decision.value, decoded.value.context, endpoint.value));
  }

  // ----- authzen_evaluate_batch

  datatype Decision = Decision(index: nat, decision: bool, context: Option<Value>)

  datatype Report = Report(decisions: seq<Decision>, semantic: string, truncated: bool, pdpURL: string)

  // A batch call whose arguments were all accepted.
  datatype Plan = Plan(endpoint: string, defaults: Ask, entries: seq<Value>, semantic: string)

  function BatchURL(args: Args, cfg: Config): Option<string> {
    var given := GetString(args, "pdp_url", "");
    var endpoint :- if given == "" then Endpoints.BatchEndpoint(cfg.pdpURL) else Some(given);
    if Endpoints.Parse(endpoint).None? then None else Some(endpoint)
  }

  function PlanAt(args: Args, maxArgBytes: nat, endpoint: string): Option<Plan> {
    if !ArgsOk(args, maxArgBytes, false) then None
    else
      var entries :- EntryList(args, maxArgBytes);
      var semantic := GetString(args, "evaluations_semantic", EXECUTE_ALL);
      if (exists e | e in entries :: !EntryOk(e, GivenAsk(args))) || semantic !in SEMANTICS then None
      else Some(Plan(endpoint, GivenAsk(args), entries, semantic))
  }

  function PlanOf(args: Args, cfg: Config): Option<Plan> {
    var endpoint :- BatchURL(args, cfg);
    PlanAt(args, cfg.maxArgBytes, endpoint)
  }

  function RequestOf(p: Plan): Value { Object(BatchMembers(p.defaults, p.entries, p.semantic)) }

  function ReportOf(p: Plan, singles: Option<seq<Single>>): Option<Report> {
    match singles
    case None => None
    case Some(ss) =>
      if |ss| > |p.entries| || exists i | 0 <= i < |ss| :: ss[i].decision.None? then None
      else
        var decisions := seq(|ss|, i requires 0 <= i < |ss| =>
          Decision(i, ss[i].decision == Some(true), ss[i].context));
        Some(Report(decisions, p.semantic, |ss| < |p.entries|, p.endpoint))
  }

  function ResultOf(p: Plan, cfg: Config, net: Transport): Option<Report> {
    var v :- Answered(cfg, net, p.endpoint, RequestOf(p));
    var singles :- DecodeBatch(v);
    ReportOf(p, singles)
  }

  function BatchResult(args: Args, cfg: Config, net: Transport): Option<Report> {
    var p :- PlanOf(args, cfg);
    ResultOf(p, cfg, net)
  }

  method Align(p: Plan, ss: seq<Single>) returns (r: Option<Report>)
    ensures r == ReportOf(p, Some(ss))
  {
    if |ss| > |p.entries| {
      return None;
    }
    var decisions: seq<Decision> := [];
    for i := 0 to |ss|
      invariant |decisions| == i
      invariant forall j | 0 <= j < i ::
        ss[j].decision.Some? && decisions[j] == Decision(j, ss[j].decision == Some(true), ss[j].context)
    {
      if ss[i].decision.None? {
        return None;
      }
      decisions := decisions + [Decision(i, ss[i].decision.value, ss[i].context)];
    }
    assert decisions == seq(|ss|, i requires 0 <= i < |ss| =>
      Decision(i, ss[i].decision == Some(true), ss[i].context));
    return Some(Report(decisions, p.semantic, |decisions| < |p.entries|, p.endpoint));
  }

  // None is an error result.
  method AuthzenEvaluateBatch(args: Args, cfg: Config, net: Transport) returns (r: Option<Report>)
    ensures r == BatchResult(args, cfg, net)
  {
    var endpoint := GetString(args, "pdp_url", "");
    if endpoint == "" {
      var derived := Endpoints.BatchEndpointFrom(cfg.pdpURL);
      if derived.None? {
        return None;
      }
      endpoint := derived.value;
    }
    if Endpoints.Parse(endpoint).None? {
      return None;
    }
    var defaults := ReadEvaluationArgs(args, cfg.maxArgBytes, false);
    if defaults.Err? {
      return None;
    }
    var entries := ReadEvaluationEntries(args, cfg.maxArgBytes, defaults.value);
    if entries.Err? {
      return None;
    }
    var semantic := GetString(args, "evaluations_semantic", EXECUTE_ALL);
    if semantic !in SEMANTICS {
      return None;
    }
    var p := Plan(endpoint, defaults.value, entries.value, semantic);
    assert PlanOf(args, cfg) == Some(p);
    var v := PostJson(cfg, net, endpoint, RequestOf(p));
    if v.None? {
      return None;
    }
    var decoded := DecodeBatch(v.value);
    if decoded.None? || decoded.value.None? {
      return None;
    }
    r := Align(p, decoded.value.value);
  }

  // ----- authzen_discover

  datatype Discovered = Discovered(metadataURL: string, metadata: Metadata)

  const EVALUATION_ENDPOINT := "access_evaluation_endpoint"

  // A GET request has no body.
  function Asking(cfg: Config, url: string): HttpRequest {
    HttpRequest(url, Authorization.Header(cfg.pdpToken), "")
  }

  function Fetched(cfg: Config, net: Transport, url: string): Option<Value> {
    match net(Asking(cfg, url))
    case Response(200, text) => ParseDoc(Capped(text, cfg.pdpMaxBytes))
    case _ => None
  }

  function FetchedMetadata(cfg: Config, net: Transport, url: string): Option<Metadata> {
    var v :- Fetched(cfg, net, url);
    DecodeMetadata(v)
  }

  method GetJson(cfg: Config, net: Transport, url: string) returns (r: Option<Metadata>)
    ensures r == FetchedMetadata(cfg, net, url)
  {
    var text := Do(cfg, net(Asking(cfg, url)));
    if text.None? {
      return None;
    }
    var v := ParseDoc(text.value);
    if v.None? {
      return None;
    }
    return DecodeMetadata(v.value);
  }

  function DiscoverURL(args: Args, cfg: Config): Option<string> {
    var given := GetString(args, "pdp_url", "");
    var raw := if given == "" then cfg.pdpURL else given;
    if raw == "" then None else Endpoints.MetadataEndpoint(raw)
  }

  function DiscoverAt(cfg: Config, net: Transport, url: string): Option<Discovered> {
    var meta :- FetchedMetadata(cfg, net, url);
    if StringField(meta, EVALUATION_ENDPOINT) == "" then None else Some(Discovered(url, meta))
  }

  function DiscoverResult(args: Args, cfg: Config, net: Transport): Option<Discovered> {
    var url :- DiscoverURL(args, cfg);
    DiscoverAt(cfg, net, url)
  }

  method AuthzenDiscover(args: Args, cfg: Config, net: Transport) returns (r: Option<Discovered>)
    ensures r == DiscoverResult(args, cfg, net)
  {
    var raw := GetString(args, "pdp_url", "");
    if raw == "" {
      raw := cfg.pdpURL;
    }
    if raw == "" {
      return None;
    }
    var root := Endpoints.RootOf(raw);
    if root.None? {
      return None;
    }
    var url := Endpoints.ResolveFromRoot(root.value, Endpoints.METADATA);
    if url.None? {
      return None;
    }
    assert DiscoverURL(args, cfg) == url;
    var meta := GetJson(cfg, net, url.value);
    if meta.None? || StringField(meta.value, EVALUATION_ENDPOINT) == "" {
      return None;
    }
    return Some(Discovered(url.value, meta.value));
  }
}
