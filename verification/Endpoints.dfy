/**
  How an endpoint is derived from a configured URL: parse, strip or append a known
  path, recompose (section 5.3 of RFC 3986), and parse again.

  Parse models url.Parse followed by validatePDPURL, on URLs whose host is a name, an
  IPv4 address or a bracketed IPv6 address, with an optional port, and whose path needs
  no percent-encoding. The query is any text without control characters, the fragment
  any text that can be percent-decoded. Anything else is None here.
 */
module Endpoints {
  import opened Strings
  import opened Wrappers

  const EVALUATION := "/access/v1/evaluation"
  const EVALUATIONS := "/access/v1/evaluations"
  const METADATA := "/.well-known/authzen-configuration"
  // In the order in which rootOf tries them.
  const KNOWN := [EVALUATIONS, EVALUATION, METADATA]

  // forceQuery: the URL has a '?' with nothing after it. The fragment is as written.
  datatype Url = Url(scheme: string, host: string, path: string,
                     forceQuery: bool, query: string, fragment: string)

  // ----- characters

  predicate IsAlnum(c: char) { 'a' <= c <= 'z' || 'A' <= c <= 'Z' || '0' <= c <= '9' }

  predicate IsHex(c: char) { '0' <= c <= '9' || 'a' <= c <= 'f' || 'A' <= c <= 'F' }

  predicate NameChar(c: char) { IsAlnum(c) || c in "-_.~!$&'()*+,;=" }

  predicate HostChar(c: char) { NameChar(c) || c in ":[]" }

  predicate PathChar(c: char) { IsAlnum(c) || c in "-_.~$&+,/:;=@" }

  predicate IsControl(c: char) { c < ' ' || c == '\U{7F}' }

  predicate NoControl(s: string) { forall i | 0 <= i < |s| :: !IsControl(s[i]) }

  function Lower(s: string): string {
    seq(|s|, i requires 0 <= i < |s| =>
      if 'A' <= s[i] <= 'Z' then s[i] - 'A' + 'a' else s[i])
  }

  // ----- parsing and recomposing

  predicate OptionalPort(s: string) {
    s != "" ==> s[0] == ':' && forall i | 1 <= i < |s| :: '0' <= s[i] <= '9'
  }

  // A name or an IPv4 address: the only colon is that of the port.
  predicate NamedHost(h: string) {
    && h != ""
    && (forall i | 0 <= i < Find(h, ':') :: NameChar(h[i]))
    && OptionalPort(h[Find(h, ':')..])
  }

  predicate Group(s: string) { 1 <= |s| <= 4 && forall i | 0 <= i < |s| :: IsHex(s[i]) }

  predicate Groups(s: string) { s == "" || forall g | g in Split(s, ':') :: Group(g) }

  function GroupCount(s: string): nat { if s == "" then 0 else |Split(s, ':')| }

  // Eight groups of hex digits, or fewer around one "::" (section 2.2 of RFC 4291).
  predicate IPv6(s: string) {
    && (forall i | 0 <= i < |s| :: IsHex(s[i]) || s[i] == ':')
    && (|| (Groups(s) && GroupCount(s) == 8)
        || exists i | 0 <= i <= |s| - 2 && s[i..i + 2] == "::" ::
             && Groups(s[..i]) && Groups(s[i + 2..])
             && GroupCount(s[..i]) + GroupCount(s[i + 2..]) <= 7)
  }

  predicate BracketedHost(h: string) {
    var i := Find(h, ']');
    2 <= i < |h| && h[0] == '[' && IPv6(h[1..i]) && OptionalPort(h[i + 1..])
  }

  predicate ValidHost(h: string) { NamedHost(h) || BracketedHost(h) }

  // Every '%' starts an escape.
  predicate ValidFragment(f: string) {
    forall i | 0 <= i < |f| && f[i] == '%' :: i + 2 < |f| && IsHex(f[i + 1]) && IsHex(f[i + 2])
  }

  predicate ValidPath(p: string) {
    && (p != "" ==> p[0] == '/')
    && forall i | 0 <= i < |p| :: PathChar(p[i])
  }

  function Parse(raw: string): Option<Url> {
    var u, fragment := Head(raw, '#'), After(raw, '#');
    var scheme, rest := Lower(Head(u, ':')), After(u, ':');
    if !NoControl(u) then None
    else if !ValidFragment(fragment) || (scheme != "http" && scheme != "https") then None
    else if !("//" <= rest) then None
    else ParseRest(scheme, rest[2..], fragment)
  }

  // After the "//": authority, path and query.
  function ParseRest(scheme: string, s: string, fragment: string): Option<Url> {
    var hier, query := Head(s, '?'), After(s, '?');
    var host, path := Head(hier, '/'), hier[Find(hier, '/')..];
    if ValidHost(host) && ValidPath(path)
    then Some(Url(scheme, host, path, '?' in s && query == "", query, fragment))
    else None
  }

  function QueryText(u: Url): string {
    if u.forceQuery || u.query != "" then ['?'] + u.query else ""
  }

  function FragmentText(u: Url): string {
    if u.fragment != "" then ['#'] + u.fragment else ""
  }

  function Recompose(u: Url): string {
    u.scheme + "://" + u.host + u.path + QueryText(u) + FragmentText(u)
  }

  predicate WellFormed(u: Url) {
    && u.scheme in {"http", "https"}
    && ValidHost(u.host) && ValidPath(u.path)
    && (u.forceQuery ==> u.query == "")
    && NoControl(u.query) && '#' !in u.query
    && ValidFragment(u.fragment)
  }

  lemma QueryBack(hier: string, u: Url)
    requires '?' !in hier && (u.forceQuery ==> u.query == "")
    ensures Head(hier + QueryText(u), '?') == hier && After(hier + QueryText(u), '?') == u.query
    ensures ('?' in hier + QueryText(u) && u.query == "") == u.forceQuery
  {
    if QueryText(u) != "" {
      assert hier + QueryText(u) == hier + ['?'] + u.query;
      FindIn(hier, '?', u.query);
      assert (hier + QueryText(u))[|hier|] == '?';
    } else {
      assert hier + QueryText(u) == hier;
      FindNone(hier, '?');
    }
  }

  lemma HostBack(host: string, path: string)
    requires '/' !in host && (path != "" ==> path[0] == '/')
    ensures Head(host + path, '/') == host && (host + path)[Find(host + path, '/')..] == path
  {
    if path != "" {
      assert host + path == host + ['/'] + path[1..];
      FindIn(host, '/', path[1..]);
    } else {
      assert host + path == host;
      FindNone(host, '/');
    }
    assert (host + path)[|host|..] == path;
  }

  lemma RestBack(u: Url)
    requires WellFormed(u)
    ensures ParseRest(u.scheme, u.host + u.path + QueryText(u), u.fragment) == Some(u)
  {
    var hier := u.host + u.path;
    var s := hier + QueryText(u);
    HierNoMark(u);
    QueryBack(hier, u);
    HostNoSlash(u.host);
    HostBack(u.host, u.path);
    RestStep(s, hier, u);
  }

  lemma RestStep(s: string, hier: string, u: Url)
    requires Head(s, '?') == hier && After(s, '?') == u.query
    requires ('?' in s && u.query == "") == u.forceQuery
    requires Head(hier, '/') == u.host && hier[Find(hier, '/')..] == u.path
    requires ValidHost(u.host) && ValidPath(u.path)
    ensures ParseRest(u.scheme, s, u.fragment) == Some(u)
  {
  }

  lemma PortChars(s: string)
    requires OptionalPort(s)
    ensures forall i | 0 <= i < |s| :: HostChar(s[i])
  {
  }

  lemma HostChars(host: string)
    requires ValidHost(host)
    ensures forall i | 0 <= i < |host| :: HostChar(host[i])
  {
    if NamedHost(host) {
      NamedChars(host);
    } else {
      BracketedChars(host);
    }
  }

  lemma NamedChars(host: string)
    requires NamedHost(host)
    ensures forall i | 0 <= i < |host| :: HostChar(host[i])
  {
    var n := Find(host, ':');
    PortChars(host[n..]);
    SuffixChars(host, n);
  }

  lemma SuffixChars(s: string, n: nat)
    requires n <= |s| && forall i | 0 <= i < |s| - n :: HostChar(s[n..][i])
    ensures forall i | n <= i < |s| :: HostChar(s[i])
  {
    assert forall i | n <= i < |s| :: s[i] == s[n..][i - n];
  }

  lemma BracketedChars(host: string)
    requires BracketedHost(host)
    ensures forall i | 0 <= i < |host| :: HostChar(host[i])
  {
    var n := Find(host, ']');
    PortChars(host[n + 1..]);
    SuffixChars(host, n + 1);
    AddressChars(host, n);
    AroundBracket(host, n);
  }

  lemma AroundBracket(host: string, n: nat)
    requires 2 <= n < |host| && host[0] == '[' && host[n] == ']'
    requires forall i | 1 <= i < n :: HostChar(host[i])
    requires forall i | n + 1 <= i < |host| :: HostChar(host[i])
    ensures forall i | 0 <= i < |host| :: HostChar(host[i])
  {
  }

  lemma AddressChars(host: string, n: nat)
    requires 2 <= n < |host| && IPv6(host[1..n])
    ensures forall i | 1 <= i < n :: HostChar(host[i])
  {
    forall i | 1 <= i < n ensures HostChar(host[i]) {
      assert host[i] == host[1..n][i - 1];
      AddressChar(host[1..n], i - 1);
    }
  }

  lemma AddressChar(s: string, i: nat)
    requires IPv6(s) && i < |s|
    ensures HostChar(s[i])
  {
    assert IsHex(s[i]) || s[i] == ':';
  }

  lemma HostNoSlash(host: string)
    requires ValidHost(host)
    ensures '/' !in host
  {
    HostChars(host);
    forall i | 0 <= i < |host| ensures host[i] != '/' {
      assert HostChar(host[i]);
    }
  }

  lemma HierNoMark(u: Url)
    requires WellFormed(u)
    ensures '?' !in u.host + u.path
  {
    var h := u.host + u.path;
    HostChars(u.host);
    forall i | 0 <= i < |h| ensures h[i] != '?' {
      NotMark(h[i]);
    }
  }

  lemma NotMark(c: char)
    requires HostChar(c) || PathChar(c)
    ensures c != '?'
  {
  }

  lemma HierClean(u: Url)
    requires WellFormed(u)
    ensures NoControl(u.host + u.path) && '#' !in u.host + u.path
  {
    HostChars(u.host);
    forall i | 0 <= i < |u.host + u.path|
      ensures !IsControl((u.host + u.path)[i]) && (u.host + u.path)[i] != '#'
    {
      CharClean((u.host + u.path)[i]);
    }
  }

  lemma CharClean(c: char)
    requires HostChar(c) || PathChar(c)
    ensures !IsControl(c) && c != '#'
  {
  }

  lemma SchemeClean(scheme: string)
    requires scheme in {"http", "https"}
    ensures NoControl(scheme + "://") && '#' !in scheme + "://" && ':' !in scheme
    ensures Lower(scheme) == scheme
  {
  }

  lemma FrontClean(u: Url)
    requires WellFormed(u)
    ensures NoControl(u.scheme + "://" + (u.host + u.path) + QueryText(u))
    ensures '#' !in u.scheme + "://" + (u.host + u.path) + QueryText(u)
  {
    SchemeClean(u.scheme);
    HierClean(u);
    assert NoControl(QueryText(u)) && '#' !in QueryText(u);
  }

  lemma FragmentBack(front: string, u: Url)
    requires '#' !in front
    ensures Head(front + FragmentText(u), '#') == front && After(front + FragmentText(u), '#') == u.fragment
  {
    if u.fragment != "" {
      assert front + FragmentText(u) == front + ['#'] + u.fragment;
      FindIn(front, '#', u.fragment);
    } else {
      assert front + FragmentText(u) == front;
      FindNone(front, '#');
    }
  }

  /** A well-formed URL is parsed back from its text. */
  lemma UrlBack(u: Url)
    requires WellFormed(u)
    ensures Parse(Recompose(u)) == Some(u)
  {
    var body := u.host + u.path + QueryText(u);
    var front := u.scheme + "://" + (u.host + u.path) + QueryText(u);
    FrontIs(u.scheme, u.host, u.path, QueryText(u), FragmentText(u));
    FrontClean(u);
    FragmentBack(front, u);
    SchemeBack(u.scheme, "//" + body, front);
    ParseStep(Recompose(u), front, u.scheme, body, u.fragment);
    RestBack(u);
  }

  lemma FrontIs(scheme: string, host: string, path: string, query: string, fragment: string)
    ensures var front := scheme + "://" + (host + path) + query;
      && scheme + "://" + host + path + query + fragment == front + fragment
      && front == scheme + [':'] + ("//" + (host + path + query))
  {
    assert "://" == [':'] + "//";
  }

  lemma ParseStep(raw: string, front: string, scheme: string, body: string, fragment: string)
    requires Head(raw, '#') == front && After(raw, '#') == fragment
    requires NoControl(front) && ValidFragment(fragment) && scheme in {"http", "https"}
    requires Lower(Head(front, ':')) == scheme && After(front, ':') == "//" + body
    ensures Parse(raw) == ParseRest(scheme, body, fragment)
  {
    assert ("//" + body)[2..] == body;
  }

  lemma SchemeBack(scheme: string, rest: string, front: string)
    requires scheme in {"http", "https"} && front == scheme + [':'] + rest
    ensures Lower(Head(front, ':')) == scheme && After(front, ':') == rest
  {
    SchemeClean(scheme);
    FindIn(scheme, ':', rest);
  }

  lemma CleanSuffix(s: string, i: nat)
    requires i <= |s| && NoControl(s) && '#' !in s
    ensures NoControl(s[i..]) && '#' !in s[i..]
  {
  }

  lemma CleanAfter(s: string, c: char)
    requires NoControl(s) && '#' !in s
    ensures NoControl(After(s, c)) && '#' !in After(s, c)
  {
    if Find(s, c) < |s| {
      CleanSuffix(s, Find(s, c) + 1);
    }
  }

  lemma ParseWellFormed(raw: string)
    requires Parse(raw).Some?
    ensures WellFormed(Parse(raw).value)
  {
    var u := Head(raw, '#');
    CleanAfter(u, ':');
    CleanSuffix(After(u, ':'), 2);
    CleanAfter(After(u, ':')[2..], '?');
  }

  // ----- stripping and appending known paths

  // Strips the first of ps that path ends in.
  function StripFirst(path: string, ps: seq<string>): string {
    if ps == [] then path
    else if HasSuffix(path, ps[0]) then TrimSuffix(path, ps[0])
    else StripFirst(path, ps[1..])
  }

  function RootPath(path: string): string { TrimSuffix(StripFirst(path, KNOWN), "/") }

  function EndpointPath(root: string, path: string): string { TrimSuffix(root, "/") + path }

  function At(u: Url, path: string): Url { u.(path := path, query := "", fragment := "") }

  function RootText(endpoint: string): Option<string> {
    var u :- Parse(endpoint);
    Some(Recompose(At(u, RootPath(u.path))))
  }

  function EndpointText(root: string, path: string): Option<string> {
    var u :- Parse(root);
    Some(Recompose(At(u, EndpointPath(u.path, path))))
  }

  method RootOf(endpoint: string) returns (r: Option<string>)
    ensures r == RootText(endpoint)
  {
    var parsed := Parse(endpoint);
    if parsed.None? {
      return None;
    }
    var u := parsed.value;
    ghost var path := u.path;
    var i := 0;
    while i < |KNOWN|
      invariant 0 <= i <= |KNOWN|
      invariant u == parsed.value && StripFirst(path, KNOWN[i..]) == StripFirst(path, KNOWN)
    {
      if HasSuffix(u.path, KNOWN[i]) {
        u := u.(path := TrimSuffix(u.path, KNOWN[i]));
        break;
      }
      assert KNOWN[i..][1..] == KNOWN[i + 1..];
      i := i + 1;
    }
    u := u.(path := TrimSuffix(u.path, "/"));
    u := u.(query := "");
    u := u.(fragment := "");
    return Some(Recompose(u));
  }

  method ResolveFromRoot(root: string, path: string) returns (r: Option<string>)
    ensures r == EndpointText(root, path)
  {
    var parsed := Parse(root);
    if parsed.None? {
      return None;
    }
    var u := parsed.value;
    u := u.(path := TrimSuffix(u.path, "/") + path);
    u := u.(query := "");
    u := u.(fragment := "");
    return Some(Recompose(u));
  }

  function BatchEndpoint(configured: string): Option<string> {
    if configured == "" then None
    else
      var root :- RootText(configured);
      EndpointText(root, EVALUATIONS)
  }

  function MetadataEndpoint(raw: string): Option<string> {
    var root :- RootText(raw);
    EndpointText(root, METADATA)
  }

  method BatchEndpointFrom(configured: string) returns (r: Option<string>)
    ensures r == BatchEndpoint(configured)
  {
    if configured == "" {
      return None;
    }
    var root := RootOf(configured);
    if root.None? {
      return None;
    }
    r := ResolveFromRoot(root.value, EVALUATIONS);
  }

  // ----- the order of the loop does not matter

  /** No path ends in two of the known paths. */
  lemma KnownSuffixesExclude(path: string, p: string, q: string)
    requires p in KNOWN && q in KNOWN && HasSuffix(path, p) && HasSuffix(path, q)
    ensures p == q
  {
    assert forall s: string | s in KNOWN :: s == EVALUATIONS || s == EVALUATION || s == METADATA;
    forall s: string | s in {p, q} ensures path[|path| - 1] == s[|s| - 1] && path[|path| - 6] == s[|s| - 6] {
      assert path[|path| - |s|..][|s| - 1] == path[|path| - 1];
      assert path[|path| - |s|..][|s| - 6] == path[|path| - 6];
    }
  }

  /** Trying the known paths in any order, with any repetition, strips the same text. */
  lemma {:induction false} StripAnyOrder(path: string, ps: seq<string>, p: string)
    requires forall s | s in ps :: s in KNOWN
    requires p in ps && HasSuffix(path, p)
    ensures StripFirst(path, ps) == TrimSuffix(path, p)
  {
    if HasSuffix(path, ps[0]) {
      KnownSuffixesExclude(path, ps[0], p);
    } else {
      StripAnyOrder(path, ps[1..], p);
    }
  }

  lemma {:induction false} StripNone(path: string, ps: seq<string>)
    requires forall s | s in ps :: !HasSuffix(path, s)
    ensures StripFirst(path, ps) == path
  {
    if ps != [] {
      StripNone(path, ps[1..]);
    }
  }

  lemma OrderOfKnownIsFree(path: string, ps: seq<string>)
    requires forall s :: s in ps <==> s in KNOWN
    ensures StripFirst(path, ps) == StripFirst(path, KNOWN)
  {
    if p :| p in KNOWN && HasSuffix(path, p) {
      StripAnyOrder(path, ps, p);
      StripAnyOrder(path, KNOWN, p);
    } else {
      StripNone(path, ps);
      StripNone(path, KNOWN);
    }
  }

  // ----- paths

  lemma StripAppended(root: string, p: string)
    requires p in KNOWN
    ensures StripFirst(root + p, KNOWN) == root
  {
    assert (root + p)[|root|..] == p;
    StripAnyOrder(root + p, KNOWN, p);
  }

  lemma ValidPrefix(path: string, n: nat)
    requires ValidPath(path) && n <= |path|
    ensures ValidPath(path[..n])
  {
  }

  lemma {:induction false} ValidStrip(path: string, ps: seq<string>)
    requires ValidPath(path)
    ensures ValidPath(StripFirst(path, ps))
  {
    if ps != [] {
      if HasSuffix(path, ps[0]) {
        ValidPrefix(path, |path| - |ps[0]|);
      } else {
        ValidStrip(path, ps[1..]);
      }
    }
  }

  lemma KnownAreValid(p: string)
    requires p in KNOWN
    ensures ValidPath(p) && p != "" && p[|p| - 1] != '/'
  {
  }

  lemma ValidPaths(path: string, p: string)
    requires ValidPath(path) && p in KNOWN
    ensures ValidPath(RootPath(path)) && ValidPath(EndpointPath(path, p))
  {
    ValidStrip(path, KNOWN);
    KnownAreValid(p);
    assert EndpointPath(path, p)[0] == '/';
  }

  // ----- URLs

  /** What rootOf returns always passes validation again, and is parsed as expected. */
  lemma RootParses(endpoint: string)
    requires Parse(endpoint).Some?
    ensures RootText(endpoint).Some?
    ensures var u := Parse(endpoint).value;
      Parse(RootText(endpoint).value) == Some(At(u, RootPath(u.path)))
  {
    var u := Parse(endpoint).value;
    ParseWellFormed(endpoint);
    ValidPaths(u.path, EVALUATION);
    UrlBack(At(u, RootPath(u.path)));
  }

  // The URL that endpoint leads to, for one of the known paths.
  function Derived(endpoint: string, p: string): Option<string> {
    var root :- RootText(endpoint);
    EndpointText(root, p)
  }

  /**
    The derived endpoint exists whenever the URL is valid. It keeps scheme and host,
    and has neither query nor fragment.
   */
  lemma DerivedParses(endpoint: string, p: string)
    requires Parse(endpoint).Some? && p in KNOWN
    ensures Derived(endpoint, p).Some?
    ensures var u := Parse(endpoint).value;
      Parse(Derived(endpoint, p).value) == Some(At(u, EndpointPath(RootPath(u.path), p)))
  {
    var u := Parse(endpoint).value;
    RootParses(endpoint);
    ParseWellFormed(endpoint);
    ValidPaths(u.path, p);
    ValidPaths(RootPath(u.path), p);
    UrlBack(At(u, EndpointPath(RootPath(u.path), p)));
  }

  /** The mark '?' survives exactly when the URL has a '?' with nothing after it. */
  lemma BareQuestionMark(endpoint: string)
    requires Parse(endpoint).Some?
    ensures BatchEndpoint(endpoint).Some?
    ensures '?' in BatchEndpoint(endpoint).value <==> Parse(endpoint).value.forceQuery
  {
    DerivedParses(endpoint, EVALUATIONS);
    assert endpoint != "" && BatchEndpoint(endpoint) == Derived(endpoint, EVALUATIONS);
    var u := Parse(endpoint).value;
    RootParses(endpoint);
    var v := At(u, EndpointPath(RootPath(u.path), EVALUATIONS));
    assert Derived(endpoint, EVALUATIONS).value == Recompose(v);
    ParseWellFormed(Recompose(v));
    MarkInText(v);
  }

  lemma MarkInText(v: Url)
    requires WellFormed(v) && v.query == "" && v.fragment == ""
    ensures '?' in Recompose(v) <==> v.forceQuery
  {
    HierNoMark(v);
    SchemeNoMark(v.scheme);
    var h := v.scheme + "://" + (v.host + v.path);
    FrontIs(v.scheme, v.host, v.path, QueryText(v), FragmentText(v));
    MarkIn(h, QueryText(v), FragmentText(v));
  }

  lemma SchemeNoMark(scheme: string)
    requires scheme in {"http", "https"}
    ensures '?' !in scheme + "://"
  {
  }

  lemma MarkIn(h: string, query: string, fragment: string)
    requires '?' !in h && fragment == "" && (query == "" || query == "?")
    ensures '?' in h + query + fragment <==> query == "?"
  {
    if query == "?" {
      assert (h + query + fragment)[|h|] == '?';
    }
  }

  // raw names the mount point base, or one of the known endpoints below it, with any
  // query or fragment.
  predicate Names(raw: string, base: Url, p: string) {
    match Parse(raw)
    case None => false
    case Some(u) =>
      && u.scheme == base.scheme && u.host == base.host && u.path == base.path + p
      && !u.forceQuery
  }

  /** Every URL of one PDP leads to the same batch endpoint and the same metadata URL. */
  lemma Converge(raw: string, base: Url, p: string)
    requires p in ["", "/"] + KNOWN && Names(raw, base, p)
    requires !base.forceQuery && !HasSuffix(base.path, "/")
    requires forall k | k in KNOWN :: !HasSuffix(base.path, k)
    ensures BatchEndpoint(raw) == Some(Recompose(At(base, base.path + EVALUATIONS)))
    ensures MetadataEndpoint(raw) == Some(Recompose(At(base, base.path + METADATA)))
  {
    var u := Parse(raw).value;
    RootParses(raw);
    if p in KNOWN {
      StripAppended(base.path, p);
    } else {
      SlashStrip(base.path, p);
    }
    assert raw != "";
  }

  lemma SlashStrip(path: string, p: string)
    requires p == "" || p == "/"
    requires !HasSuffix(path, "/") && forall k | k in KNOWN :: !HasSuffix(path, k)
    ensures RootPath(path + p) == path
  {
    if p == "" {
      assert path + p == path;
      StripNone(path, KNOWN);
    } else {
      forall k | k in KNOWN ensures !HasSuffix(path + p, k) {
        KnownAreValid(k);
      }
      StripNone(path + p, KNOWN);
      assert (path + p)[|path|..] == p;
    }
  }

  lemma TextDetermines(u: Url, v: Url)
    requires WellFormed(u) && WellFormed(v)
    ensures Recompose(u) == Recompose(v) <==> u == v
  {
    UrlBack(u);
    UrlBack(v);
  }

  lemma EndpointParses(root: string, p: string)
    requires Parse(root).Some? && p in KNOWN
    ensures var u := Parse(root).value;
      && EndpointText(root, p).Some?
      && Parse(EndpointText(root, p).value) == Some(At(u, EndpointPath(u.path, p)))
  {
    var u := Parse(root).value;
    ParseWellFormed(root);
    ValidPaths(u.path, p);
    UrlBack(At(u, EndpointPath(u.path, p)));
  }

  lemma ValidTrim(path: string)
    requires ValidPath(path)
    ensures ValidPath(TrimSuffix(path, "/"))
  {
    ValidPrefix(path, |TrimSuffix(path, "/")|);
  }

  lemma RootAfterEndpoint(root: string, p: string)
    requires Parse(root).Some? && p in KNOWN
    ensures var u := Parse(root).value;
      && WellFormed(At(u, TrimSuffix(TrimSuffix(u.path, "/"), "/")))
      && EndpointText(root, p).Some?
      && RootText(EndpointText(root, p).value)
         == Some(Recompose(At(u, TrimSuffix(TrimSuffix(u.path, "/"), "/"))))
  {
    var u := Parse(root).value;
    ParseWellFormed(root);
    EndpointParses(root, p);
    var t := TrimSuffix(u.path, "/");
    StripAppended(t, p);
    ValidTrim(u.path);
    ValidTrim(t);
  }

  // What url.URL.String writes back as it was read: a lower-case scheme, and no '#' with
  // nothing after it.
  predicate Normal(raw: string) {
    Lower(Head(raw, ':')) == Head(raw, ':') && ('#' in raw ==> After(raw, '#') != "")
  }

  lemma Cut(s: string, c: char)
    ensures s == Head(s, c) + (if c in s then [c] + After(s, c) else "")
    ensures c in s <==> Find(s, c) < |s|
  {
  }

  lemma RestPieces(scheme: string, s: string, fragment: string, u: Url)
    requires ParseRest(scheme, s, fragment) == Some(u)
    ensures u.scheme == scheme && u.fragment == fragment && s == u.host + u.path + QueryText(u)
  {
    Cut(s, '?');
    HierPieces(Head(s, '?'));
  }

  lemma HierPieces(hier: string)
    ensures hier == Head(hier, '/') + hier[Find(hier, '/')..]
  {
  }

  lemma AfterScheme(front: string, s: string)
    requires "//" <= After(front, ':') && s == After(front, ':')[2..]
    ensures ':' in front && front == Head(front, ':') + ("://" + s)
  {
    Cut(front, ':');
    SlashSlash(After(front, ':'), s);
  }

  lemma SlashSlash(t: string, s: string)
    requires "//" <= t && s == t[2..]
    ensures t != "" && [':'] + t == "://" + s
  {
  }

  // What follows the scheme, up to the fragment.
  function Middle(u: Url): string { "://" + (u.host + u.path + QueryText(u)) }

  // A URL that parses, taken apart.
  lemma Pieces(raw: string)
    requires Parse(raw).Some?
    ensures var u, front := Parse(raw).value, Head(raw, '#');
      && ':' in front && Lower(Head(front, ':')) == u.scheme && After(raw, '#') == u.fragment
      && front == Head(front, ':') + Middle(u)
  {
    var front := Head(raw, '#');
    var s := After(front, ':')[2..];
    AfterScheme(front, s);
    RestPieces(Lower(Head(front, ':')), s, After(raw, '#'), Parse(raw).value);
  }

  lemma RecomposeMiddle(u: Url)
    ensures Recompose(u) == u.scheme + Middle(u) + FragmentText(u)
  {
  }

  lemma FirstColon(raw: string)
    requires ':' in Head(raw, '#')
    ensures Head(raw, ':') == Head(Head(raw, '#'), ':')
  {
    var n := Find(Head(raw, '#'), ':');
    assert raw[n] == ':' && forall j | 0 <= j < n :: raw[j] == Head(raw, '#')[j];
  }

  /** A URL is written back as it was read exactly when it is normal. */
  lemma NormalText(raw: string)
    requires Parse(raw).Some?
    ensures Recompose(Parse(raw).value) == raw <==> Normal(raw)
  {
    var u := Parse(raw).value;
    Pieces(raw);
    FirstColon(raw);
    Cut(raw, '#');
    RecomposeMiddle(u);
    var tail := if '#' in raw then ['#'] + After(raw, '#') else "";
    SameText(Head(raw, ':'), Middle(u), tail, u.scheme, FragmentText(u));
    SameTail(raw, u);
  }

  lemma SameTail(raw: string, u: Url)
    requires After(raw, '#') == u.fragment
    ensures (if '#' in raw then ['#'] + After(raw, '#') else "") == FragmentText(u)
       <==> ('#' in raw ==> After(raw, '#') != "")
  {
  }

  lemma SameText(a: string, rest: string, tail: string, b: string, tail': string)
    requires |a| == |b|
    ensures b + rest + tail' == a + rest + tail <==> a == b && tail == tail'
  {
    if b + rest + tail' == a + rest + tail {
      assert a == (a + rest + tail)[..|a|] == b;
      assert tail == (a + rest + tail)[|a + rest|..] == tail';
    }
  }

  /**
    rootOf undoes resolveFromRoot, for each known path, exactly on roots with no query,
    no fragment and no trailing slash; and it gives back the root's own text exactly
    when, besides, the root has a lower-case scheme and no '#'.
   */
  lemma RootUndoesEndpoint(root: string, p: string)
    requires Parse(root).Some? && p in KNOWN
    ensures EndpointText(root, p).Some?
    ensures var u := Parse(root).value;
      RootText(EndpointText(root, p).value) == Some(Recompose(u))
      <==> u.query == "" && u.fragment == "" && !HasSuffix(u.path, "/")
    ensures var u := Parse(root).value;
      RootText(EndpointText(root, p).value) == Some(root)
      <==> u.query == "" && !HasSuffix(u.path, "/") && '#' !in root && Lower(Head(root, ':')) == Head(root, ':')
  {
    var u := Parse(root).value;
    ParseWellFormed(root);
    RootAfterEndpoint(root, p);
    var w := At(u, TrimSuffix(TrimSuffix(u.path, "/"), "/"));
    TextDetermines(u, w);
    NormalText(root);
    UrlBack(w);
    Cut(root, '#');
    if RootText(EndpointText(root, p).value) == Some(root) {
      assert Recompose(w) == root && u == w;
    }
  }

  lemma DerivedIs(endpoint: string, p: string)
    requires Parse(endpoint).Some? && p in KNOWN
    ensures var u := Parse(endpoint).value;
      && WellFormed(At(u, EndpointPath(RootPath(u.path), p)))
      && Derived(endpoint, p) == Some(Recompose(At(u, EndpointPath(RootPath(u.path), p))))
  {
    RootParses(endpoint);
    DerivedParses(endpoint, p);
    ParseWellFormed(Derived(endpoint, p).value);
  }

  /**
    Deriving the batch endpoint twice is deriving it once, exactly when the path
    before the known suffix does not end in three slashes.
   */
  lemma BatchEndpointIdempotent(raw: string)
    requires Parse(raw).Some?
    ensures BatchEndpoint(raw).Some?
    ensures BatchEndpoint(BatchEndpoint(raw).value) == BatchEndpoint(raw)
       <==> !HasSuffix(StripFirst(Parse(raw).value.path, KNOWN), "///")
  {
    var u := Parse(raw).value;
    DerivedIs(raw, EVALUATIONS);
    DerivedParses(raw, EVALUATIONS);
    var once := Derived(raw, EVALUATIONS).value;
    DerivedIs(once, EVALUATIONS);
    assert raw != "" && once != "";
    var r1 := TrimSuffix(RootPath(u.path), "/");
    StripAppended(r1, EVALUATIONS);
    var r2 := TrimSuffix(TrimSuffix(r1, "/"), "/");
    ThreeSlashes(StripFirst(u.path, KNOWN));
    TextDetermines(At(u, r1 + EVALUATIONS), At(u, r2 + EVALUATIONS));
    AppendDetermines(r1, r2, EVALUATIONS);
  }

  lemma AppendDetermines(r1: string, r2: string, p: string)
    ensures r1 + p == r2 + p <==> r1 == r2
  {
    if r1 + p == r2 + p {
      assert (r1 + p)[..|r1|] == r1 && (r2 + p)[..|r2|] == r2;
    }
  }

  lemma ThreeSlashes(s: string)
    ensures HasSuffix(s, "///") <==> HasSuffix(TrimSuffix(TrimSuffix(s, "/"), "/"), "/")
  {
    var n := |s|;
    if n >= 3 {
      assert s[n - 3..] == [s[n - 3], s[n - 2], s[n - 1]];
      assert s[n - 1..] == [s[n - 1]];
      assert s[..n - 1][n - 2..] == [s[n - 2]];
      assert s[..n - 1][..n - 2][n - 3..] == [s[n - 3]];
    }
  }

  // ----- URLs for which this goes wrong

  function Bare(path: string, forceQuery: bool): Url { Url("http", "h", path, forceQuery, "", "") }

  lemma NameH()
    ensures ValidHost("h")
  {
    assert "h"[0] == 'h' && "h"[1..] == "";
  }

  lemma BareHost(path: string, forceQuery: bool)
    requires ValidPath(path)
    ensures Parse(Recompose(Bare(path, forceQuery))) == Some(Bare(path, forceQuery))
  {
    NameH();
    UrlBack(Bare(path, forceQuery));
  }

  lemma BareTexts()
    ensures Recompose(Bare("", true)) == "http://h?"
    ensures Recompose(Bare("///", false)) == "http://h///"
  {
    assert Recompose(Bare("", true)) == "http" + "://" + "h" + "" + "?" + "";
    assert Recompose(Bare("///", false)) == "http" + "://" + "h" + "///" + "" + "";
  }

  /** A question mark that survives. */
  lemma QuestionMarkKept() returns (raw: string)
    ensures raw == "http://h?" && Parse(raw).Some? && BatchEndpoint(raw).Some?
    ensures '?' in BatchEndpoint(raw).value
  {
    raw := Recompose(Bare("", true));
    BareTexts();
    BareHost("", true);
    MarkStays(raw);
  }

  lemma MarkStays(raw: string)
    requires Parse(raw) == Some(Bare("", true))
    ensures BatchEndpoint(raw).Some? && '?' in BatchEndpoint(raw).value
  {
    BareQuestionMark(raw);
  }

  lemma SlashesStay()
    ensures ValidPath("///") && StripFirst("///", KNOWN) == "///" && HasSuffix("///", "///")
  {
    forall k | k in KNOWN ensures !HasSuffix("///", k) {
      assert k == EVALUATIONS || k == EVALUATION || k == METADATA;
    }
    StripNone("///", KNOWN);
  }

  /** A URL whose batch endpoint has another batch endpoint. */
  lemma DerivedTwiceDiffers() returns (raw: string)
    ensures raw == "http://h///" && Parse(raw).Some? && BatchEndpoint(raw).Some?
    ensures BatchEndpoint(BatchEndpoint(raw).value) != BatchEndpoint(raw)
  {
    raw := Recompose(Bare("///", false));
    SlashesStay();
    BareTexts();
    BareHost("///", false);
    SlashesMove(raw);
  }

  lemma SlashesMove(raw: string)
    requires Parse(raw) == Some(Bare("///", false))
    ensures BatchEndpoint(raw).Some?
    ensures BatchEndpoint(BatchEndpoint(raw).value) != BatchEndpoint(raw)
  {
    SlashesStay();
    BatchEndpointIdempotent(raw);
  }

  // ----- URLs as they are written

  // A host name: letters, digits, dots and hyphens.
  predicate HostName(h: string) {
    h != "" && forall i | 0 <= i < |h| ::
      'a' <= h[i] <= 'z' || 'A' <= h[i] <= 'Z' || '0' <= h[i] <= '9' || h[i] == '.' || h[i] == '-'
  }

  predicate PortDigits(p: string) { p != "" && forall i | 0 <= i < |p| :: '0' <= p[i] <= '9' }

  // "/" and what a path of unreserved characters has.
  predicate PlainPath(p: string) {
    p != "" ==> p[0] == '/' && forall i | 0 <= i < |p| ::
      'a' <= p[i] <= 'z' || 'A' <= p[i] <= 'Z' || '0' <= p[i] <= '9' || p[i] in ['/', '-', '.', '_', '~']
  }

  lemma NameIsHost(h: string)
    requires HostName(h)
    ensures ':' !in h && ValidHost(h)
  {
    FindNone(h, ':');
    assert forall i | 0 <= i < |h| :: NameChar(h[i]);
    assert h[|h|..] == "";
  }

  lemma NameAndPort(h: string, p: string)
    requires HostName(h) && PortDigits(p)
    ensures ValidHost(h + ":" + p)
  {
    NameIsHost(h);
    var s := h + [':'] + p;
    FindIn(h, ':', p);
    assert h + ":" + p == s && Find(s, ':') == |h|;
    assert s[|h|..] == [':'] + p;
    assert forall i | 0 <= i < |h| :: s[i] == h[i] && NameChar(h[i]);
  }

  lemma PlainIsValid(p: string)
    requires PlainPath(p)
    ensures ValidPath(p)
  {
  }

  function Plain(scheme: string, host: string, path: string): Url { Url(scheme, host, path, false, "", "") }

  lemma PlainText(scheme: string, host: string, path: string)
    ensures Recompose(Plain(scheme, host, path)) == scheme + "://" + host + path
  {
  }

  lemma PlainParses(scheme: string, host: string, path: string)
    requires scheme in {"http", "https"} && ValidHost(host) && PlainPath(path)
    ensures Parse(scheme + "://" + host + path) == Some(Plain(scheme, host, path))
  {
    PlainIsValid(path);
    PlainText(scheme, host, path);
    UrlBack(Plain(scheme, host, path));
  }

  /** A URL of a host name, with or without a port, is accepted, and read as it is written. */
  lemma HostsAccepted(scheme: string, name: string, port: string, path: string)
    requires scheme in {"http", "https"} && HostName(name) && PortDigits(port) && PlainPath(path)
    ensures Parse(scheme + "://" + name + path) == Some(Plain(scheme, name, path))
    ensures Parse(scheme + "://" + (name + ":" + port) + path) == Some(Plain(scheme, name + ":" + port, path))
  {
    NameIsHost(name);
    NameAndPort(name, port);
    PlainParses(scheme, name, path);
    PlainParses(scheme, name + ":" + port, path);
  }

  /** User information is refused, in any scheme, with whatever follows. */
  lemma UserInfoRefused(scheme: string, user: string, rest: string)
    requires ':' !in scheme && '#' !in scheme
    requires forall c | c in user :: c != '/' && c != '?' && c != '#'
    ensures Parse(scheme + "://" + (user + "@" + rest)).None?
  {
    var raw := scheme + "://" + (user + "@" + rest);
    if Parse(raw).Some? {
      var u := Parse(raw).value;
      ParseWellFormed(raw);
      NoAt(u.host, u.path, QueryText(u), user, Head(rest, '#'));
      HostIs(raw, scheme, user + "@", rest);
    }
  }

  lemma HostIs(raw: string, scheme: string, start: string, rest: string)
    requires ':' !in scheme && '#' !in scheme && '#' !in start
    requires raw == scheme + "://" + (start + rest) && Parse(raw).Some?
    ensures var u := Parse(raw).value; u.host + u.path + QueryText(u) == start + Head(rest, '#')
  {
    Pieces(raw);
    FrontOf(raw, scheme, start, rest);
    AfterTheScheme(Head(raw, '#'), scheme, start + Head(rest, '#'), Parse(raw).value);
  }

  lemma AfterTheScheme(f: string, scheme: string, front: string, u: Url)
    requires ':' !in scheme && f == scheme + "://" + front && f == Head(f, ':') + Middle(u)
    ensures u.host + u.path + QueryText(u) == front
  {
    assert f == scheme + [':'] + ("//" + front);
    FindIn(scheme, ':', "//" + front);
    SameMiddle(scheme, u, front);
  }

  lemma FrontOf(raw: string, scheme: string, start: string, rest: string)
    requires '#' !in scheme && '#' !in start && raw == scheme + "://" + (start + rest)
    ensures Head(raw, '#') == scheme + "://" + (start + Head(rest, '#'))
  {
    assert raw == scheme + "://" + start + rest;
    HeadKeeps(scheme + "://" + start, rest, '#');
  }

  lemma SameMiddle(scheme: string, u: Url, front: string)
    requires scheme + Middle(u) == scheme + [':'] + ("//" + front)
    ensures u.host + u.path + QueryText(u) == front
  {
    var middle := Middle(u);
    assert middle == (scheme + middle)[|scheme|..];
    assert (scheme + [':'] + ("//" + front))[|scheme|..] == "://" + front;
    assert middle[3..] == u.host + u.path + QueryText(u) && ("://" + front)[3..] == front;
  }

  // A host has no '@', and what follows it starts with '/' or '?'.
  lemma NoAt(host: string, path: string, query: string, user: string, h: string)
    requires ValidHost(host) && (path != "" ==> path[0] == '/') && (query != "" ==> query[0] == '?')
    requires forall c | c in user :: c != '/' && c != '?'
    ensures host + path + query != user + "@" + h
  {
    var s, t := host + path + query, user + "@" + h;
    HostChars(host);
    var n := if |host| <= |user| then |host| else |user|;
    assert t[n] == if n < |user| then user[n] else '@';
    assert n < |user| ==> user[n] in user;
    if n < |s| {
      NotHostAt(host, path, query, n);
      assert s[n] != t[n];
    } else {
      assert |s| < |t|;
    }
  }

  lemma NotHostAt(host: string, path: string, query: string, n: nat)
    requires n <= |host| && n < |host + path + query|
    requires forall i | 0 <= i < |host| :: HostChar(host[i])
    requires (path != "" ==> path[0] == '/') && (query != "" ==> query[0] == '?')
    ensures n < |host| ==> (host + path + query)[n] != '@'
    ensures n == |host| ==> (host + path + query)[n] == '/' || (host + path + query)[n] == '?'
  {
  }

  // A prefix without the separator stays at the head.
  lemma HeadKeeps(a: string, b: string, c: char)
    requires c !in a
    ensures Head(a + b, c) == a + Head(b, c)
  {
    var n := |a| + Find(b, c);
    assert forall j | 0 <= j < n :: (a + b)[j] != c;
    assert n < |a + b| ==> (a + b)[n] == c;
    assert Find(a + b, c) == n;
  }

  /**
    The evaluation endpoint below any mount point leads to the batch endpoint and the
    metadata document below the same mount point.
   */
  lemma EndpointTexts(scheme: string, host: string, mount: string)
    requires scheme in {"http", "https"} && ValidHost(host) && PlainPath(mount) && !HasSuffix(mount, "/")
    requires !HasSuffix(mount, "/access/v1/evaluation") && !HasSuffix(mount, "/access/v1/evaluations")
    requires !HasSuffix(mount, "/.well-known/authzen-configuration")
    ensures var root := scheme + "://" + host + mount;
      && BatchEndpoint(root + "/access/v1/evaluation") == Some(root + "/access/v1/evaluations")
      && BatchEndpoint(root) == Some(root + "/access/v1/evaluations")
      && MetadataEndpoint(root + "/access/v1/evaluation") == Some(root + "/.well-known/authzen-configuration")
      && MetadataEndpoint(root) == Some(root + "/.well-known/authzen-configuration")
  {
    KnownIs();
    BelowEvaluation(scheme, host, mount);
    assert mount + "" == mount;
    PlainParses(scheme, host, mount);
    MountConverges(scheme + "://" + host + mount, scheme, host, mount, mount, "");
  }

  lemma BelowEvaluation(scheme: string, host: string, mount: string)
    requires scheme in {"http", "https"} && ValidHost(host) && PlainPath(mount) && !HasSuffix(mount, "/")
    requires forall k | k in KNOWN :: !HasSuffix(mount, k)
    ensures var root := scheme + "://" + host + mount;
      && BatchEndpoint(root + EVALUATION) == Some(root + EVALUATIONS)
      && MetadataEndpoint(root + EVALUATION) == Some(root + METADATA)
  {
    EvaluationPath(mount);
    PlainParses(scheme, host, mount + EVALUATION);
    assert scheme + "://" + host + (mount + EVALUATION) == scheme + "://" + host + mount + EVALUATION;
    MountConverges(scheme + "://" + host + mount + EVALUATION, scheme, host, mount, mount + EVALUATION, EVALUATION);
  }

  lemma KnownIs()
    ensures EVALUATION == "/access/v1/evaluation" && EVALUATIONS == "/access/v1/evaluations"
    ensures METADATA == "/.well-known/authzen-configuration"
    ensures forall k | k in KNOWN :: k == EVALUATION || k == EVALUATIONS || k == METADATA
  {
  }

  lemma EvaluationPath(mount: string)
    requires PlainPath(mount)
    ensures PlainPath(mount + EVALUATION)
  {
  }

  lemma MountConverges(raw: string, scheme: string, host: string, mount: string, path: string, p: string)
    requires p in ["", "/"] + KNOWN && path == mount + p
    requires Parse(raw) == Some(Plain(scheme, host, path))
    requires !HasSuffix(mount, "/") && forall k | k in KNOWN :: !HasSuffix(mount, k)
    ensures var root := scheme + "://" + host + mount;
      BatchEndpoint(raw) == Some(root + EVALUATIONS) && MetadataEndpoint(raw) == Some(root + METADATA)
  {
    MountNames(raw, scheme, host, mount, path, p);
    Converge(raw, Plain(scheme, host, mount), p);
    TextBelow(scheme, host, mount, EVALUATIONS);
    TextBelow(scheme, host, mount, METADATA);
  }

  lemma MountNames(raw: string, scheme: string, host: string, mount: string, path: string, p: string)
    requires path == mount + p && Parse(raw) == Some(Plain(scheme, host, path))
    ensures Names(raw, Plain(scheme, host, mount), p)
  {
  }

  lemma TextBelow(scheme: string, host: string, mount: string, q: string)
    ensures Recompose(At(Plain(scheme, host, mount), mount + q)) == scheme + "://" + host + mount + q
  {
    PlainText(scheme, host, mount + q);
    assert scheme + "://" + host + (mount + q) == scheme + "://" + host + mount + q;
  }
}
