/**
  JSON text (RFC 8259) as the client and the PDP exchange it. A `string` stands for
  a Go string or []byte: one char is one byte.

  The syntax tree keeps everything that is significant in a text: member order,
  duplicate members, number literals and the way each string is escaped. Only
  whitespace between tokens is dropped, as it is when a json.RawMessage is sent.
 */
module Json {
  import opened Wrappers

  // One element of a string literal: a byte, a short escape, or \u with four hex digits.
  datatype Item = Plain(c: char) | Short(c: char) | Unicode(hex: string)

  datatype Value =
    | Null
    | Bool(b: bool)
    | Number(lit: string)
    | String(items: seq<Item>)
    | Array(values: Values)
    | Object(members: Members)

  datatype Values = NoValues | Values(head: Value, tail: Values)

  datatype Members = NoMembers | Members(name: seq<Item>, value: Value, rest: Members)

  // ----- characters

  predicate IsSpace(c: char) { c == ' ' || c == '\t' || c == '\n' || c == '\r' }

  predicate IsDigit(c: char) { '0' <= c <= '9' }

  predicate IsHex(c: char) { IsDigit(c) || 'a' <= c <= 'f' || 'A' <= c <= 'F' }

  predicate IsShort(c: char) { c in "\"\\/bfnrt" }

  predicate IsPlain(c: char) { ' ' <= c && c != '"' && c != '\\' }

  predicate StartsWith(s: string, c: char) { s != "" && s[0] == c }

  predicate AllSpace(s: string) { forall i | 0 <= i < |s| :: IsSpace(s[i]) }

  // ----- the text of a tree

  function ItemText(it: Item): string {
    match it
    case Plain(c) => [c]
    case Short(c) => ['\\', c]
    case Unicode(h) => ['\\', 'u'] + h
  }

  function ItemsText(s: seq<Item>): string {
    if s == [] then "" else ItemText(s[0]) + ItemsText(s[1..])
  }

  function StringText(s: seq<Item>): string { ['"'] + ItemsText(s) + ['"'] }

  function Text(v: Value): string {
    match v
    case Null => "null"
    case Bool(b) => if b then "true" else "false"
    case Number(lit) => lit
    case String(s) => StringText(s)
    case Array(vs) => ['['] + ArrayText(vs)
    case Object(ms) => ['{'] + ObjectText(ms)
  }

  // An array, after its opening bracket.
  function ArrayText(vs: Values): string {
    match vs
    case NoValues => "]"
    case Values(h, t) => Text(h) + TailText(t)
  }

  // What follows an array element, up to and including the closing bracket.
  function TailText(vs: Values): string {
    match vs
    case NoValues => "]"
    case Values(h, t) => [','] + (Text(h) + TailText(t))
  }

  // An object, after its opening brace.
  function ObjectText(ms: Members): string {
    match ms
    case NoMembers => "}"
    case Members(k, x, t) => MemberText(k, Text(x)) + MoreText(t)
  }

  function MemberText(k: seq<Item>, value: string): string { StringText(k) + ([':'] + value) }

  // What follows an object member, up to and including the closing brace.
  function MoreText(ms: Members): string {
    match ms
    case NoMembers => "}"
    case Members(k, x, t) => [','] + (MemberText(k, Text(x)) + MoreText(t))
  }

  // ----- trees that have a text

  predicate ItemOk(it: Item) {
    match it
    case Plain(c) => IsPlain(c)
    case Short(c) => IsShort(c)
    case Unicode(h) => |h| == 4 && IsHex(h[0]) && IsHex(h[1]) && IsHex(h[2]) && IsHex(h[3])
  }

  predicate ItemsOk(s: seq<Item>) { forall i | 0 <= i < |s| :: ItemOk(s[i]) }

  predicate WellFormed(v: Value) {
    match v
    case Number(lit) => NumberLength(lit) == Some(|lit|)
    case String(s) => ItemsOk(s)
    case Array(vs) => AllWellFormed(vs)
    case Object(ms) => MembersWellFormed(ms)
    case _ => true
  }

  predicate AllWellFormed(vs: Values) {
    vs.Values? ==> WellFormed(vs.head) && AllWellFormed(vs.tail)
  }

  predicate MembersWellFormed(ms: Members) {
    ms.Members? ==> ItemsOk(ms.name) && WellFormed(ms.value) && MembersWellFormed(ms.rest)
  }

  // ----- the parser: each function reads a prefix and returns what it read and the rest

  function Skip(s: string): (r: string)
    ensures |r| <= |s|
    ensures r != "" ==> !IsSpace(r[0])
  {
    if s != "" && IsSpace(s[0]) then Skip(s[1..]) else s
  }

  function Digits(s: string): (n: nat)
    ensures n <= |s|
  {
    if s != "" && IsDigit(s[0]) then 1 + Digits(s[1..]) else 0
  }

  function IntLength(s: string): (n: Option<nat>)
    ensures n.Some? ==> 0 < n.value <= |s|
  {
    if StartsWith(s, '0') then Some(1)
    else if s != "" && IsDigit(s[0]) then Some(Digits(s))
    else None
  }

  function FracLength(s: string): (n: Option<nat>)
    ensures n.Some? ==> n.value <= |s|
  {
    if !StartsWith(s, '.') then Some(0)
    else if Digits(s[1..]) == 0 then None
    else Some(1 + Digits(s[1..]))
  }

  function ExpLength(s: string): (n: Option<nat>)
    ensures n.Some? ==> n.value <= |s|
  {
    if !StartsWith(s, 'e') && !StartsWith(s, 'E') then Some(0)
    else
      var sign := if StartsWith(s[1..], '+') || StartsWith(s[1..], '-') then 1 else 0;
      if Digits(s[1 + sign..]) == 0 then None
      else Some(1 + sign + Digits(s[1 + sign..]))
  }

  function FracExpLength(s: string): (n: Option<nat>)
    ensures n.Some? ==> n.value <= |s|
  {
    var f :- FracLength(s);
    var e :- ExpLength(s[f..]);
    Some(f + e)
  }

  function UnsignedLength(s: string): (n: Option<nat>)
    ensures n.Some? ==> 0 < n.value <= |s|
  {
    var i :- IntLength(s);
    var m :- FracExpLength(s[i..]);
    Some(i + m)
  }

  // How many bytes of s form a number: sign, integer, fraction, exponent.
  function NumberLength(s: string): (n: Option<nat>)
    ensures n.Some? ==> 0 < n.value <= |s|
  {
    if !StartsWith(s, '-') then UnsignedLength(s)
    else
      var n :- UnsignedLength(s[1..]);
      Some(1 + n)
  }

  function ParseItem(s: string): (r: Option<(Item, string)>)
    ensures r.Some? ==> |r.value.1| < |s|
  {
    if s == "" || s[0] == '"' || s[0] < ' ' then None
    else if s[0] != '\\' then Some((Plain(s[0]), s[1..]))
    else if |s| < 2 then None
    else if IsShort(s[1]) then Some((Short(s[1]), s[2..]))
    else if s[1] == 'u' && |s| >= 6 && ItemOk(Unicode(s[2..6])) then Some((Unicode(s[2..6]), s[6..]))
    else None
  }

  // The rest of a string literal, after its opening quote.
  function ParseItems(s: string): (r: Option<(seq<Item>, string)>)
    ensures r.Some? ==> |r.value.1| < |s|
  {
    if StartsWith(s, '"') then Some(([], s[1..]))
    else
      var (it, s1) :- ParseItem(s);
      var (its, s2) :- ParseItems(s1);
      Some(([it] + its, s2))
  }

  function ParseLiteral(s: string): Option<(Value, string)> {
    if "null" <= s then Some((Null, s[4..]))
    else if "true" <= s then Some((Bool(true), s[4..]))
    else if "false" <= s then Some((Bool(false), s[5..]))
    else None
  }

  function ParseNumber(s: string): Option<(Value, string)> {
    var n :- NumberLength(s);
    Some((Number(s[..n]), s[n..]))
  }

  function ParseValue(s: string): (r: Option<(Value, string)>)
    ensures r.Some? ==> |r.value.1| < |s|
    decreases |s|, 0
  {
    if s == "" then None
    else if s[0] == '"' then
      var (its, s1) :- ParseItems(s[1..]);
      Some((String(its), s1))
    else if s[0] == '[' then ParseArray(s[1..])
    else if s[0] == '{' then ParseObject(s[1..])
    else if s[0] == '-' || IsDigit(s[0]) then ParseNumber(s)
    else ParseLiteral(s)
  }

  // An array, after its opening bracket.
  function ParseArray(s: string): (r: Option<(Value, string)>)
    ensures r.Some? ==> |r.value.1| < |s|
    decreases |s|, 1
  {
    var s1 := Skip(s);
    if StartsWith(s1, ']') then Some((Array(NoValues), s1[1..]))
    else
      var (h, s2) :- ParseValue(s1);
      var (t, s3) :- ParseTail(s2);
      Some((Array(Values(h, t)), s3))
  }

  // An object, after its opening brace.
  function ParseObject(s: string): (r: Option<(Value, string)>)
    ensures r.Some? ==> |r.value.1| < |s|
    decreases |s|, 2
  {
    var s1 := Skip(s);
    if StartsWith(s1, '}') then Some((Object(NoMembers), s1[1..]))
    else
      var (k, x, s2) :- ParseMember(s1);
      var (t, s3) :- ParseMore(s2);
      Some((Object(Members(k, x, t)), s3))
  }

  function ParseTail(s: string): (r: Option<(Values, string)>)
    ensures r.Some? ==> |r.value.1| < |s|
    decreases |s|, 0
  {
    var s1 := Skip(s);
    if StartsWith(s1, ']') then Some((NoValues, s1[1..]))
    else if StartsWith(s1, ',') then
      var (h, s2) :- ParseValue(Skip(s1[1..]));
      var (t, s3) :- ParseTail(s2);
      Some((Values(h, t), s3))
    else None
  }

  function ParseMember(s: string): (r: Option<(seq<Item>, Value, string)>)
    ensures r.Some? ==> |r.value.2| < |s|
    decreases |s|, 1
  {
    if !StartsWith(s, '"') then None
    else
      var (k, s1) :- ParseItems(s[1..]);
      var (x, s2) :- ParseColonValue(s1);
      Some((k, x, s2))
  }

  function ParseColonValue(s: string): (r: Option<(Value, string)>)
    ensures r.Some? ==> |r.value.1| < |s|
    decreases |s|, 0
  {
    var s1 := Skip(s);
    if StartsWith(s1, ':') then ParseValue(Skip(s1[1..])) else None
  }

  function ParseMore(s: string): (r: Option<(Members, string)>)
    ensures r.Some? ==> |r.value.1| < |s|
    decreases |s|, 0
  {
    var s1 := Skip(s);
    if StartsWith(s1, '}') then Some((NoMembers, s1[1..]))
    else if StartsWith(s1, ',') then
      var (k, x, s2) :- ParseMember(Skip(s1[1..]));
      var (t, s3) :- ParseMore(s2);
      Some((Members(k, x, t), s3))
    else None
  }

  // A whole JSON text: one value with whitespace around it (section 2 of RFC 8259).
  function ParseDoc(s: string): Option<Value> {
    var (v, r) :- ParseValue(Skip(s));
    if Skip(r) == "" then Some(v) else None
  }
}
