/**
  JSON text as RFC 8259 describes it, apart from any parser: which tokens a tree is
  written with, and which texts spell it. Bytes are given by their codes.
 */
module Grammar {
  import opened Json

  predicate White(c: char) { c as int == 0x20 || c as int == 0x09 || c as int == 0x0A || c as int == 0x0D }

  // Any run of whitespace (section 2).
  predicate Gap(s: string) { forall c | c in s :: White(c) }

  // ----- numbers (section 6)

  predicate DigitRun(s: string) { s != "" && forall c | c in s :: 0x30 <= c as int <= 0x39 }

  predicate Sign(s: string) { s == "" || s == "-" }

  predicate IntegerPart(s: string) { DigitRun(s) && (|s| == 1 || s[0] != '0') }

  predicate FractionPart(s: string) { s == "" || (s[0] == '.' && DigitRun(s[1..])) }

  predicate ExponentPart(s: string) {
    s == "" ||
    ((s[0] == 'e' || s[0] == 'E')
     && (DigitRun(s[1..]) || (|s| > 1 && (s[1] == '+' || s[1] == '-') && DigitRun(s[2..]))))
  }

  ghost predicate IsNumber(lit: string) {
    exists sign, i, f, e ::
      Sign(sign) && IntegerPart(i) && FractionPart(f) && ExponentPart(e) && lit == sign + (i + (f + e))
  }

  // ----- strings (section 7)

  predicate HexByte(c: char) {
    || 0x30 <= c as int <= 0x39
    || 0x41 <= c as int <= 0x46
    || 0x61 <= c as int <= 0x66
  }

  predicate IsItem(it: Item) {
    match it
    case Plain(c) => c as int >= 0x20 && c as int != 0x22 && c as int != 0x5C
    case Short(c) => c == '"' || c == '\\' || c == '/' || c == 'b' || c == 'f' || c == 'n' || c == 'r' || c == 't'
    case Unicode(h) => |h| == 4 && forall c | c in h :: HexByte(c)
  }

  function ItemBytes(it: Item): string {
    match it
    case Plain(c) => [c]
    case Short(c) => "\\" + [c]
    case Unicode(h) => "\\u" + h
  }

  function Body(its: seq<Item>): string {
    if its == [] then "" else ItemBytes(its[0]) + Body(its[1..])
  }

  function Quoted(its: seq<Item>): string { "\"" + Body(its) + "\"" }

  // ----- trees

  ghost predicate IsTree(v: Value) {
    match v
    case Number(lit) => IsNumber(lit)
    case String(s) => forall it | it in s :: IsItem(it)
    case Array(vs) => AreTrees(vs)
    case Object(ms) => AreMembers(ms)
    case _ => true
  }

  ghost predicate AreTrees(vs: Values) { vs.Values? ==> IsTree(vs.head) && AreTrees(vs.tail) }

  ghost predicate AreMembers(ms: Members) {
    ms.Members? ==> (forall it | it in ms.name :: IsItem(it)) && IsTree(ms.value) && AreMembers(ms.rest)
  }

  // The tokens of a tree, in order.
  function Tokens(v: Value): seq<string> {
    match v
    case Null => ["null"]
    case Bool(b) => [if b then "true" else "false"]
    case Number(lit) => [lit]
    case String(s) => [Quoted(s)]
    case Array(vs) => ["["] + ArrayTokens(vs)
    case Object(ms) => ["{"] + ObjectTokens(ms)
  }

  function ArrayTokens(vs: Values): seq<string> {
    if vs.NoValues? then ["]"] else Tokens(vs.head) + TailTokens(vs.tail)
  }

  function ObjectTokens(ms: Members): seq<string> {
    if ms.NoMembers? then ["}"] else MemberTokens(ms.name, Tokens(ms.value)) + MoreTokens(ms.rest)
  }

  function TailTokens(vs: Values): seq<string> {
    if vs.NoValues? then ["]"] else [","] + (Tokens(vs.head) + TailTokens(vs.tail))
  }

  function MemberTokens(k: seq<Item>, value: seq<string>): seq<string> { [Quoted(k)] + ([":"] + value) }

  function MoreTokens(ms: Members): seq<string> {
    if ms.NoMembers? then ["}"] else [","] + (MemberTokens(ms.name, Tokens(ms.value)) + MoreTokens(ms.rest))
  }

  // ----- texts

  // s is these tokens in order, each after a gap, and then rest.
  ghost predicate Woven(s: string, tokens: seq<string>, rest: string)
    decreases |tokens|
  {
    if tokens == [] then s == rest
    else exists gap, s' :: Gap(gap) && s == gap + tokens[0] + s' && Woven(s', tokens[1..], rest)
  }

  /** s is a JSON text of v: its tokens, with any gaps before, between and after them. */
  ghost predicate Spells(s: string, v: Value) {
    IsTree(v) && exists end :: Gap(end) && Woven(s, Tokens(v), end)
  }

  // ----- weaving

  lemma WovenOne(s: string, gap: string, token: string, rest: string)
    requires Gap(gap) && s == gap + token + rest
    ensures Woven(s, [token], rest)
  {
    assert Woven(rest, [], rest);
    assert [token][1..] == [];
  }

  lemma WovenFirst(s: string, tokens: seq<string>, rest: string) returns (gap: string, s': string)
    requires tokens != [] && Woven(s, tokens, rest)
    ensures Gap(gap) && s == gap + tokens[0] + s' && Woven(s', tokens[1..], rest)
  {
    gap, s' :| Gap(gap) && s == gap + tokens[0] + s' && Woven(s', tokens[1..], rest);
  }

  lemma WovenThen(s: string, gap: string, s': string, tokens: seq<string>, rest: string)
    requires tokens != [] && Gap(gap) && s == gap + tokens[0] + s' && Woven(s', tokens[1..], rest)
    ensures Woven(s, tokens, rest)
  {
  }

  lemma {:induction false} WovenSplit(s: string, a: seq<string>, b: seq<string>, rest: string) returns (mid: string)
    requires Woven(s, a + b, rest)
    ensures Woven(s, a, mid) && Woven(mid, b, rest)
    decreases |a|
  {
    if a == [] {
      assert a + b == b;
      mid := s;
    } else {
      var gap, s' := WovenFirst(s, a + b, rest);
      assert (a + b)[1..] == a[1..] + b;
      mid := WovenSplit(s', a[1..], b, rest);
      WovenThen(s, gap, s', a, mid);
    }
  }

  lemma {:induction false} WovenJoin(s: string, a: seq<string>, mid: string, b: seq<string>, rest: string)
    requires Woven(s, a, mid) && Woven(mid, b, rest)
    ensures Woven(s, a + b, rest)
    decreases |a|
  {
    if a == [] {
      assert a + b == b;
    } else {
      var gap, s' := WovenFirst(s, a, mid);
      assert (a + b)[1..] == a[1..] + b;
      WovenJoin(s', a[1..], mid, b, rest);
      WovenThen(s, gap, s', a + b, rest);
    }
  }

  lemma WovenAfter(gap: string, s: string, tokens: seq<string>, rest: string)
    requires Gap(gap) && tokens != [] && Woven(s, tokens, rest)
    ensures Woven(gap + s, tokens, rest)
  {
    var g, s' := WovenFirst(s, tokens, rest);
    assert gap + s == (gap + g) + tokens[0] + s';
    WovenThen(gap + s, gap + g, s', tokens, rest);
  }

  // The tokens put together without gaps.
  function Concat(tokens: seq<string>): string {
    if tokens == [] then "" else tokens[0] + Concat(tokens[1..])
  }

  lemma {:induction false} WovenTight(tokens: seq<string>, rest: string)
    ensures Woven(Concat(tokens) + rest, tokens, rest)
    decreases |tokens|
  {
    if tokens != [] {
      WovenTight(tokens[1..], rest);
      var s := Concat(tokens) + rest;
      assert s == "" + tokens[0] + (Concat(tokens[1..]) + rest);
      WovenThen(s, "", Concat(tokens[1..]) + rest, tokens, rest);
    } else {
      assert Concat(tokens) + rest == rest;
    }
  }

  lemma {:induction false} WovenLength(s: string, tokens: seq<string>, rest: string)
    requires Woven(s, tokens, rest)
    ensures |Concat(tokens)| + |rest| <= |s|
    decreases |tokens|
  {
    if tokens != [] {
      var gap, s' := WovenFirst(s, tokens, rest);
      WovenLength(s', tokens[1..], rest);
    }
  }

  lemma {:induction false} ConcatJoin(a: seq<string>, b: seq<string>)
    ensures Concat(a + b) == Concat(a) + Concat(b)
    decreases |a|
  {
    if a == [] {
      assert a + b == b;
    } else {
      assert (a + b)[1..] == a[1..] + b;
      ConcatJoin(a[1..], b);
    }
  }
}
