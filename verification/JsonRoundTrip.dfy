/**
  The parser reads exactly the texts of the grammar: a text parses to a tree if and only
  if it spells it. So writing a tree and reading it back gives the tree, and what was read
  can be written in no more bytes.
 */
module JsonRoundTrip {
  import opened Wrappers
  import opened Json
  import opened JsonPrefix
  import opened Grammar

  // ----- bytes, items and numbers

  lemma WhiteIsSpace(c: char)
    ensures White(c) <==> IsSpace(c)
  {
  }

  lemma ItemIs(it: Item)
    ensures IsItem(it) <==> ItemOk(it)
    ensures ItemBytes(it) == ItemText(it)
  {
    if it.Unicode? && |it.hex| == 4 {
      var h := it.hex;
      assert h[0] in h && h[1] in h && h[2] in h && h[3] in h;
      forall c | c in h ensures c == h[0] || c == h[1] || c == h[2] || c == h[3] {
        var i :| 0 <= i < 4 && c == h[i];
      }
      assert forall c | c in h :: HexByte(c) <==> IsHex(c);
    }
  }

  lemma {:induction false} ItemsAre(its: seq<Item>)
    ensures (forall it | it in its :: IsItem(it)) <==> ItemsOk(its)
    ensures Body(its) == ItemsText(its)
  {
    if its != [] {
      ItemIs(its[0]);
      ItemsAre(its[1..]);
      assert its == [its[0]] + its[1..];
    }
  }

  lemma QuotedIs(its: seq<Item>)
    ensures Quoted(its) == StringText(its)
  {
    ItemsAre(its);
  }

  lemma {:induction false} DigitsOf(run: string, rest: string)
    requires run != "" ==> DigitRun(run)
    requires rest != "" ==> !IsDigit(rest[0])
    ensures Digits(run + rest) == |run|
  {
    if run != "" {
      assert run[0] in run && forall c | c in run[1..] :: c in run;
      assert (run + rest)[1..] == run[1..] + rest;
      DigitsOf(run[1..], rest);
    } else {
      assert run + rest == rest;
    }
  }

  lemma {:induction false} DigitsRun(s: string)
    ensures forall c | c in s[..Digits(s)] :: IsDigit(c)
    ensures Digits(s) > 0 ==> DigitRun(s[..Digits(s)])
    ensures Digits(s) < |s| ==> !IsDigit(s[Digits(s)])
  {
    if s != "" && IsDigit(s[0]) {
      DigitsRun(s[1..]);
      assert s[..Digits(s)] == [s[0]] + s[1..][..Digits(s[1..])];
    }
  }

  lemma ExponentRead(e: string)
    ensures ExponentPart(e) <==> ExpLength(e) == Some(|e|)
  {
    if e != "" && (e[0] == 'e' || e[0] == 'E') {
      var sign := if StartsWith(e[1..], '+') || StartsWith(e[1..], '-') then 1 else 0;
      var d := e[1 + sign..];
      WholeRun(d);
      assert sign == 1 ==> e[2..] == d;
      assert sign == 1 ==> !DigitRun(e[1..]) by {
        if sign == 1 {
          assert e[1..][0] in e[1..];
        }
      }
    }
  }

  lemma WholeRun(d: string)
    ensures DigitRun(d) <==> d != "" && Digits(d) == |d|
  {
    DigitsRun(d);
    assert d[..|d|] == d;
    if DigitRun(d) {
      DigitsOf(d, "");
      assert d + "" == d;
    }
  }

  // An exponent part starts with none of the bytes that prolong a fraction.
  lemma FractionRead(f: string, e: string)
    requires FractionPart(f) && ExponentPart(e)
    ensures FracLength(f + e) == Some(|f|)
  {
    if f == "" {
      assert f + e == e;
    } else {
      assert (f + e)[1..] == f[1..] + e;
      DigitsOf(f[1..], e);
    }
  }

  lemma IntegerRead(i: string, rest: string)
    requires IntegerPart(i) && (rest != "" ==> !IsDigit(rest[0]))
    ensures IntLength(i + rest) == Some(|i|)
  {
    assert i[0] in i;
    DigitsOf(i, rest);
  }

  lemma UnsignedRead(i: string, f: string, e: string)
    requires IntegerPart(i) && FractionPart(f) && ExponentPart(e)
    ensures UnsignedLength(i + (f + e)) == Some(|i + (f + e)|)
  {
    PartsStart(f, e);
    IntegerRead(i, f + e);
    assert (i + (f + e))[|i|..] == f + e;
    FracExpRead(f, e);
  }

  lemma PartsStart(f: string, e: string)
    requires FractionPart(f) && ExponentPart(e)
    ensures f + e != "" ==> !IsDigit((f + e)[0])
  {
    assert f + e != "" ==> (f + e)[0] == if f != "" then f[0] else e[0];
  }

  lemma FracExpRead(f: string, e: string)
    requires FractionPart(f) && ExponentPart(e)
    ensures FracExpLength(f + e) == Some(|f + e|)
  {
    FractionRead(f, e);
    assert (f + e)[|f|..] == e;
    ExponentRead(e);
  }

  lemma UnsignedParts(s: string) returns (i: string, f: string, e: string)
    requires UnsignedLength(s) == Some(|s|)
    ensures IntegerPart(i) && FractionPart(f) && ExponentPart(e) && s == i + (f + e)
  {
    var n := IntLength(s).value;
    i := s[..n];
    IntegerParsed(s);
    f, e := FracExpParts(s[n..]);
    assert s == i + s[n..];
  }

  lemma FracExpParts(s: string) returns (f: string, e: string)
    requires FracExpLength(s) == Some(|s|)
    ensures FractionPart(f) && ExponentPart(e) && s == f + e
  {
    var m := FracLength(s).value;
    f, e := s[..m], s[m..];
    FractionParsed(s);
    ExponentRead(e);
  }

  lemma IntegerParsed(s: string)
    requires IntLength(s).Some?
    ensures IntegerPart(s[..IntLength(s).value])
  {
    DigitsRun(s);
  }

  lemma FractionParsed(s: string)
    requires FracLength(s).Some?
    ensures FractionPart(s[..FracLength(s).value])
  {
    if StartsWith(s, '.') {
      DigitsRun(s[1..]);
      assert s[..FracLength(s).value][1..] == s[1..][..Digits(s[1..])];
    }
  }

  /** The literals that are read as numbers are those of the grammar. */
  lemma NumberExactly(lit: string)
    ensures IsNumber(lit) <==> NumberLength(lit) == Some(|lit|)
  {
    if NumberLength(lit) == Some(|lit|) {
      NumberParts(lit);
    }
    if IsNumber(lit) {
      var sign, i, f, e :|
        Sign(sign) && IntegerPart(i) && FractionPart(f) && ExponentPart(e) && lit == sign + (i + (f + e));
      UnsignedRead(i, f, e);
      SignedRead(lit, sign, i + (f + e));
    }
  }

  lemma SignedRead(lit: string, sign: string, u: string)
    requires Sign(sign) && lit == sign + u && UnsignedLength(u) == Some(|u|)
    ensures NumberLength(lit) == Some(|lit|)
  {
    if sign == "-" {
      Signed(lit, u);
    } else {
      assert lit == u && !StartsWith(u, '-');
    }
  }

  lemma NumberParts(lit: string)
    requires NumberLength(lit) == Some(|lit|)
    ensures IsNumber(lit)
  {
    var sign, u := "", lit;
    if StartsWith(lit, '-') {
      sign, u := "-", lit[1..];
    }
    var i, f, e := UnsignedParts(u);
    assert lit == sign + (i + (f + e));
    assert Sign(sign);
  }

  /** The trees that have a text are those of the grammar. */
  lemma {:induction false} WellFormedExactly(v: Value)
    ensures IsTree(v) <==> WellFormed(v)
    decreases v, 1
  {
    match v
    case Number(lit) => NumberExactly(lit);
    case String(s) => ItemsAre(s);
    case Array(vs) => AllWellFormedExactly(vs);
    case Object(ms) => MembersWellFormedExactly(ms);
    case _ =>
  }

  lemma {:induction false} AllWellFormedExactly(vs: Values)
    ensures AreTrees(vs) <==> AllWellFormed(vs)
    decreases vs, 0
  {
    if vs.Values? {
      WellFormedExactly(vs.head);
      AllWellFormedExactly(vs.tail);
    }
  }

  lemma {:induction false} MembersWellFormedExactly(ms: Members)
    ensures AreMembers(ms) <==> MembersWellFormed(ms)
    decreases ms, 0
  {
    if ms.Members? {
      ItemsAre(ms.name);
      WellFormedExactly(ms.value);
      MembersWellFormedExactly(ms.rest);
    }
  }

  // ----- reading one token

  lemma {:induction false} ItemsBack(its: seq<Item>, t: string)
    requires ItemsOk(its)
    ensures ParseItems(ItemsText(its) + ['"'] + t) == Some((its, t))
  {
    var s := ItemsText(its) + ['"'] + t;
    if its == [] {
      assert s[1..] == t;
    } else {
      var s1 := ItemsText(its[1..]) + ['"'] + t;
      assert s == ItemText(its[0]) + s1;
      ItemBack(its[0], s1);
      ItemsBack(its[1..], t);
      ItemsBackStep(s, its[0], s1, its[1..], t);
      assert its == [its[0]] + its[1..];
    }
  }

  lemma ItemsBackStep(s: string, it: Item, s1: string, its: seq<Item>, t: string)
    requires !StartsWith(s, '"') && ParseItem(s) == Some((it, s1))
    requires ParseItems(s1) == Some((its, t))
    ensures ParseItems(s) == Some(([it] + its, t))
  {
  }

  lemma ItemBack(it: Item, t: string)
    requires ItemOk(it)
    ensures ParseItem(ItemText(it) + t) == Some((it, t))
    ensures !StartsWith(ItemText(it) + t, '"')
  {
    var s := ItemText(it) + t;
    match it
    case Plain(c) => assert s[1..] == t;
    case Short(c) => assert s[2..] == t;
    case Unicode(h) => assert s[2..6] == h && s[6..] == t;
  }

  lemma FirstByte(v: Value)
    requires WellFormed(v)
    ensures Text(v) != "" && !IsSpace(Text(v)[0]) && Text(v)[0] != ']'
  {
    if v.Number? {
      NumberFirst(v.lit);
    }
  }

  lemma NumberFirst(lit: string)
    requires NumberLength(lit).Some?
    ensures lit != "" && (lit[0] == '-' || IsDigit(lit[0]))
  {
  }

  lemma LiteralBack(v: Value, t: string)
    requires v.Null? || v.Bool?
    ensures ParseLiteral(Text(v) + t) == Some((v, t))
  {
    var s, w := Text(v) + t, Text(v);
    assert s[|w|..] == t && s[..|w|] == w && w <= s;
    assert s[0] == w[0];
  }

  lemma NumberBack(lit: string, t: string)
    requires NumberLength(lit) == Some(|lit|) && !RunsOn(t)
    ensures ParseValue(lit + t) == Some((Number(lit), t))
  {
    NumberFirst(lit);
    NumberExtend(lit, t);
    NumberStep(lit + t, lit, t);
  }

  lemma NumberStep(s: string, lit: string, t: string)
    requires s == lit + t && lit != "" && (lit[0] == '-' || IsDigit(lit[0]))
    requires NumberLength(s) == Some(|lit|)
    ensures ParseValue(s) == Some((Number(lit), t))
  {
    NumberTaken(s, |lit|);
    assert s[..|lit|] == lit && s[|lit|..] == t;
    assert s[0] == lit[0];
    FirstIsNumber(s);
  }

  lemma FirstIsNumber(s: string)
    requires s != "" && (s[0] == '-' || IsDigit(s[0]))
    ensures ParseValue(s) == ParseNumber(s)
  {
  }

  lemma StringBack(its: seq<Item>, t: string)
    requires ItemsOk(its)
    ensures ParseValue(StringText(its) + t) == Some((String(its), t))
  {
    assert (StringText(its) + t)[1..] == ItemsText(its) + ['"'] + t;
    ItemsBack(its, t);
  }

  lemma Opening(c: char, s: string)
    requires c == '[' || c == '{'
    ensures ParseValue([c] + s) == if c == '[' then ParseArray(s) else ParseObject(s)
  {
    assert ([c] + s)[1..] == s;
  }

  // ----- gaps

  lemma {:induction false} SkipGap(gap: string, s: string)
    requires Gap(gap) && (s != "" ==> !IsSpace(s[0]))
    ensures Skip(gap + s) == s
  {
    if gap == "" {
      assert gap + s == s;
    } else {
      WhiteIsSpace(gap[0]);
      assert gap[0] in gap && (gap + s)[1..] == gap[1..] + s;
      SkipGap(gap[1..], s);
    }
  }

  lemma {:induction false} SkippedGap(s: string) returns (gap: string)
    ensures Gap(gap) && s == gap + Skip(s)
  {
    if s != "" && IsSpace(s[0]) {
      WhiteIsSpace(s[0]);
      var rest := SkippedGap(s[1..]);
      gap := [s[0]] + rest;
    } else {
      gap := "";
    }
  }

  // What is left after the gap before the first token.
  lemma FirstToken(s: string, tokens: seq<string>, rest: string) returns (s': string)
    requires tokens != [] && Woven(s, tokens, rest)
    requires tokens[0] != "" && !IsSpace(tokens[0][0])
    ensures Skip(s) == tokens[0] + s' && Woven(s', tokens[1..], rest)
  {
    var gap;
    gap, s' := WovenFirst(s, tokens, rest);
    assert (tokens[0] + s')[0] == tokens[0][0];
    SkipGap(gap, tokens[0] + s');
    assert s == gap + (tokens[0] + s');
  }

  lemma OnlyToken(s: string, token: string, rest: string)
    requires Woven(s, [token], rest) && token != "" && !IsSpace(token[0])
    ensures Skip(s) == token + rest
  {
    var s' := FirstToken(s, [token], rest);
    assert [token][1..] == [];
  }

  lemma NotRunning(s: string, tokens: seq<string>, rest: string)
    requires tokens != [] && Woven(s, tokens, rest)
    requires tokens[0] != "" && !RunsOn(tokens[0])
    ensures !RunsOn(s)
  {
    var gap, s' := WovenFirst(s, tokens, rest);
    if gap != "" {
      assert gap[0] in gap && s[0] == gap[0];
    } else {
      assert s[0] == tokens[0][0];
    }
  }

  lemma EndNotRunning(end: string)
    requires Gap(end)
    ensures !RunsOn(end)
  {
    assert end != "" ==> end[0] in end;
  }

  // The first byte of a tree's first token.
  lemma FirstOfTree(v: Value)
    requires IsTree(v)
    ensures Tokens(v) != [] && Tokens(v)[0] != ""
    ensures var c := Tokens(v)[0][0]; !IsSpace(c) && c != ']'
  {
    if v.Number? {
      NumberExactly(v.lit);
      NumberFirst(v.lit);
    }
  }

  // ----- a text that spells a tree is read as that tree

  lemma AtomSpelled(s: string, v: Value, t: string)
    requires IsTree(v) && Woven(s, Tokens(v), t) && !v.Array? && !v.Object?
    requires v.Number? ==> !RunsOn(t)
    ensures ParseValue(Skip(s)) == Some((v, t))
  {
    FirstOfTree(v);
    OnlyToken(s, Tokens(v)[0], t);
    match v
    case Number(lit) =>
      NumberExactly(lit);
      NumberBack(lit, t);
    case String(its) =>
      ItemsAre(its);
      QuotedIs(its);
      StringBack(its, t);
    case Null => LiteralBack(v, t);
    case Bool(_) => LiteralBack(v, t);
    case _ =>
  }

  lemma {:induction false} ValueSpelled(s: string, v: Value, t: string)
    requires IsTree(v) && Woven(s, Tokens(v), t) && (v.Number? ==> !RunsOn(t))
    ensures ParseValue(Skip(s)) == Some((v, t))
    decreases v, 3
  {
    match v
    case Array(vs) =>
      var s' := FirstToken(s, Tokens(v), t);
      assert Tokens(v)[1..] == ArrayTokens(vs);
      ArraySpelled(s', vs, t);
      Opening('[', s');
    case Object(ms) =>
      var s' := FirstToken(s, Tokens(v), t);
      assert Tokens(v)[1..] == ObjectTokens(ms);
      ObjectSpelled(s', ms, t);
      Opening('{', s');
    case _ => AtomSpelled(s, v, t);
  }

  lemma {:induction false} ArraySpelled(s: string, vs: Values, t: string)
    requires AreTrees(vs) && Woven(s, ArrayTokens(vs), t)
    ensures ParseArray(s) == Some((Array(vs), t))
    decreases vs, 2
  {
    match vs
    case NoValues =>
      OnlyToken(s, "]", t);
      assert ("]" + t)[1..] == t;
    case Values(h, tail) =>
      var mid := WovenSplit(s, Tokens(h), TailTokens(tail), t);
      FirstOfTree(h);
      var _ := FirstToken(s, Tokens(h), mid);
      NotRunning(mid, TailTokens(tail), t);
      ValueSpelled(s, h, mid);
      TailSpelled(mid, tail, t);
      ArrayStep(s, h, mid, tail, t);
  }

  lemma {:induction false} TailSpelled(s: string, vs: Values, t: string)
    requires AreTrees(vs) && Woven(s, TailTokens(vs), t)
    ensures ParseTail(s) == Some((vs, t))
    decreases vs, 1
  {
    match vs
    case NoValues =>
      OnlyToken(s, "]", t);
      assert ("]" + t)[1..] == t;
    case Values(h, tail) =>
      var s' := FirstToken(s, TailTokens(vs), t);
      assert TailTokens(vs)[1..] == Tokens(h) + TailTokens(tail);
      var mid := WovenSplit(s', Tokens(h), TailTokens(tail), t);
      NotRunning(mid, TailTokens(tail), t);
      ValueSpelled(s', h, mid);
      TailSpelled(mid, tail, t);
      assert ("," + s')[1..] == s';
      TailStep(s, h, mid, tail, t);
  }

  lemma {:induction false} ObjectSpelled(s: string, ms: Members, t: string)
    requires AreMembers(ms) && Woven(s, ObjectTokens(ms), t)
    ensures ParseObject(s) == Some((Object(ms), t))
    decreases ms, 2
  {
    match ms
    case NoMembers =>
      OnlyToken(s, "}", t);
      assert ("}" + t)[1..] == t;
    case Members(k, x, rest) =>
      var mid := WovenSplit(s, MemberTokens(k, Tokens(x)), MoreTokens(rest), t);
      NotRunning(mid, MoreTokens(rest), t);
      var _ := FirstToken(s, MemberTokens(k, Tokens(x)), mid);
      MemberSpelled(s, k, x, mid);
      MoreSpelled(mid, rest, t);
      ObjectStep(s, k, x, mid, rest, t);
  }

  lemma {:induction false} MemberSpelled(s: string, k: seq<Item>, x: Value, t: string)
    requires (forall it | it in k :: IsItem(it)) && IsTree(x) && !RunsOn(t)
    requires Woven(s, MemberTokens(k, Tokens(x)), t)
    ensures ParseMember(Skip(s)) == Some((k, x, t))
    decreases x, 4
  {
    var s1 := FirstToken(s, MemberTokens(k, Tokens(x)), t);
    assert MemberTokens(k, Tokens(x))[1..] == [":"] + Tokens(x);
    ItemsAre(k);
    QuotedIs(k);
    assert Skip(s)[1..] == ItemsText(k) + ['"'] + s1;
    ItemsBack(k, s1);
    var s2 := FirstToken(s1, [":"] + Tokens(x), t);
    assert ([":"] + Tokens(x))[1..] == Tokens(x) && (":" + s2)[1..] == s2;
    ValueSpelled(s2, x, t);
    ColonStep(s1, x, t);
    MemberStep(Skip(s), k, s1, x, t);
  }

  lemma {:induction false} MoreSpelled(s: string, ms: Members, t: string)
    requires AreMembers(ms) && Woven(s, MoreTokens(ms), t)
    ensures ParseMore(s) == Some((ms, t))
    decreases ms, 1
  {
    match ms
    case NoMembers =>
      OnlyToken(s, "}", t);
      assert ("}" + t)[1..] == t;
    case Members(k, x, rest) =>
      var s' := FirstToken(s, MoreTokens(ms), t);
      assert MoreTokens(ms)[1..] == MemberTokens(k, Tokens(x)) + MoreTokens(rest);
      var mid := WovenSplit(s', MemberTokens(k, Tokens(x)), MoreTokens(rest), t);
      NotRunning(mid, MoreTokens(rest), t);
      MemberSpelled(s', k, x, mid);
      MoreSpelled(mid, rest, t);
      assert ("," + s')[1..] == s';
      MoreStep(s, k, x, mid, rest, t);
  }

  // ----- what is read is spelled by what was consumed

  lemma {:induction false} ItemsParsed(s: string, its: seq<Item>, r: string)
    requires ParseItems(s) == Some((its, r))
    ensures ItemsOk(its) && s == ItemsText(its) + ['"'] + r
    decreases |s|
  {
    if s[0] != '"' {
      var (it, s1) := ParseItem(s).value;
      ItemParsed(s, it, s1);
      ItemsParsed(s1, its[1..], r);
    }
  }

  lemma ItemParsed(s: string, it: Item, r: string)
    requires ParseItem(s) == Some((it, r))
    ensures ItemOk(it) && s == ItemText(it) + r
  {
  }

  lemma StringParsed(s: string, its: seq<Item>, r: string)
    requires StartsWith(s, '"') && ParseItems(s[1..]) == Some((its, r))
    ensures (forall it | it in its :: IsItem(it)) && s == Quoted(its) + r
  {
    ItemsParsed(s[1..], its, r);
    ItemsAre(its);
    QuotedIs(its);
    QuoteFirst(s, its, r);
  }

  lemma QuoteFirst(s: string, its: seq<Item>, r: string)
    requires StartsWith(s, '"') && s[1..] == ItemsText(its) + ['"'] + r
    ensures s == StringText(its) + r
  {
  }

  lemma NumberRead(s: string)
    requires NumberLength(s).Some?
    ensures var n := NumberLength(s).value; NumberLength(s[..n]) == Some(n)
  {
    var n := NumberLength(s).value;
    assert s == s[..n] + s[n..];
    NumberCut(s[..n], s[n..]);
  }

  lemma AtomParsed(s: string, v: Value, r: string)
    requires ParseValue(s) == Some((v, r)) && !v.Array? && !v.Object?
    ensures IsTree(v) && Tokens(v) != [] && s == Tokens(v)[0] + r
  {
    if s[0] == '"' {
      StringParsed(s, v.items, r);
    } else if s[0] == '-' || IsDigit(s[0]) {
      NumberRead(s);
      NumberExactly(v.lit);
    } else {
      LiteralParsed(s, v, r);
    }
  }

  lemma LiteralParsed(s: string, v: Value, r: string)
    requires ParseLiteral(s) == Some((v, r))
    ensures (v.Null? || v.Bool?) && s == Tokens(v)[0] + r
  {
  }

  lemma {:induction false} ValueParsed(s: string, v: Value, r: string)
    requires ParseValue(s) == Some((v, r))
    ensures IsTree(v) && Woven(s, Tokens(v), r)
    decreases |s|, 0
  {
    if s[0] == '[' {
      ArrayParsed(s[1..], v.values, r);
      assert s == "" + "[" + s[1..] && Tokens(v)[1..] == ArrayTokens(v.values);
      WovenThen(s, "", s[1..], Tokens(v), r);
    } else if s[0] == '{' {
      ObjectParsed(s[1..], v.members, r);
      assert s == "" + "{" + s[1..] && Tokens(v)[1..] == ObjectTokens(v.members);
      WovenThen(s, "", s[1..], Tokens(v), r);
    } else {
      AtomParsed(s, v, r);
      assert s == "" + Tokens(v)[0] + r;
      WovenOne(s, "", Tokens(v)[0], r);
    }
  }

  // A punctuation byte after a gap.
  lemma Punctuated(s: string, c: char) returns (gap: string)
    requires StartsWith(Skip(s), c)
    ensures Gap(gap) && s == gap + [c] + Skip(s)[1..]
  {
    gap := SkippedGap(s);
    assert Skip(s) == [c] + Skip(s)[1..];
  }

  lemma Closed(s: string, c: char)
    requires StartsWith(Skip(s), c)
    ensures Woven(s, [[c]], Skip(s)[1..])
  {
    var gap := Punctuated(s, c);
    WovenOne(s, gap, [c], Skip(s)[1..]);
  }

  // A tree read after a gap.
  lemma AfterSkip(s: string, tokens: seq<string>, r: string)
    requires tokens != [] && Woven(Skip(s), tokens, r)
    ensures Woven(s, tokens, r)
  {
    var gap := SkippedGap(s);
    WovenAfter(gap, Skip(s), tokens, r);
  }

  lemma {:induction false} ArrayParsed(s: string, vs: Values, r: string)
    requires ParseArray(s) == Some((Array(vs), r))
    ensures AreTrees(vs) && Woven(s, ArrayTokens(vs), r)
    decreases |s|, 1
  {
    if StartsWith(Skip(s), ']') {
      Closed(s, ']');
    } else {
      var (h, s2) := ParseValue(Skip(s)).value;
      ValueParsed(Skip(s), h, s2);
      FirstOfTree(h);
      AfterSkip(s, Tokens(h), s2);
      TailParsed(s2, vs.tail, r);
      WovenJoin(s, Tokens(h), s2, TailTokens(vs.tail), r);
    }
  }

  lemma {:induction false} TailParsed(s: string, vs: Values, r: string)
    requires ParseTail(s) == Some((vs, r))
    ensures AreTrees(vs) && Woven(s, TailTokens(vs), r)
    decreases |s|, 0
  {
    if StartsWith(Skip(s), ']') {
      Closed(s, ']');
    } else {
      var s1 := Skip(s)[1..];
      var (h, s2) := ParseValue(Skip(s1)).value;
      ValueParsed(Skip(s1), h, s2);
      FirstOfTree(h);
      AfterSkip(s1, Tokens(h), s2);
      TailParsed(s2, vs.tail, r);
      WovenJoin(s1, Tokens(h), s2, TailTokens(vs.tail), r);
      var gap := Punctuated(s, ',');
      assert TailTokens(vs)[1..] == Tokens(h) + TailTokens(vs.tail);
      WovenThen(s, gap, s1, TailTokens(vs), r);
    }
  }

  lemma {:induction false} ObjectParsed(s: string, ms: Members, r: string)
    requires ParseObject(s) == Some((Object(ms), r))
    ensures AreMembers(ms) && Woven(s, ObjectTokens(ms), r)
    decreases |s|, 2
  {
    if StartsWith(Skip(s), '}') {
      Closed(s, '}');
    } else {
      var (k, x, s2) := ParseMember(Skip(s)).value;
      MemberParsed(Skip(s), k, x, s2);
      AfterSkip(s, MemberTokens(k, Tokens(x)), s2);
      MoreParsed(s2, ms.rest, r);
      WovenJoin(s, MemberTokens(k, Tokens(x)), s2, MoreTokens(ms.rest), r);
    }
  }

  lemma {:induction false} MemberParsed(s: string, k: seq<Item>, x: Value, r: string)
    requires ParseMember(s) == Some((k, x, r))
    ensures (forall it | it in k :: IsItem(it)) && IsTree(x)
    ensures Woven(s, MemberTokens(k, Tokens(x)), r)
    decreases |s|, 1
  {
    var s1 := ParseItems(s[1..]).value.1;
    StringParsed(s, k, s1);
    var s2 := Skip(s1)[1..];
    ValueParsed(Skip(s2), x, r);
    FirstOfTree(x);
    AfterSkip(s2, Tokens(x), r);
    var gap := Punctuated(s1, ':');
    assert ([":"] + Tokens(x))[1..] == Tokens(x);
    WovenThen(s1, gap, s2, [":"] + Tokens(x), r);
    assert s == "" + Quoted(k) + s1;
    assert MemberTokens(k, Tokens(x))[1..] == [":"] + Tokens(x);
    WovenThen(s, "", s1, MemberTokens(k, Tokens(x)), r);
  }

  lemma {:induction false} MoreParsed(s: string, ms: Members, r: string)
    requires ParseMore(s) == Some((ms, r))
    ensures AreMembers(ms) && Woven(s, MoreTokens(ms), r)
    decreases |s|, 0
  {
    if StartsWith(Skip(s), '}') {
      Closed(s, '}');
    } else {
      var s1 := Skip(s)[1..];
      var (k, x, s2) := ParseMember(Skip(s1)).value;
      MemberParsed(Skip(s1), k, x, s2);
      AfterSkip(s1, MemberTokens(k, Tokens(x)), s2);
      MoreParsed(s2, ms.rest, r);
      WovenJoin(s1, MemberTokens(k, Tokens(x)), s2, MoreTokens(ms.rest), r);
      var gap := Punctuated(s, ',');
      assert MoreTokens(ms)[1..] == MemberTokens(k, Tokens(x)) + MoreTokens(ms.rest);
      WovenThen(s, gap, s1, MoreTokens(ms), r);
    }
  }

  /** A text parses to a tree if and only if it spells that tree. */
  lemma DocExactly(s: string, v: Value)
    ensures ParseDoc(s) == Some(v) <==> Spells(s, v)
  {
    if ParseDoc(s) == Some(v) {
      var r := ParseValue(Skip(s)).value.1;
      ValueParsed(Skip(s), v, r);
      FirstOfTree(v);
      AfterSkip(s, Tokens(v), r);
      var gap := SkippedGap(r);
      assert r == gap;
    }
    if Spells(s, v) {
      var end :| Gap(end) && Woven(s, Tokens(v), end);
      EndNotRunning(end);
      ValueSpelled(s, v, end);
      assert end + "" == end;
      SkipGap(end, "");
    }
  }

  // ----- texts without gaps

  lemma {:induction false} TextIs(v: Value)
    ensures Concat(Tokens(v)) == Text(v)
    decreases v, 2
  {
    match v
    case String(its) =>
      QuotedIs(its);
      ConcatOne(Quoted(its));
    case Array(vs) => ArrayTextIs(vs);
    case Object(ms) => ObjectTextIs(ms);
    case _ => ConcatOne(Tokens(v)[0]);
  }

  lemma ConcatOne(token: string)
    ensures Concat([token]) == token
  {
    assert [token][1..] == [] && token + "" == token;
  }

  lemma ConcatFirst(token: string, tokens: seq<string>)
    ensures Concat([token] + tokens) == token + Concat(tokens)
  {
    assert ([token] + tokens)[1..] == tokens;
  }

  lemma {:induction false} ArrayTextIs(vs: Values)
    ensures Concat(["["] + ArrayTokens(vs)) == ['['] + ArrayText(vs)
    decreases vs, 1
  {
    ConcatFirst("[", ArrayTokens(vs));
    if vs.NoValues? {
      ConcatOne("]");
    } else {
      TextIs(vs.head);
      TailTextIs(vs.tail);
      ConcatJoin(Tokens(vs.head), TailTokens(vs.tail));
    }
  }

  lemma {:induction false} TailTextIs(vs: Values)
    ensures Concat(TailTokens(vs)) == TailText(vs)
    decreases vs, 0
  {
    if vs.NoValues? {
      ConcatOne("]");
    } else {
      TextIs(vs.head);
      TailTextIs(vs.tail);
      ConcatJoin(Tokens(vs.head), TailTokens(vs.tail));
      ConcatFirst(",", Tokens(vs.head) + TailTokens(vs.tail));
    }
  }

  lemma MemberTextIs(k: seq<Item>, x: Value)
    requires Concat(Tokens(x)) == Text(x)
    ensures Concat(MemberTokens(k, Tokens(x))) == MemberText(k, Text(x))
  {
    QuotedIs(k);
    ConcatFirst(":", Tokens(x));
    ConcatFirst(Quoted(k), [":"] + Tokens(x));
  }

  lemma {:induction false} ObjectTextIs(ms: Members)
    ensures Concat(["{"] + ObjectTokens(ms)) == ['{'] + ObjectText(ms)
    decreases ms, 1
  {
    ConcatFirst("{", ObjectTokens(ms));
    if ms.NoMembers? {
      ConcatOne("}");
    } else {
      TextIs(ms.value);
      MemberTextIs(ms.name, ms.value);
      MoreTextIs(ms.rest);
      ConcatJoin(MemberTokens(ms.name, Tokens(ms.value)), MoreTokens(ms.rest));
    }
  }

  lemma {:induction false} MoreTextIs(ms: Members)
    ensures Concat(MoreTokens(ms)) == MoreText(ms)
    decreases ms, 0
  {
    if ms.NoMembers? {
      ConcatOne("}");
    } else {
      TextIs(ms.value);
      MemberTextIs(ms.name, ms.value);
      MoreTextIs(ms.rest);
      ConcatJoin(MemberTokens(ms.name, Tokens(ms.value)), MoreTokens(ms.rest));
      ConcatFirst(",", MemberTokens(ms.name, Tokens(ms.value)) + MoreTokens(ms.rest));
    }
  }

  /** Every tree that has a text is read back from it, whatever follows. */
  lemma ValueBack(v: Value, t: string)
    requires WellFormed(v)
    requires v.Number? ==> !RunsOn(t)
    ensures ParseValue(Text(v) + t) == Some((v, t))
  {
    WellFormedExactly(v);
    TextIs(v);
    WovenTight(Tokens(v), t);
    FirstByte(v);
    ValueSpelled(Text(v) + t, v, t);
    assert Skip(Text(v) + t) == Text(v) + t;
  }

  /** A whole text reads back as the tree it was written from. */
  lemma TextBack(v: Value)
    requires WellFormed(v)
    ensures ParseDoc(Text(v)) == Some(v)
  {
    FirstByte(v);
    ValueBack(v, "");
    assert Text(v) + "" == Text(v);
  }

  /** What is read can be written, and takes no more bytes written than it took read. */
  lemma ValueRead(s: string, v: Value, r: string)
    requires ParseValue(s) == Some((v, r))
    ensures WellFormed(v) && |Text(v)| + |r| <= |s|
  {
    ValueParsed(s, v, r);
    WellFormedExactly(v);
    TextIs(v);
    WovenLength(s, Tokens(v), r);
  }

  /** A JSON text is at least as long as the text of its tree. */
  lemma DocRead(s: string, v: Value)
    requires ParseDoc(s) == Some(v)
    ensures WellFormed(v) && |Text(v)| <= |s|
  {
    ValueRead(Skip(s), v, ParseValue(Skip(s)).value.1);
  }
}
