/**
  What encoding/json makes of a syntax tree: the bytes a string literal stands for,
  how a raw message is rewritten when it is sent, and which member of an object a
  struct field or a map key reads.
 */
module GoJson {
  import opened Wrappers
  import opened Json

  // ----- strings

  function HexDigit(c: char): (n: nat)
    ensures n < 16
  {
    if IsDigit(c) then (c - '0') as nat
    else if 'a' <= c <= 'f' then 10 + (c - 'a') as nat
    else if 'A' <= c <= 'F' then 10 + (c - 'A') as nat
    else 0
  }

  // The UTF-16 code unit a \u escape names.
  function CodeUnit(hex: string): (u: nat)
    ensures u < 0x10000
  {
    if |hex| != 4 then 0
    else 4096 * HexDigit(hex[0]) + 256 * HexDigit(hex[1]) + 16 * HexDigit(hex[2]) + HexDigit(hex[3])
  }

  predicate IsHigh(u: nat) { 0xD800 <= u < 0xDC00 }

  predicate IsLow(u: nat) { 0xDC00 <= u < 0xE000 }

  function Utf8(u: nat): string
    requires u < 0x110000
  {
    if u < 0x80 then [u as char]
    else if u < 0x800 then [(0xC0 + u / 64) as char, (0x80 + u % 64) as char]
    else if u < 0x10000 then
      [(0xE0 + u / 4096) as char, (0x80 + u / 64 % 64) as char, (0x80 + u % 64) as char]
    else
      [(0xF0 + u / 262144) as char, (0x80 + u / 4096 % 64) as char,
       (0x80 + u / 64 % 64) as char, (0x80 + u % 64) as char]
  }

  const REPLACEMENT := 0xFFFD

  predicate StartsLow(s: seq<Item>) { s != [] && s[0].Unicode? && IsLow(CodeUnit(s[0].hex)) }

  function ShortChar(c: char): char {
    match c
    case 'b' => '\U{08}'
    case 'f' => '\U{0C}'
    case 'n' => '\n'
    case 'r' => '\r'
    case 't' => '\t'
    case _ => c
  }

  // The bytes a string literal stands for. A surrogate without its partner becomes U+FFFD.
  function Unescape(s: seq<Item>): string {
    if s == [] then ""
    else
      match s[0]
      case Plain(c) => [c] + Unescape(s[1..])
      case Short(c) => [ShortChar(c)] + Unescape(s[1..])
      case Unicode(h) =>
        var u := CodeUnit(h);
        if IsHigh(u) && StartsLow(s[1..]) then
          var low := CodeUnit(s[1].hex);
          Utf8(0x10000 + 0x400 * (u - 0xD800) + (low - 0xDC00)) + Unescape(s[2..])
        else if IsHigh(u) || IsLow(u) then Utf8(REPLACEMENT) + Unescape(s[1..])
        else Utf8(u) + Unescape(s[1..])
  }

  // A literal that stands for t.
  function Spell(t: string): (s: seq<Item>)
    ensures |s| == |t|
  {
    seq(|t|, i requires 0 <= i < |t| => Plain(t[i]))
  }

  lemma {:induction false} SpellUnescape(t: string)
    ensures Unescape(Spell(t)) == t
  {
    if t != "" {
      assert Spell(t)[1..] == Spell(t[1..]);
      SpellUnescape(t[1..]);
    }
  }

  // ----- compaction: what json.Marshal does to a raw message besides dropping whitespace

  predicate IsLineSeparator(s: seq<Item>) {
    |s| >= 3 && s[0] == Plain('\U{E2}') && s[1] == Plain('\U{80}')
    && (s[2] == Plain('\U{A8}') || s[2] == Plain('\U{A9}'))
  }

  function HtmlEscape(it: Item): Item {
    if it == Plain('<') then Unicode("003c")
    else if it == Plain('>') then Unicode("003e")
    else if it == Plain('&') then Unicode("0026")
    else it
  }

  function CompactItems(s: seq<Item>): seq<Item> {
    if s == [] then []
    else if IsLineSeparator(s) then
      [Unicode(if s[2] == Plain('\U{A8}') then "2028" else "2029")] + CompactItems(s[3..])
    else [HtmlEscape(s[0])] + CompactItems(s[1..])
  }

  function Compact(v: Value): Value {
    match v
    case String(s) => String(CompactItems(s))
    case Array(vs) => Array(CompactAll(vs))
    case Object(ms) => Object(CompactMembers(ms))
    case _ => v
  }

  function CompactAll(vs: Values): Values {
    match vs
    case NoValues => NoValues
    case Values(h, t) => Values(Compact(h), CompactAll(t))
  }

  function CompactMembers(ms: Members): Members {
    match ms
    case NoMembers => NoMembers
    case Members(k, x, t) => Members(CompactItems(k), Compact(x), CompactMembers(t))
  }

  lemma StartsLowCompact(s: seq<Item>)
    ensures StartsLow(CompactItems(s)) <==> StartsLow(s)
  {
    if s != [] && s[0].Plain? {
      assert CodeUnit("2028") == 0x2028 && CodeUnit("2029") == 0x2029;
      assert CodeUnit("003c") == 0x3c && CodeUnit("003e") == 0x3e && CodeUnit("0026") == 0x26;
    }
  }

  /** Compaction never changes the bytes a string stands for. */
  lemma {:induction false} CompactUnescape(s: seq<Item>)
    ensures Unescape(CompactItems(s)) == Unescape(s)
    decreases |s|
  {
    if s == [] {
    } else if IsLineSeparator(s) {
      CompactUnescape(s[3..]);
      SeparatorStep(s);
    } else if s[0].Unicode? && IsHigh(CodeUnit(s[0].hex)) && StartsLow(s[1..]) {
      CompactUnescape(s[2..]);
      PairStep(s);
    } else if s[0].Unicode? {
      CompactUnescape(s[1..]);
      UnitStep(s);
    } else {
      CompactUnescape(s[1..]);
      assert s == [s[0]] + s[1..];
      UnescapePlain(s[0], s[1..]);
      HtmlUnescape(s[0], CompactItems(s[1..]));
    }
  }

  lemma SeparatorStep(s: seq<Item>)
    requires IsLineSeparator(s) && Unescape(CompactItems(s[3..])) == Unescape(s[3..])
    ensures Unescape(CompactItems(s)) == Unescape(s)
  {
    LineSeparatorUnescape(s);
    EscapeCodes();
    var h := if s[2] == Plain('\U{A8}') then "2028" else "2029";
    assert CodeUnit("2028") == 0x2028 && CodeUnit("2029") == 0x2029;
    UnescapeUnit(h, CompactItems(s[3..]));
  }

  lemma PairStep(s: seq<Item>)
    requires s != [] && s[0].Unicode? && IsHigh(CodeUnit(s[0].hex)) && StartsLow(s[1..])
    requires Unescape(CompactItems(s[2..])) == Unescape(s[2..])
    ensures Unescape(CompactItems(s)) == Unescape(s)
  {
    CompactPair(s);
    assert s == [s[0], s[1]] + s[2..];
    UnescapePair(s[0], s[1], CompactItems(s[2..]));
    UnescapePair(s[0], s[1], s[2..]);
  }

  lemma CompactPair(s: seq<Item>)
    requires |s| >= 2 && s[0].Unicode? && s[1].Unicode?
    ensures CompactItems(s) == [s[0], s[1]] + CompactItems(s[2..])
  {
    CompactUnicode(s[1..]);
    CompactUnicode(s);
    assert s[1..][1..] == s[2..];
    assert [s[0]] + ([s[1]] + CompactItems(s[2..])) == [s[0], s[1]] + CompactItems(s[2..]);
  }

  lemma CompactUnicode(s: seq<Item>)
    requires s != [] && s[0].Unicode?
    ensures CompactItems(s) == [s[0]] + CompactItems(s[1..])
  {
  }

  // A surrogate pair stands for the same bytes whatever follows.
  lemma UnescapePair(high: Item, low: Item, rest: seq<Item>)
    requires high.Unicode? && IsHigh(CodeUnit(high.hex)) && StartsLow([low])
    ensures Unescape([high, low] + rest) == Unescape([high, low]) + Unescape(rest)
  {
    PairFirst([high, low] + rest, high, low, rest);
    PairFirst([high, low], high, low, []);
  }

  function Pair(high: Item, low: Item): string
    requires high.Unicode? && IsHigh(CodeUnit(high.hex)) && low.Unicode? && IsLow(CodeUnit(low.hex))
  {
    Utf8(0x10000 + 0x400 * (CodeUnit(high.hex) - 0xD800) + (CodeUnit(low.hex) - 0xDC00))
  }

  lemma PairFirst(s: seq<Item>, high: Item, low: Item, rest: seq<Item>)
    requires high.Unicode? && IsHigh(CodeUnit(high.hex)) && low.Unicode? && IsLow(CodeUnit(low.hex))
    requires s == [high, low] + rest
    ensures Unescape(s) == Pair(high, low) + Unescape(rest)
  {
    assert s[0] == high && s[1] == low && s[1..][0] == low && s[2..] == rest;
  }

  lemma UnitStep(s: seq<Item>)
    requires s != [] && s[0].Unicode? && !(IsHigh(CodeUnit(s[0].hex)) && StartsLow(s[1..]))
    requires Unescape(CompactItems(s[1..])) == Unescape(s[1..])
    ensures Unescape(CompactItems(s)) == Unescape(s)
  {
    StartsLowCompact(s[1..]);
    assert CompactItems(s) == [s[0]] + CompactItems(s[1..]);
    assert CompactItems(s)[1..] == CompactItems(s[1..]);
  }

  lemma UnescapeUnit(h: string, rest: seq<Item>)
    requires !IsHigh(CodeUnit(h)) && !IsLow(CodeUnit(h))
    ensures Unescape([Unicode(h)] + rest) == Utf8(CodeUnit(h)) + Unescape(rest)
  {
    assert ([Unicode(h)] + rest)[1..] == rest;
  }

  lemma UnescapePlain(it: Item, rest: seq<Item>)
    requires !it.Unicode?
    ensures Unescape([it] + rest) == [if it.Plain? then it.c else ShortChar(it.c)] + Unescape(rest)
  {
    assert ([it] + rest)[1..] == rest;
  }

  lemma EscapeCodes()
    ensures Utf8(CodeUnit("003c")) == "<"
    ensures Utf8(CodeUnit("003e")) == ">"
    ensures Utf8(CodeUnit("0026")) == "&"
    ensures Utf8(CodeUnit("2028")) == ['\U{E2}', '\U{80}', '\U{A8}']
    ensures Utf8(CodeUnit("2029")) == ['\U{E2}', '\U{80}', '\U{A9}']
  {
    assert CodeUnit("003c") == 0x3c && CodeUnit("003e") == 0x3e && CodeUnit("0026") == 0x26;
    assert CodeUnit("2028") == 0x2028 && CodeUnit("2029") == 0x2029;
  }

  lemma HtmlUnescape(it: Item, rest: seq<Item>)
    requires !it.Unicode?
    ensures Unescape([HtmlEscape(it)] + rest) == [if it.Plain? then it.c else ShortChar(it.c)] + Unescape(rest)
  {
    EscapeCodes();
    if HtmlEscape(it).Unicode? {
      UnescapeUnit(HtmlEscape(it).hex, rest);
    } else {
      UnescapePlain(it, rest);
    }
  }

  lemma LineSeparatorUnescape(s: seq<Item>)
    requires IsLineSeparator(s)
    ensures Unescape(s) == ['\U{E2}', '\U{80}', s[2].c] + Unescape(s[3..])
  {
    assert s == [s[0]] + ([s[1]] + ([s[2]] + s[3..]));
    UnescapePlain(s[0], [s[1]] + ([s[2]] + s[3..]));
    UnescapePlain(s[1], [s[2]] + s[3..]);
    UnescapePlain(s[2], s[3..]);
  }

  lemma {:induction false} CompactItemsOk(s: seq<Item>)
    requires ItemsOk(s)
    ensures ItemsOk(CompactItems(s))
    decreases |s|
  {
    if s != [] {
      CompactItemsOk(if IsLineSeparator(s) then s[3..] else s[1..]);
    }
  }

  lemma {:induction false} CompactWellFormed(v: Value)
    requires WellFormed(v)
    ensures WellFormed(Compact(v))
    decreases v, 1
  {
    match v
    case String(s) => CompactItemsOk(s);
    case Array(vs) => CompactAllWellFormed(vs);
    case Object(ms) => CompactMembersWellFormed(ms);
    case _ =>
  }

  lemma {:induction false} CompactAllWellFormed(vs: Values)
    requires AllWellFormed(vs)
    ensures AllWellFormed(CompactAll(vs))
    decreases vs, 0
  {
    if vs.Values? {
      CompactWellFormed(vs.head);
      CompactAllWellFormed(vs.tail);
    }
  }

  lemma {:induction false} CompactMembersWellFormed(ms: Members)
    requires MembersWellFormed(ms)
    ensures MembersWellFormed(CompactMembers(ms))
    decreases ms, 0
  {
    if ms.Members? {
      CompactItemsOk(ms.name);
      CompactWellFormed(ms.value);
      CompactMembersWellFormed(ms.rest);
    }
  }

  // ----- meaning: a tree whose strings and names are spelled in one way only

  function Meaning(v: Value): Value {
    match v
    case String(s) => String(Spell(Unescape(s)))
    case Array(vs) => Array(AllMeaning(vs))
    case Object(ms) => Object(MembersMeaning(ms))
    case _ => v
  }

  function AllMeaning(vs: Values): Values {
    match vs
    case NoValues => NoValues
    case Values(h, t) => Values(Meaning(h), AllMeaning(t))
  }

  function MembersMeaning(ms: Members): Members {
    match ms
    case NoMembers => NoMembers
    case Members(k, x, t) => Members(Spell(Unescape(k)), Meaning(x), MembersMeaning(t))
  }

  /** Member order, number literals and string values all survive compaction. */
  lemma {:induction false} CompactMeaning(v: Value)
    ensures Meaning(Compact(v)) == Meaning(v)
    decreases v, 1
  {
    match v
    case String(s) => CompactUnescape(s);
    case Array(vs) => CompactAllMeaning(vs);
    case Object(ms) => CompactMembersMeaning(ms);
    case _ =>
  }

  lemma {:induction false} CompactAllMeaning(vs: Values)
    ensures AllMeaning(CompactAll(vs)) == AllMeaning(vs)
    decreases vs, 0
  {
    if vs.Values? {
      CompactMeaning(vs.head);
      CompactAllMeaning(vs.tail);
    }
  }

  lemma {:induction false} CompactMembersMeaning(ms: Members)
    ensures MembersMeaning(CompactMembers(ms)) == MembersMeaning(ms)
    decreases ms, 0
  {
    if ms.Members? {
      CompactUnescape(ms.name);
      CompactMeaning(ms.value);
      CompactMembersMeaning(ms.rest);
    }
  }

  // ----- which member is read

  // A map key is matched exactly; a struct field is matched up to case.
  datatype Matching = Exact | Folded

  // Upper case, with the two non-ASCII code points that fold to an ASCII letter:
  // U+017F (long s) and U+212A (Kelvin sign).
  function Fold(s: string): string {
    if s == "" then ""
    else if 'a' <= s[0] <= 'z' then [s[0] - 'a' + 'A'] + Fold(s[1..])
    else if ['\U{C5}', '\U{BF}'] <= s then ['S'] + Fold(s[2..])
    else if ['\U{E2}', '\U{84}', '\U{AA}'] <= s then ['K'] + Fold(s[3..])
    else [s[0]] + Fold(s[1..])
  }

  predicate Reads(k: seq<Item>, name: string, how: Matching) {
    match how
    case Exact => Unescape(k) == name
    case Folded => Fold(Unescape(k)) == Fold(name)
  }

  // The value read for name: the last matching member wins.
  function Field(ms: Members, name: string, how: Matching): Option<Value> {
    match ms
    case NoMembers => None
    case Members(k, x, rest) =>
      var later := Field(rest, name, how);
      if later.Some? then later
      else if Reads(k, name, how) then Some(x)
      else None
  }

  // Every value read for name, in order.
  function ReadAll(ms: Members, name: string): seq<Value> {
    match ms
    case NoMembers => []
    case Members(k, x, rest) => (if Reads(k, name, Folded) then [x] else []) + ReadAll(rest, name)
  }

  lemma {:induction false} LastRead(ms: Members, name: string)
    ensures var xs := ReadAll(ms, name);
      Field(ms, name, Folded) == if xs == [] then None else Some(xs[|xs| - 1])
  {
    if ms.Members? {
      LastRead(ms.rest, name);
    }
  }

  // The position of the member that is read.
  function Position(ms: Members, name: string, how: Matching): Option<nat> {
    match ms
    case NoMembers => None
    case Members(k, _, rest) =>
      var later := Position(rest, name, how);
      if later.Some? then Some(later.value + 1)
      else if Reads(k, name, how) then Some(0)
      else None
  }

  // No member named like `name` but for case comes after the last one named exactly so.
  predicate Unshadowed(ms: Members, name: string) {
    ms.Members? ==>
      && (Reads(ms.name, name, Folded) && !Reads(ms.name, name, Exact)
          ==> Position(ms.rest, name, Exact).Some?)
      && Unshadowed(ms.rest, name)
  }

  /** Exact and case-blind readers pick the same member just when none is shadowed. */
  lemma {:induction false} SamePosition(ms: Members, name: string)
    ensures Position(ms, name, Folded) == Position(ms, name, Exact) <==> Unshadowed(ms, name)
    ensures Position(ms, name, Exact).Some? ==> Position(ms, name, Folded).Some?
  {
    if ms.Members? {
      SamePosition(ms.rest, name);
    }
  }

  function ValueAt(ms: Members, i: nat): Option<Value> {
    match ms
    case NoMembers => None
    case Members(_, x, rest) => if i == 0 then Some(x) else ValueAt(rest, i - 1)
  }

  lemma {:induction false} FieldAtPosition(ms: Members, name: string, how: Matching)
    ensures Field(ms, name, how).Some? <==> Position(ms, name, how).Some?
    ensures Position(ms, name, how).Some?
        ==> Field(ms, name, how) == ValueAt(ms, Position(ms, name, how).value)
  {
    if ms.Members? {
      FieldAtPosition(ms.rest, name, how);
    }
  }

  lemma SameField(ms: Members, name: string)
    requires Unshadowed(ms, name)
    ensures Field(ms, name, Folded) == Field(ms, name, Exact)
  {
    SamePosition(ms, name);
    FieldAtPosition(ms, name, Folded);
    FieldAtPosition(ms, name, Exact);
  }

  function CompactOption(v: Option<Value>): Option<Value> {
    if v.Some? then Some(Compact(v.value)) else None
  }

  function OptionMeaning(v: Option<Value>): Option<Value> {
    if v.Some? then Some(Meaning(v.value)) else None
  }

  /** The same member is read before and after compaction. */
  lemma {:induction false} CompactField(ms: Members, name: string, how: Matching)
    ensures Field(CompactMembers(ms), name, how) == CompactOption(Field(ms, name, how))
  {
    if ms.Members? {
      CompactUnescape(ms.name);
      CompactField(ms.rest, name, how);
    }
  }

  /** The same member is read from the meaning of an object. */
  lemma {:induction false} MeaningField(ms: Members, name: string, how: Matching)
    ensures Field(MembersMeaning(ms), name, how) == OptionMeaning(Field(ms, name, how))
  {
    if ms.Members? {
      SpellUnescape(Unescape(ms.name));
      MeaningField(ms.rest, name, how);
    }
  }

  // ----- arrays as sequences

  function Elements(vs: Values): seq<Value> {
    match vs
    case NoValues => []
    case Values(h, t) => [h] + Elements(t)
  }

  function FromSeq(s: seq<Value>): Values {
    if s == [] then NoValues else Values(s[0], FromSeq(s[1..]))
  }

  lemma {:induction false} ElementsFromSeq(s: seq<Value>)
    ensures Elements(FromSeq(s)) == s
  {
    if s != [] {
      ElementsFromSeq(s[1..]);
    }
  }

  lemma {:induction false} CompactElements(vs: Values)
    ensures |Elements(CompactAll(vs))| == |Elements(vs)|
    ensures forall i | 0 <= i < |Elements(vs)| ::
              Elements(CompactAll(vs))[i] == Compact(Elements(vs)[i])
  {
    if vs.Values? {
      CompactElements(vs.tail);
    }
  }

  lemma {:induction false} ElementsWellFormed(vs: Values)
    requires AllWellFormed(vs)
    ensures forall v | v in Elements(vs) :: WellFormed(v) && |Text(v)| <= |TailText(vs)|
  {
    if vs.Values? {
      ElementsWellFormed(vs.tail);
    }
  }

  lemma {:induction false} FromSeqWellFormed(s: seq<Value>)
    requires forall v | v in s :: WellFormed(v)
    ensures AllWellFormed(FromSeq(s))
  {
    if s != [] {
      FromSeqWellFormed(s[1..]);
    }
  }

  lemma {:induction false} FieldWellFormed(ms: Members, name: string, how: Matching)
    requires MembersWellFormed(ms) && Field(ms, name, how).Some?
    ensures WellFormed(Field(ms, name, how).value)
    ensures |Text(Field(ms, name, how).value)| <= |MoreText(ms)|
  {
    if Field(ms.rest, name, how).Some? {
      FieldWellFormed(ms.rest, name, how);
    }
  }
}
