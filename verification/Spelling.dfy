/**
  What escapes, names and compacted text come to, byte by byte: the facts about
  encoding/json that the rest of the model is read against.
 */
module Spelling {
  import opened Wrappers
  import opened Json
  import opened GoJson
  import opened Strings

  // ----- escapes

  /** The byte of each of the eight short escapes. */
  lemma ShortEscapes(c: char, code: int, rest: seq<Item>)
    requires (c, code) in {('"', 0x22), ('\\', 0x5C), ('/', 0x2F), ('b', 0x08), ('f', 0x0C), ('n', 0x0A), ('r', 0x0D), ('t', 0x09)}
    ensures Unescape([Short(c)] + rest) == [code as char] + Unescape(rest)
  {
    UnescapePlain(Short(c), rest);
  }

  /** A hex digit, of either case, is worth its position among the sixteen. */
  lemma HexDigits(i: nat)
    requires i < 16
    ensures HexDigit("0123456789abcdef"[i]) == i && HexDigit("0123456789ABCDEF"[i]) == i
  {
  }

  lemma CodeUnitExactly(a: char, b: char, c: char, d: char)
    ensures CodeUnit([a, b, c, d]) == ((HexDigit(a) * 16 + HexDigit(b)) * 16 + HexDigit(c)) * 16 + HexDigit(d)
  {
  }

  predicate Continuation(c: char) { 0x80 <= c as int <= 0xBF }

  // The code point that a UTF-8 sequence encodes (section 3 of RFC 3629).
  function FromUtf8(s: string): int {
    if |s| == 1 then s[0] as int
    else if |s| == 2 then (s[0] as int - 0xC0) * 64 + (s[1] as int - 0x80)
    else if |s| == 3 then
      (s[0] as int - 0xE0) * 4096 + (s[1] as int - 0x80) * 64 + (s[2] as int - 0x80)
    else if |s| == 4 then
      (s[0] as int - 0xF0) * 262144 + (s[1] as int - 0x80) * 4096 + (s[2] as int - 0x80) * 64 + (s[3] as int - 0x80)
    else -1
  }

  /** The bytes of a code point: the shortest sequence that decodes to it. */
  lemma Utf8Exactly(u: nat)
    requires u < 0x110000
    ensures FromUtf8(Utf8(u)) == u
    ensures |Utf8(u)| == if u < 0x80 then 1 else if u < 0x800 then 2 else if u < 0x10000 then 3 else 4
    ensures forall i | 1 <= i < |Utf8(u)| :: Continuation(Utf8(u)[i])
  {
    if 0x800 <= u < 0x10000 {
      ThreeBytes(u);
    } else if 0x10000 <= u {
      FourBytes(u);
    }
  }

  lemma ThreeBytes(u: nat)
    requires 0x800 <= u < 0x10000
    ensures FromUtf8(Utf8(u)) == u
  {
    assert u / 4096 == u / 64 / 64;
    assert u / 64 == 64 * (u / 4096) + u / 64 % 64;
  }

  lemma FourBytes(u: nat)
    requires 0x10000 <= u < 0x110000
    ensures FromUtf8(Utf8(u)) == u
  {
    assert u / 4096 == u / 64 / 64 && u / 262144 == u / 4096 / 64;
    assert u / 64 == 64 * (u / 4096) + u / 64 % 64;
    assert u / 4096 == 64 * (u / 262144) + u / 4096 % 64;
  }

  /** A unicode escape: its code point, a pair's code point, or U+FFFD for half a pair. */
  lemma UnicodeEscapes(h: string, rest: seq<Item>)
    ensures var u := CodeUnit(h);
      && (u < 0xD800 || 0xE000 <= u ==> Unescape([Unicode(h)] + rest) == Utf8(u) + Unescape(rest))
      && (0xDC00 <= u < 0xE000 ==> Unescape([Unicode(h)] + rest) == Utf8(0xFFFD) + Unescape(rest))
      && (0xD800 <= u < 0xDC00 && !StartsLow(rest) ==>
            Unescape([Unicode(h)] + rest) == Utf8(0xFFFD) + Unescape(rest))
  {
    assert ([Unicode(h)] + rest)[1..] == rest;
  }

  lemma PairEscape(h: string, l: string, rest: seq<Item>)
    requires 0xD800 <= CodeUnit(h) < 0xDC00 && 0xDC00 <= CodeUnit(l) < 0xE000
    ensures var u := 0x10000 + (CodeUnit(h) - 0xD800) * 0x400 + (CodeUnit(l) - 0xDC00);
      u < 0x110000 && Unescape([Unicode(h), Unicode(l)] + rest) == Utf8(u) + Unescape(rest)
  {
    PairFirst([Unicode(h), Unicode(l)] + rest, Unicode(h), Unicode(l), rest);
  }

  // ----- names that are matched in any case

  predicate LowerName(s: string) { forall i | 0 <= i < |s| :: 'a' <= s[i] <= 'z' || s[i] == '_' }

  lemma FoldTail(s: string)
    requires s != "" && LowerName(s)
    ensures LowerName(s[1..])
    ensures Fold(s) == [if s[0] == '_' then '_' else s[0] - 'a' + 'A'] + Fold(s[1..])
  {
  }

  lemma FoldEmpty(s: string)
    ensures Fold(s) == "" <==> s == ""
  {
  }

  lemma {:induction false} LowerFold(a: string, b: string)
    requires LowerName(a) && LowerName(b) && Fold(a) == Fold(b)
    ensures a == b
  {
    FoldEmpty(a);
    FoldEmpty(b);
    if a != "" {
      FoldTail(a);
      FoldTail(b);
      assert Fold(a)[0] == Fold(b)[0] && Fold(a)[1..] == Fold(a[1..]) && Fold(b)[1..] == Fold(b[1..]);
      LowerFold(a[1..], b[1..]);
      assert a == [a[0]] + a[1..] && b == [b[0]] + b[1..];
    }
  }

  // k is name, but for upper case letters and the two code points that fold to a letter.
  predicate CaseBlind(k: string, name: string) {
    if name == "" then k == ""
    else
      || (k != "" && (k[0] == name[0] || ('a' <= name[0] <= 'z' && k[0] == name[0] - 'a' + 'A'))
          && CaseBlind(k[1..], name[1..]))
      || (name[0] == 's' && [0xC5 as char, 0xBF as char] <= k && CaseBlind(k[2..], name[1..]))
      || (name[0] == 'k' && [0xE2 as char, 0x84 as char, 0xAA as char] <= k && CaseBlind(k[3..], name[1..]))
  }

  /** A field's name is read in exactly these spellings. */
  lemma {:induction false} FoldExactly(k: string, name: string)
    requires LowerName(name)
    ensures Fold(k) == Fold(name) <==> CaseBlind(k, name)
    decreases |name|
  {
    FoldEmpty(k);
    FoldEmpty(name);
    if name != "" && k != "" {
      FoldTail(name);
      var n := FoldedBytes(k);
      FoldStep(k, n);
      FoldExactly(k[n..], name[1..]);
      FoldExactly(k[1..], name[1..]);
      HeadsFold(k, n, name);
    }
  }

  // How many bytes of k fold to the first byte of its folding.
  function FoldedBytes(k: string): (n: nat)
    requires k != ""
    ensures 1 <= n <= |k|
  {
    if [0xC5 as char, 0xBF as char] <= k then 2
    else if [0xE2 as char, 0x84 as char, 0xAA as char] <= k then 3
    else 1
  }

  function FoldedHead(k: string): char
    requires k != ""
  {
    if [0xC5 as char, 0xBF as char] <= k then 'S'
    else if [0xE2 as char, 0x84 as char, 0xAA as char] <= k then 'K'
    else if 'a' <= k[0] <= 'z' then k[0] - 'a' + 'A'
    else k[0]
  }

  lemma FoldStep(k: string, n: nat)
    requires k != "" && n == FoldedBytes(k)
    ensures Fold(k) == [FoldedHead(k)] + Fold(k[n..])
  {
  }

  lemma HeadsFold(k: string, n: nat, name: string)
    requires k != "" && n == FoldedBytes(k) && name != "" && LowerName(name)
    requires Fold(k) == [FoldedHead(k)] + Fold(k[n..])
    requires Fold(name) == [if name[0] == '_' then '_' else name[0] - 'a' + 'A'] + Fold(name[1..])
    requires Fold(k[n..]) == Fold(name[1..]) <==> CaseBlind(k[n..], name[1..])
    ensures Fold(k) == Fold(name) <==> CaseBlind(k, name)
  {
    assert Fold(k)[0] == FoldedHead(k) && Fold(k)[1..] == Fold(k[n..]);
    assert Fold(name)[1..] == Fold(name[1..]);
    HeadsMatch(k, name);
  }

  // Which heads fold alike.
  lemma HeadsMatch(k: string, name: string)
    requires k != "" && name != "" && LowerName(name)
    ensures FoldedHead(k) == (if name[0] == '_' then '_' else name[0] - 'a' + 'A') <==>
      if [0xC5 as char, 0xBF as char] <= k then name[0] == 's'
      else if [0xE2 as char, 0x84 as char, 0xAA as char] <= k then name[0] == 'k'
      else k[0] == name[0] || ('a' <= name[0] <= 'z' && k[0] == name[0] - 'a' + 'A')
  {
  }

  // ----- what is sent

  /**
    What is sent has none of the three characters that HTML is sensitive to, and neither
    of the two line separators, in any string.
   */
  lemma {:induction false} CompactEscapes(s: seq<Item>)
    ensures forall it | it in CompactItems(s) :: it != Plain('<') && it != Plain('>') && it != Plain('&')
    ensures forall i | 0 <= i <= |CompactItems(s)| :: !IsLineSeparator(CompactItems(s)[i..])
    decreases |s|
  {
    if s != [] {
      var rest := if IsLineSeparator(s) then s[3..] else s[1..];
      CompactEscapes(rest);
      var c := CompactItems(s);
      assert c[1..] == CompactItems(rest);
      NoSeparator(s);
      forall i | 0 <= i <= |c| ensures !IsLineSeparator(c[i..]) {
        if i > 0 {
          assert c[i..] == CompactItems(rest)[i - 1..];
        } else {
          assert c[0..] == c;
        }
      }
    }
  }

  lemma NoSeparator(s: seq<Item>)
    ensures !IsLineSeparator(CompactItems(s))
  {
    var c := CompactItems(s);
    if |c| >= 3 && c[0].Plain? && c[1].Plain? && c[2].Plain? {
      PlainKept(s);
      PlainKept(s[1..]);
      PlainKept(s[1..][1..]);
    }
  }

  // A plain byte at the front was there before.
  lemma PlainKept(s: seq<Item>)
    ensures CompactItems(s) != [] && CompactItems(s)[0].Plain? ==>
      s != [] && s[0] == CompactItems(s)[0] && CompactItems(s)[1..] == CompactItems(s[1..]) && !IsLineSeparator(s)
  {
  }

  // ----- texts of arrays and objects

  lemma {:induction false} SpellText(t: string)
    ensures ItemsText(Spell(t)) == t
  {
    if t != "" {
      assert Spell(t)[1..] == Spell(t[1..]);
      SpellText(t[1..]);
    }
  }

  lemma {:induction false} ArrayJoin(vs: seq<Value>, texts: seq<string>)
    requires |texts| == |vs| > 0 && forall i | 0 <= i < |vs| :: texts[i] == Text(vs[i])
    ensures ArrayText(FromSeq(vs)) == Join(texts, ',') + "]"
  {
    TailJoin(vs[1..], texts[1..]);
    if |vs| > 1 {
      assert Join(texts, ',') == texts[0] + "," + Join(texts[1..], ',');
    }
  }

  lemma {:induction false} TailJoin(vs: seq<Value>, texts: seq<string>)
    requires |texts| == |vs| && forall i | 0 <= i < |vs| :: texts[i] == Text(vs[i])
    ensures TailText(FromSeq(vs)) == if vs == [] then "]" else "," + Join(texts, ',') + "]"
  {
    if vs != [] {
      TailJoin(vs[1..], texts[1..]);
      if |vs| == 1 {
        assert texts == [texts[0]];
      }
    }
  }

  // A JSON array of these texts.
  function Bracketed(texts: seq<string>): string { "[" + Join(texts, ',') + "]" }

  lemma ArrayBracketed(vs: seq<Value>, texts: seq<string>)
    requires |texts| == |vs| && forall i | 0 <= i < |vs| :: texts[i] == Text(vs[i])
    ensures Text(Array(FromSeq(vs))) == Bracketed(texts)
  {
    if vs != [] {
      ArrayJoin(vs, texts);
    }
  }

  // A member, as text.
  function Named(name: string, value: string): string { "\"" + name + "\":" + value }

  lemma FirstNamed(name: string, x: Value, rest: Members)
    ensures Text(Object(Members(Spell(name), x, rest))) == "{" + (Named(name, Text(x)) + MoreText(rest))
  {
    SpellText(name);
    MemberNamed(name, Text(x));
  }

  lemma NextNamed(name: string, x: Value, rest: Members)
    ensures MoreText(Members(Spell(name), x, rest)) == "," + (Named(name, Text(x)) + MoreText(rest))
  {
    MemberNamed(name, Text(x));
  }

  lemma MemberNamed(name: string, value: string)
    ensures MemberText(Spell(name), value) == Named(name, value)
  {
    SpellText(name);
  }

  // The members of an object, as text.
  function FieldTexts(ms: Members): seq<string> {
    match ms
    case NoMembers => []
    case Members(k, x, rest) => [StringText(k) + ":" + Text(x)] + FieldTexts(rest)
  }

  // A JSON object of these members.
  function Braced(fields: seq<string>): string { "{" + Join(fields, ',') + "}" }

  lemma {:induction false} MoreJoined(ms: Members)
    ensures MoreText(ms) == if ms.NoMembers? then "}" else "," + Join(FieldTexts(ms), ',') + "}"
  {
    if ms.Members? {
      MoreJoined(ms.rest);
      FieldTextsEmpty(ms.rest);
      NextField(ms.name, Text(ms.value), MoreText(ms.rest), FieldTexts(ms.rest));
    }
  }

  lemma NextField(k: seq<Item>, value: string, more: string, fields: seq<string>)
    requires more == if fields == [] then "}" else "," + Join(fields, ',') + "}"
    ensures MemberText(k, value) + more == Join([StringText(k) + ":" + value] + fields, ',') + "}"
  {
    JoinNext(StringText(k) + ":" + value, fields);
  }

  lemma FieldTextsEmpty(ms: Members)
    ensures FieldTexts(ms) == [] <==> ms.NoMembers?
  {
  }

  lemma JoinNext(p: string, ps: seq<string>)
    ensures Join([p] + ps, ',') == if ps == [] then p else p + "," + Join(ps, ',')
  {
    assert ([p] + ps)[1..] == ps;
  }

  /** The text of an object, by its members. */
  lemma ObjectBraced(ms: Members)
    ensures Text(Object(ms)) == Braced(FieldTexts(ms))
  {
    if ms.Members? {
      MoreJoined(ms.rest);
      FieldTextsEmpty(ms.rest);
      NextField(ms.name, Text(ms.value), MoreText(ms.rest), FieldTexts(ms.rest));
    }
  }
}
