/** The Authorization header that goes with every PDP request. */
module Authorization {
  import opened Strings
  import opened Wrappers

  const SCHEMES := {"bearer", "basic", "dpop"}
  const BEARER := "Bearer "

  // unicode.IsSpace. A token is a sequence of code points here.
  predicate IsSpace(c: char) {
    || '\t' <= c <= '\r' || c == ' ' || c == '\U{85}' || c == '\U{A0}' || c == '\U{1680}'
    || '\U{2000}' <= c <= '\U{200A}' || c == '\U{2028}' || c == '\U{2029}'
    || c == '\U{202F}' || c == '\U{205F}' || c == '\U{3000}'
  }

  function TrimLeft(s: string): string {
    if s != "" && IsSpace(s[0]) then TrimLeft(s[1..]) else s
  }

  function TrimRightSpace(s: string): string {
    if s != "" && IsSpace(s[|s| - 1]) then TrimRightSpace(s[..|s| - 1]) else s
  }

  function TrimSpace(s: string): string { TrimRightSpace(TrimLeft(s)) }

  // unicode.ToLower, as far as it yields an ASCII letter.
  function LowerChar(c: char): char {
    if 'A' <= c <= 'Z' then c - 'A' + 'a'
    else if c == '\U{130}' then 'i'
    else if c == '\U{212A}' then 'k'
    else c
  }

  function Lower(s: string): string {
    seq(|s|, i requires 0 <= i < |s| => LowerChar(s[i]))
  }

  predicate HasAuthScheme(token: string) {
    ' ' in token && Lower(Head(token, ' ')) in SCHEMES
  }

  // The header value for a configured token; None when no header is sent.
  function Header(configured: string): Option<string> {
    var token := TrimSpace(configured);
    if token == "" then None
    else if HasAuthScheme(token) then Some(token)
    else Some(BEARER + token)
  }

  method SetAuth(headers: map<string, string>, configured: string) returns (out: map<string, string>)
    ensures Header(configured).None? ==> out == headers
    ensures Header(configured).Some? ==> out == headers["Authorization" := Header(configured).value]
  {
    out := headers;
    var token := TrimSpace(configured);
    if token == "" {
      return;
    }
    if !HasAuthScheme(token) {
      token := BEARER + token;
    }
    out := out["Authorization" := token];
  }

  predicate Trimmed(s: string) { s != "" ==> !IsSpace(s[0]) && !IsSpace(s[|s| - 1]) }

  lemma {:induction false} TrimLeftTrims(s: string)
    ensures TrimLeft(s) != "" ==> !IsSpace(TrimLeft(s)[0])
    ensures TrimLeft(s) == "" <==> forall i | 0 <= i < |s| :: IsSpace(s[i])
  {
    if s != "" && IsSpace(s[0]) {
      TrimLeftTrims(s[1..]);
      assert forall i | 1 <= i < |s| :: s[i] == s[1..][i - 1];
    }
  }

  lemma {:induction false} TrimRightTrims(s: string)
    ensures TrimRightSpace(s) <= s
    ensures TrimRightSpace(s) != "" ==> !IsSpace(TrimRightSpace(s)[|TrimRightSpace(s)| - 1])
    ensures s != "" && !IsSpace(s[0]) ==> TrimRightSpace(s) != ""
  {
    if s != "" && IsSpace(s[|s| - 1]) {
      TrimRightTrims(s[..|s| - 1]);
    }
  }

  lemma TrimSpaceTrims(s: string)
    ensures Trimmed(TrimSpace(s))
    ensures TrimSpace(s) == "" <==> forall i | 0 <= i < |s| :: IsSpace(s[i])
  {
    TrimLeftTrims(s);
    TrimRightTrims(TrimLeft(s));
  }

  lemma BearerIsScheme(token: string)
    ensures HasAuthScheme(BEARER + token)
  {
    var v := "Bearer" + [' '] + token;
    assert BEARER + token == v;
    FindIn("Bearer", ' ', token);
    assert v[6] == ' ';
    assert Lower("Bearer") == "bearer";
  }

  /**
    No header is sent exactly for a blank token. Otherwise the value names a recognised
    scheme in any case, ends in the trimmed token, and is its own normal form.
   */
  lemma Normalised(configured: string)
    ensures Header(configured).None? <==> forall i | 0 <= i < |configured| :: IsSpace(configured[i])
    ensures Header(configured).Some? ==>
      var v := Header(configured).value;
      && HasAuthScheme(v)
      && HasSuffix(v, TrimSpace(configured))
      && Header(v) == Some(v)
  {
    TrimSpaceTrims(configured);
    if Header(configured).Some? {
      var token := TrimSpace(configured);
      var v := Header(configured).value;
      BearerIsScheme(token);
      assert (BEARER + token)[|BEARER|..] == token;
      assert Trimmed(v);
      assert TrimSpace(v) == v;
    }
  }

  // ----- the header as text

  // The code points of unicode.IsSpace.
  const BLANKS := {
    0x09, 0x0A, 0x0B, 0x0C, 0x0D, 0x20, 0x85, 0xA0, 0x1680, 0x2000, 0x2001, 0x2002, 0x2003, 0x2004,
    0x2005, 0x2006, 0x2007, 0x2008, 0x2009, 0x200A, 0x2028, 0x2029, 0x202F, 0x205F, 0x3000}

  predicate Blank(s: string) { forall i | 0 <= i < |s| :: s[i] as int in BLANKS }

  // The token begins and ends with something else.
  predicate Solid(t: string) { t != "" && t[0] as int !in BLANKS && t[|t| - 1] as int !in BLANKS }

  lemma BlankIsSpace(c: char)
    ensures IsSpace(c) <==> c as int in BLANKS
  {
  }

  lemma {:induction false} TrimLeftBlank(l: string, t: string)
    requires Blank(l) && (t != "" ==> !IsSpace(t[0]))
    ensures TrimLeft(l + t) == t
  {
    if l == "" {
      assert l + t == t;
    } else {
      BlankIsSpace(l[0]);
      assert (l + t)[1..] == l[1..] + t;
      TrimLeftBlank(l[1..], t);
    }
  }

  lemma {:induction false} TrimRightBlank(t: string, r: string)
    requires Blank(r) && (t != "" ==> !IsSpace(t[|t| - 1]))
    ensures TrimRightSpace(t + r) == t
  {
    if r == "" {
      assert t + r == t;
    } else {
      BlankIsSpace(r[|r| - 1]);
      assert (t + r)[..|t + r| - 1] == t + r[..|r| - 1];
      TrimRightBlank(t, r[..|r| - 1]);
    }
  }

  lemma TrimExactly(l: string, t: string, r: string)
    requires Blank(l) && Solid(t) && Blank(r)
    ensures TrimSpace(l + t + r) == t
  {
    BlankIsSpace(t[0]);
    BlankIsSpace(t[|t| - 1]);
    assert l + t + r == l + (t + r);
    TrimLeftBlank(l, t + r);
    TrimRightBlank(t, r);
  }

  // c is the letter x in either case, or one of the two code points that fold to i and k.
  predicate CaseOf(c: char, x: char) {
    || c == x
    || ('a' <= x <= 'z' && c == x - 'a' + 'A')
    || (x == 'i' && c as int == 0x130)
    || (x == 'k' && c as int == 0x212A)
  }

  // The token starts with this word, in any case, and a space.
  predicate Names(t: string, word: string) {
    |word| < |t| && t[|word|] == ' ' && forall i | 0 <= i < |word| :: CaseOf(t[i], word[i])
  }

  predicate Letters(word: string) { forall i | 0 <= i < |word| :: 'a' <= word[i] <= 'z' }

  lemma LowerCase(c: char, x: char)
    requires 'a' <= x <= 'z'
    ensures CaseOf(c, x) <==> LowerChar(c) == x
  {
  }

  lemma NamesExactly(t: string, word: string)
    requires Letters(word)
    ensures Names(t, word) <==> ' ' in t && Lower(Head(t, ' ')) == word
  {
    if Names(t, word) {
      forall i | 0 <= i < |word| ensures t[i] != ' ' && Lower(t[..|word|])[i] == word[i] {
        LowerCase(t[i], word[i]);
      }
      assert Find(t, ' ') == |word|;
      assert Lower(t[..|word|]) == word;
    }
    if ' ' in t && Lower(Head(t, ' ')) == word {
      forall i | 0 <= i < |word| ensures CaseOf(t[i], word[i]) {
        assert Lower(Head(t, ' '))[i] == LowerChar(t[i]);
        LowerCase(t[i], word[i]);
      }
    }
  }

  lemma SchemesExactly(t: string)
    ensures HasAuthScheme(t) <==> Names(t, "bearer") || Names(t, "basic") || Names(t, "dpop")
  {
    NamesExactly(t, "bearer");
    NamesExactly(t, "basic");
    NamesExactly(t, "dpop");
  }

  /**
    The header for a token with any blanks around it: the token itself when it starts with
    the word bearer, basic or dpop in any case and a space, and otherwise the token after
    "Bearer ". There is none for a blank setting.
   */
  lemma HeaderExactly(l: string, t: string, r: string)
    requires Blank(l) && Blank(r)
    ensures Solid(t) ==>
      Header(l + t + r) ==
        Some(if Names(t, "bearer") || Names(t, "basic") || Names(t, "dpop") then t else "Bearer " + t)
    ensures Header(l).None?
  {
    if Solid(t) {
      TrimExactly(l, t, r);
      SchemesExactly(t);
    }
    forall i | 0 <= i < |l| ensures IsSpace(l[i]) {
      BlankIsSpace(l[i]);
    }
    TrimSpaceTrims(l);
  }
}
