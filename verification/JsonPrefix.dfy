/**
  JSON values are self-delimiting. Reading a value never depends on the bytes after
  it (a number excepted, which may run on), so a JSON text that is cut short can be
  rejected but cannot be read as a different array or object.
 */
module JsonPrefix {
  import opened Wrappers
  import opened Json

  // ----- one step of each parsing function, from the steps inside it

  lemma ArrayStep(s: string, h: Value, s2: string, t: Values, r: string)
    requires Skip(s) != "" && Skip(s)[0] != ']'
    requires ParseValue(Skip(s)) == Some((h, s2)) && ParseTail(s2) == Some((t, r))
    ensures ParseArray(s) == Some((Array(Values(h, t)), r))
  {
  }

  lemma TailStep(s: string, h: Value, s2: string, t: Values, r: string)
    requires StartsWith(Skip(s), ',')
    requires ParseValue(Skip(Skip(s)[1..])) == Some((h, s2)) && ParseTail(s2) == Some((t, r))
    ensures ParseTail(s) == Some((Values(h, t), r))
  {
  }

  lemma ObjectStep(s: string, k: seq<Item>, x: Value, s2: string, t: Members, r: string)
    requires Skip(s) != "" && Skip(s)[0] != '}'
    requires ParseMember(Skip(s)) == Some((k, x, s2)) && ParseMore(s2) == Some((t, r))
    ensures ParseObject(s) == Some((Object(Members(k, x, t)), r))
  {
  }

  lemma MemberStep(s: string, k: seq<Item>, s1: string, x: Value, r: string)
    requires StartsWith(s, '"')
    requires ParseItems(s[1..]) == Some((k, s1)) && ParseColonValue(s1) == Some((x, r))
    ensures ParseMember(s) == Some((k, x, r))
  {
  }

  lemma ColonStep(s: string, x: Value, r: string)
    requires StartsWith(Skip(s), ':') && ParseValue(Skip(Skip(s)[1..])) == Some((x, r))
    ensures ParseColonValue(s) == Some((x, r))
  {
  }

  lemma MoreStep(s: string, k: seq<Item>, x: Value, s2: string, t: Members, r: string)
    requires StartsWith(Skip(s), ',')
    requires ParseMember(Skip(Skip(s)[1..])) == Some((k, x, s2)) && ParseMore(s2) == Some((t, r))
    ensures ParseMore(s) == Some((Members(k, x, t), r))
  {
  }

  // The bytes that can prolong a number.
  predicate RunsOn(t: string) { t != "" && (IsDigit(t[0]) || t[0] == '.' || t[0] == 'e' || t[0] == 'E') }

  // ----- adding bytes after what was read

  lemma SkipExtend(s: string, t: string)
    requires Skip(s) != ""
    ensures Skip(s + t) == Skip(s) + t
  {
    if IsSpace(s[0]) {
      assert (s + t)[1..] == s[1..] + t;
      SkipExtend(s[1..], t);
    }
  }

  lemma {:induction false} DigitsExtend(s: string, t: string)
    requires Digits(s) < |s| || t == "" || !IsDigit(t[0])
    ensures Digits(s + t) == Digits(s)
  {
    if s == "" {
      assert s + t == t;
    } else if IsDigit(s[0]) {
      assert (s + t)[1..] == s[1..] + t;
      DigitsExtend(s[1..], t);
    }
  }

  lemma FracExtend(s: string, t: string)
    requires FracLength(s).Some? && (FracLength(s).value < |s| || !RunsOn(t))
    ensures FracLength(s + t) == FracLength(s)
  {
    if s == "" {
      assert s + t == t;
    } else if StartsWith(s, '.') {
      assert (s + t)[1..] == s[1..] + t;
      DigitsExtend(s[1..], t);
    }
  }

  lemma ExpExtend(s: string, t: string)
    requires ExpLength(s).Some? && (ExpLength(s).value < |s| || !RunsOn(t))
    ensures ExpLength(s + t) == ExpLength(s)
  {
    if s == "" {
      assert s + t == t;
    } else if StartsWith(s, 'e') || StartsWith(s, 'E') {
      var sign := if StartsWith(s[1..], '+') || StartsWith(s[1..], '-') then 1 else 0;
      assert (s + t)[1..] == s[1..] + t;
      assert (s + t)[1 + sign..] == s[1 + sign..] + t;
      DigitsExtend(s[1 + sign..], t);
    }
  }

  lemma FracExpExtend(s: string, t: string)
    requires FracExpLength(s).Some? && (FracExpLength(s).value < |s| || !RunsOn(t))
    ensures FracExpLength(s + t) == FracExpLength(s)
  {
    var f := FracLength(s).value;
    assert (s + t)[f..] == s[f..] + t;
    FracExtend(s, t);
    ExpExtend(s[f..], t);
  }

  lemma UnsignedExtend(s: string, t: string)
    requires UnsignedLength(s).Some? && (UnsignedLength(s).value < |s| || !RunsOn(t))
    ensures UnsignedLength(s + t) == UnsignedLength(s)
  {
    var i := IntLength(s).value;
    assert (s + t)[i..] == s[i..] + t;
    if s[0] != '0' {
      DigitsExtend(s, t);
    }
    FracExpExtend(s[i..], t);
    UnsignedSame(s, s + t, i);
  }

  lemma UnsignedSame(s: string, s': string, i: nat)
    requires IntLength(s) == IntLength(s') == Some(i)
    requires FracExpLength(s[i..]) == FracExpLength(s'[i..])
    ensures UnsignedLength(s) == UnsignedLength(s')
  {
  }

  lemma NumberExtend(s: string, t: string)
    requires NumberLength(s).Some? && (NumberLength(s).value < |s| || !RunsOn(t))
    ensures NumberLength(s + t) == NumberLength(s)
  {
    if StartsWith(s, '-') {
      SignFirst(s, t);
      Signed(s, s[1..]);
      NegativeExtend(s + t, s[1..] + t, s[1..], t);
    } else {
      UnsignedExtend(s, t);
    }
  }

  lemma NegativeExtend(w: string, v: string, u: string, t: string)
    requires w == "-" + v && v == u + t
    requires UnsignedLength(u).Some? && (UnsignedLength(u).value < |u| || !RunsOn(t))
    ensures NumberLength(w) == Some(1 + UnsignedLength(u).value)
  {
    UnsignedExtend(u, t);
    Signed(w, v);
  }

  lemma SignFirst(s: string, t: string)
    requires StartsWith(s, '-')
    ensures s == "-" + s[1..] && s + t == "-" + (s[1..] + t)
  {
  }

  lemma Signed(s: string, u: string)
    requires s == "-" + u
    ensures NumberLength(s) == if UnsignedLength(u).Some? then Some(1 + UnsignedLength(u).value) else None
  {
    assert s[1..] == u;
  }

  lemma ItemExtend(s: string, t: string)
    requires ParseItem(s).Some?
    ensures ParseItem(s + t) == Some((ParseItem(s).value.0, ParseItem(s).value.1 + t))
  {
    var r := s + t;
    assert r[1..] == s[1..] + t;
    if s[0] == '\\' {
      assert r[2..] == s[2..] + t;
      if s[1] == 'u' {
        assert r[2..6] == s[2..6];
        assert r[6..] == s[6..] + t;
      }
    }
  }

  lemma {:induction false} ItemsExtend(s: string, t: string)
    requires ParseItems(s).Some?
    ensures ParseItems(s + t) == Some((ParseItems(s).value.0, ParseItems(s).value.1 + t))
    decreases |s|
  {
    if StartsWith(s, '"') {
      assert (s + t)[1..] == s[1..] + t;
    } else {
      ItemExtend(s, t);
      ItemsExtend(ParseItem(s).value.1, t);
    }
  }

  /** What was read stays the same whatever follows, unless it is a number that runs on. */
  lemma {:induction false} ValueExtend(s: string, v: Value, r: string, t: string)
    requires ParseValue(s) == Some((v, r))
    requires v.Number? && r == "" ==> !RunsOn(t)
    ensures ParseValue(s + t) == Some((v, r + t))
    decreases |s|, 0
  {
    assert (s + t)[1..] == s[1..] + t;
    if s[0] == '"' {
      ItemsExtend(s[1..], t);
    } else if s[0] == '[' {
      ArrayExtend(s[1..], v, r, t);
    } else if s[0] == '{' {
      ObjectExtend(s[1..], v, r, t);
    } else if s[0] == '-' || IsDigit(s[0]) {
      NumeralExtend(s, t);
    } else {
      LiteralExtend(s, t);
    }
  }

  lemma NumeralExtend(s: string, t: string)
    requires ParseNumber(s).Some?
    requires ParseNumber(s).value.1 == "" ==> !RunsOn(t)
    ensures ParseNumber(s + t) == Some((ParseNumber(s).value.0, ParseNumber(s).value.1 + t))
  {
    var n := NumberLength(s).value;
    NumberTaken(s, n);
    NumberExtend(s, t);
    NumeralAppended(s, s + t, t, n);
  }

  lemma NumeralAppended(s: string, w: string, t: string, n: nat)
    requires n <= |s| && w == s + t && NumberLength(w) == Some(n)
    ensures ParseNumber(w) == Some((Number(s[..n]), s[n..] + t))
  {
    NumberTaken(w, n);
    assert w[..n] == s[..n] && w[n..] == s[n..] + t;
  }

  lemma NumberTaken(s: string, n: nat)
    requires NumberLength(s) == Some(n)
    ensures n <= |s| && ParseNumber(s) == Some((Number(s[..n]), s[n..]))
  {
  }

  lemma LiteralExtend(s: string, t: string)
    requires ParseLiteral(s).Some?
    ensures ParseLiteral(s + t) == Some((ParseLiteral(s).value.0, ParseLiteral(s).value.1 + t))
  {
    assert (s + t)[4..] == s[4..] + t;
    if "false" <= s {
      assert (s + t)[5..] == s[5..] + t;
    }
  }

  lemma {:induction false} ArrayExtend(s: string, v: Value, r: string, t: string)
    requires ParseArray(s) == Some((v, r))
    ensures ParseArray(s + t) == Some((v, r + t))
    decreases |s|, 1
  {
    var s1 := Skip(s);
    SkipExtend(s, t);
    assert (s1 + t)[1..] == s1[1..] + t;
    if s1[0] != ']' {
      var (h, s2) := ParseValue(s1).value;
      ValueExtend(s1, h, s2, t);
      TailExtend(s2, v.values.tail, r, t);
      ArrayStep(s + t, h, s2 + t, v.values.tail, r + t);
    }
  }

  lemma {:induction false} TailExtend(s: string, vs: Values, r: string, t: string)
    requires ParseTail(s) == Some((vs, r))
    ensures ParseTail(s + t) == Some((vs, r + t))
    decreases |s|, 0
  {
    SkipExtend(s, t);
    var s1 := Skip(s);
    assert (s1 + t)[1..] == s1[1..] + t;
    if s1[0] == ',' {
      var (h, s2) := ParseValue(Skip(s1[1..])).value;
      SkipExtend(s1[1..], t);
      ValueExtend(Skip(s1[1..]), h, s2, t);
      TailExtend(s2, vs.tail, r, t);
      TailStep(s + t, h, s2 + t, vs.tail, r + t);
    }
  }

  lemma {:induction false} ObjectExtend(s: string, v: Value, r: string, t: string)
    requires ParseObject(s) == Some((v, r))
    ensures ParseObject(s + t) == Some((v, r + t))
    decreases |s|, 2
  {
    var s1 := Skip(s);
    SkipExtend(s, t);
    assert (s1 + t)[1..] == s1[1..] + t;
    if s1[0] != '}' {
      var (k, x, s2) := ParseMember(s1).value;
      MemberExtend(s1, k, x, s2, t);
      MoreExtend(s2, v.members.rest, r, t);
      ObjectStep(s + t, k, x, s2 + t, v.members.rest, r + t);
    }
  }

  lemma {:induction false} MemberExtend(s: string, k: seq<Item>, x: Value, r: string, t: string)
    requires ParseMember(s) == Some((k, x, r)) && r != ""
    ensures ParseMember(s + t) == Some((k, x, r + t))
    decreases |s|, 1
  {
    assert (s + t)[1..] == s[1..] + t;
    var s1 := ParseItems(s[1..]).value.1;
    ItemsExtend(s[1..], t);
    ColonValueExtend(s1, x, r, t);
    MemberStep(s + t, k, s1 + t, x, r + t);
  }

  lemma {:induction false} ColonValueExtend(s: string, x: Value, r: string, t: string)
    requires ParseColonValue(s) == Some((x, r)) && r != ""
    ensures ParseColonValue(s + t) == Some((x, r + t))
    decreases |s|, 0
  {
    SkipExtend(s, t);
    var s1 := Skip(s);
    assert (s1 + t)[1..] == s1[1..] + t;
    SkipExtend(s1[1..], t);
    ValueExtend(Skip(s1[1..]), x, r, t);
    ColonStep(s + t, x, r + t);
  }

  lemma {:induction false} MoreExtend(s: string, ms: Members, r: string, t: string)
    requires ParseMore(s) == Some((ms, r))
    ensures ParseMore(s + t) == Some((ms, r + t))
    decreases |s|, 0
  {
    SkipExtend(s, t);
    var s1 := Skip(s);
    assert (s1 + t)[1..] == s1[1..] + t;
    if s1[0] == ',' {
      var (k, x, s2) := ParseMember(Skip(s1[1..])).value;
      SkipExtend(s1[1..], t);
      MemberExtend(Skip(s1[1..]), k, x, s2, t);
      MoreExtend(s2, ms.rest, r, t);
      MoreStep(s + t, k, x, s2 + t, ms.rest, r + t);
    }
  }

  // ----- removing bytes after what was read

  // s without the t it ends in.
  function Before(s: string, t: string): string
    requires |s| >= |t|
  {
    s[..|s| - |t|]
  }

  lemma SkipCut(a: string, t: string)
    requires |Skip(a + t)| > |t|
    ensures Skip(a + t) == Skip(a) + t
  {
    if IsSpace(a[0]) {
      assert (a + t)[1..] == a[1..] + t;
      SkipCut(a[1..], t);
    }
  }

  lemma {:induction false} DigitsCut(a: string, t: string)
    requires Digits(a + t) <= |a|
    ensures Digits(a) == Digits(a + t)
  {
    if a != "" && IsDigit(a[0]) {
      assert (a + t)[1..] == a[1..] + t;
      DigitsCut(a[1..], t);
    }
  }

  lemma FracCut(a: string, t: string)
    requires FracLength(a + t).Some? && FracLength(a + t).value <= |a|
    ensures FracLength(a) == FracLength(a + t)
  {
    if StartsWith(a, '.') {
      assert (a + t)[1..] == a[1..] + t;
      DigitsCut(a[1..], t);
    }
  }

  lemma ExpCut(a: string, t: string)
    requires ExpLength(a + t).Some? && ExpLength(a + t).value <= |a|
    ensures ExpLength(a) == ExpLength(a + t)
  {
    if StartsWith(a, 'e') || StartsWith(a, 'E') {
      assert (a + t)[1..] == a[1..] + t;
      var sign := if StartsWith((a + t)[1..], '+') || StartsWith((a + t)[1..], '-') then 1 else 0;
      assert (a + t)[1 + sign..] == a[1 + sign..] + t;
      DigitsCut(a[1 + sign..], t);
    }
  }

  lemma FracExpCut(a: string, t: string)
    requires FracExpLength(a + t).Some? && FracExpLength(a + t).value <= |a|
    ensures FracExpLength(a) == FracExpLength(a + t)
  {
    var f := FracLength(a + t).value;
    FracCut(a, t);
    assert (a + t)[f..] == a[f..] + t;
    ExpCut(a[f..], t);
  }

  lemma IntegerCut(a: string, t: string)
    requires IntLength(a + t).Some? && IntLength(a + t).value <= |a|
    ensures IntLength(a) == IntLength(a + t)
  {
    if a[0] != '0' {
      DigitsCut(a, t);
    }
  }

  lemma UnsignedCut(a: string, t: string)
    requires UnsignedLength(a + t).Some? && UnsignedLength(a + t).value <= |a|
    ensures UnsignedLength(a) == UnsignedLength(a + t)
  {
    var i := IntLength(a + t).value;
    IntegerCut(a, t);
    assert (a + t)[i..] == a[i..] + t;
    FracExpCut(a[i..], t);
    UnsignedSame(a, a + t, i);
  }

  lemma NumberCut(a: string, t: string)
    requires NumberLength(a + t).Some? && NumberLength(a + t).value <= |a|
    ensures NumberLength(a) == NumberLength(a + t)
  {
    if StartsWith(a, '-') {
      SignFirst(a, t);
      NegativeCut(a, a[1..], t);
    } else {
      UnsignedCut(a, t);
    }
  }

  lemma NegativeCut(a: string, u: string, t: string)
    requires a == "-" + u && a + t == "-" + (u + t)
    requires NumberLength(a + t).Some? && NumberLength(a + t).value <= |a|
    ensures NumberLength(a) == NumberLength(a + t)
  {
    Signed(a + t, u + t);
    Signed(a, u);
    UnsignedCut(u, t);
  }

  lemma ItemCut(a: string, t: string, it: Item, r: string)
    requires ParseItem(a + t) == Some((it, r)) && |r| >= |t|
    ensures r == Before(r, t) + t && ParseItem(a) == Some((it, Before(r, t)))
  {
    var s := a + t;
    var n := |s| - |r|;
    assert s[n..] == a[n..] + t;
    if s[0] == '\\' && s[1] == 'u' && !IsShort(s[1]) {
      assert s[2..6] == a[2..6];
    }
  }

  lemma {:induction false} ItemsCut(a: string, t: string, its: seq<Item>, r: string)
    requires ParseItems(a + t) == Some((its, r)) && |r| >= |t|
    ensures r == Before(r, t) + t && ParseItems(a) == Some((its, Before(r, t)))
    decreases |a|
  {
    assert (a + t)[1..] == a[1..] + t;
    if !StartsWith(a, '"') {
      var (it, s1) := ParseItem(a + t).value;
      var (rest, _) := ParseItems(s1).value;
      ItemCut(a, t, it, s1);
      ItemsCut(Before(s1, t), t, rest, r);
    }
  }

  /** A value that ends within a is read from a alone as it is from any longer text. */
  lemma {:induction false} ValueCut(a: string, t: string, v: Value, r: string)
    requires ParseValue(a + t) == Some((v, r)) && |r| >= |t|
    ensures r == Before(r, t) + t && ParseValue(a) == Some((v, Before(r, t)))
    decreases |a|, 0
  {
    assert (a + t)[1..] == a[1..] + t;
    if a[0] == '"' {
      ItemsCut(a[1..], t, v.items, r);
    } else if a[0] == '[' {
      ArrayCut(a[1..], t, v, r);
    } else if a[0] == '{' {
      ObjectCut(a[1..], t, v, r);
    } else if a[0] == '-' || IsDigit(a[0]) {
      var n := NumberLength(a + t).value;
      NumberCut(a, t);
      assert (a + t)[..n] == a[..n] && (a + t)[n..] == a[n..] + t;
    } else {
      LiteralCut(a, t, v, r);
    }
  }

  lemma LiteralCut(a: string, t: string, v: Value, r: string)
    requires ParseLiteral(a + t) == Some((v, r)) && |r| >= |t|
    ensures r == Before(r, t) + t && ParseLiteral(a) == Some((v, Before(r, t)))
  {
    var n := if v == Bool(false) then 5 else 4;
    assert (a + t)[n..] == a[n..] + t;
    assert (a + t)[..n] == a[..n];
  }

  lemma {:induction false} ArrayCut(a: string, t: string, v: Value, r: string)
    requires ParseArray(a + t) == Some((v, r)) && |r| >= |t|
    ensures r == Before(r, t) + t && ParseArray(a) == Some((v, Before(r, t)))
    decreases |a|, 1
  {
    SkipCut(a, t);
    var s1 := Skip(a);
    assert (s1 + t)[1..] == s1[1..] + t;
    if s1[0] != ']' {
      var (h, s2) := ParseValue(s1 + t).value;
      ValueCut(s1, t, h, s2);
      TailCut(Before(s2, t), t, v.values.tail, r);
    }
  }

  lemma {:induction false} TailCut(a: string, t: string, vs: Values, r: string)
    requires ParseTail(a + t) == Some((vs, r)) && |r| >= |t|
    ensures r == Before(r, t) + t && ParseTail(a) == Some((vs, Before(r, t)))
    decreases |a|, 0
  {
    SkipCut(a, t);
    var s1 := Skip(a);
    assert (s1 + t)[1..] == s1[1..] + t;
    if s1[0] == ',' {
      SkipCut(s1[1..], t);
      var (h, s2) := ParseValue(Skip(s1[1..]) + t).value;
      ValueCut(Skip(s1[1..]), t, h, s2);
      TailCut(Before(s2, t), t, vs.tail, r);
    }
  }

  lemma {:induction false} ObjectCut(a: string, t: string, v: Value, r: string)
    requires ParseObject(a + t) == Some((v, r)) && |r| >= |t|
    ensures r == Before(r, t) + t && ParseObject(a) == Some((v, Before(r, t)))
    decreases |a|, 2
  {
    SkipCut(a, t);
    var s1 := Skip(a);
    assert (s1 + t)[1..] == s1[1..] + t;
    if s1[0] != '}' {
      var (k, x, s2) := ParseMember(s1 + t).value;
      MemberCut(s1, t, k, x, s2);
      MoreCut(Before(s2, t), t, v.members.rest, r);
    }
  }

  lemma {:induction false} MemberCut(a: string, t: string, k: seq<Item>, x: Value, r: string)
    requires ParseMember(a + t) == Some((k, x, r)) && |r| >= |t|
    ensures r == Before(r, t) + t && ParseMember(a) == Some((k, x, Before(r, t)))
    decreases |a|, 1
  {
    assert (a + t)[1..] == a[1..] + t;
    var s1 := ParseItems((a + t)[1..]).value.1;
    ItemsCut(a[1..], t, k, s1);
    ColonValueCut(Before(s1, t), t, x, r);
  }

  lemma {:induction false} ColonValueCut(a: string, t: string, x: Value, r: string)
    requires ParseColonValue(a + t) == Some((x, r)) && |r| >= |t|
    ensures r == Before(r, t) + t && ParseColonValue(a) == Some((x, Before(r, t)))
    decreases |a|, 0
  {
    SkipCut(a, t);
    var s1 := Skip(a);
    assert (s1 + t)[1..] == s1[1..] + t;
    SkipCut(s1[1..], t);
    ValueCut(Skip(s1[1..]), t, x, r);
  }

  lemma {:induction false} MoreCut(a: string, t: string, ms: Members, r: string)
    requires ParseMore(a + t) == Some((ms, r)) && |r| >= |t|
    ensures r == Before(r, t) + t && ParseMore(a) == Some((ms, Before(r, t)))
    decreases |a|, 0
  {
    SkipCut(a, t);
    var s1 := Skip(a);
    assert (s1 + t)[1..] == s1[1..] + t;
    if s1[0] == ',' {
      SkipCut(s1[1..], t);
      var (k, x, s2) := ParseMember(Skip(s1[1..]) + t).value;
      MemberCut(Skip(s1[1..]), t, k, x, s2);
      MoreCut(Before(s2, t), t, ms.rest, r);
    }
  }

  // ----- a text that is cut short

  lemma SkipNothing(s: string)
    ensures Skip(s) == "" <==> AllSpace(s)
  {
    if s != "" && IsSpace(s[0]) {
      SkipNothing(s[1..]);
      assert forall i | 1 <= i < |s| :: s[i] == s[1..][i - 1];
    }
  }

  /**
    Two JSON texts, one a prefix of the other, are the same tree. Numbers are the one
    exception: 12 is a prefix of 123.
   */
  lemma PrefixFree(s: string, n: nat, v: Value, w: Value)
    requires n <= |s|
    requires ParseDoc(s) == Some(v) && ParseDoc(s[..n]) == Some(w)
    ensures v == w || (v.Number? && w.Number?)
  {
    var a, t := s[..n], s[n..];
    assert s == a + t;
    SkipExtend(a, t);
    var (_, r) := ParseValue(Skip(a)).value;
    if w.Number? && r == "" {
      NumberStart(Skip(a), w, r);
      NumberStart2(Skip(s), v);
    } else {
      ValueExtend(Skip(a), w, r, t);
    }
  }

  lemma NumberStart(s: string, w: Value, r: string)
    requires ParseValue(s) == Some((w, r)) && w.Number?
    ensures s[0] == '-' || IsDigit(s[0])
  {
  }

  lemma NumberStart2(s: string, v: Value)
    requires s != "" && (s[0] == '-' || IsDigit(s[0]))
    requires ParseValue(s).Some? && ParseValue(s).value.0 == v
    ensures v.Number?
  {
  }

  // The first value in body is v, it ends within the first n bytes, and only
  // whitespace stands between it and byte n.
  predicate FirstValueFills(body: string, n: nat, v: Value)
    requires n <= |body|
  {
    match ParseValue(Skip(body))
    case None => false
    case Some((w, r)) =>
      w == v && |r| >= |body| - n && AllSpace(r[..|r| - (|body| - n)])
  }

  /** Exactly when the first n bytes of any body, valid or not, read as the tree v. */
  lemma CutReads(body: string, n: nat, v: Value)
    requires n <= |body| && !v.Number?
    ensures ParseDoc(body[..n]) == Some(v) <==> FirstValueFills(body, n, v)
  {
    var a, t := body[..n], body[n..];
    assert body == a + t;
    if ParseDoc(a) == Some(v) {
      var r := ParseValue(Skip(a)).value.1;
      SkipExtend(a, t);
      ValueExtend(Skip(a), v, r, t);
      SkipNothing(r);
      assert (r + t)[..|r|] == r;
    }
    if FirstValueFills(body, n, v) {
      var r := ParseValue(Skip(body)).value.1;
      SkipCut(a, t);
      ValueCut(Skip(a), t, v, r);
      SkipNothing(Before(r, t));
    }
  }

  /**
    When the cut text reads as v, the whole text does too exactly when nothing but
    whitespace was cut off; otherwise the whole text is not JSON at all.
   */
  lemma CutVersusWhole(body: string, n: nat, v: Value)
    requires n <= |body| && !v.Number?
    requires ParseDoc(body[..n]) == Some(v)
    ensures ParseDoc(body) == if AllSpace(body[n..]) then Some(v) else None
  {
    var a, t := body[..n], body[n..];
    assert body == a + t;
    var r := ParseValue(Skip(a)).value.1;
    SkipExtend(a, t);
    ValueExtend(Skip(a), v, r, t);
    SkipNothing(r);
    SkipNothing(r + t);
    assert forall i | 0 <= i < |t| :: t[i] == (r + t)[|r| + i];
  }
}
