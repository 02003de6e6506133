/**
  Which JSON numbers encoding/json can put into a float64. A text that is decoded into
  `any` is refused when one of its numbers is out of range; rounding and underflow are
  no error.
 */
module Numbers {
  import opened Wrappers
  import opened Json
  import opened GoJson
  import opened Grammar
  import opened JsonRoundTrip

  function Pow(b: nat, e: nat): nat { if e == 0 then 1 else b * Pow(b, e - 1) }

  const TWO_64: nat := 0x1_0000_0000_0000_0000
  const TWO_256: nat := TWO_64 * TWO_64 * TWO_64 * TWO_64

  // 2^1024 - 2^970: what is smaller rounds to a finite float64, the rest does not.
  const FLOAT_LIMIT: nat := TWO_256 * TWO_256 * TWO_256 * TWO_64 * TWO_64 * TWO_64 * (TWO_64 - 1024)

  // The number that a string of digits spells.
  function Natural(s: string): nat {
    if s == "" || !IsDigit(s[|s| - 1]) then 0
    else 10 * Natural(s[..|s| - 1]) + (s[|s| - 1] - '0') as nat
  }

  // The digits of an exponent, of which strconv reads no more once it has reached 10000.
  function ReadExponent(s: string, e: nat): nat {
    if s == "" || !IsDigit(s[0]) then e
    else ReadExponent(s[1..], if e < 10000 then 10 * e + (s[0] - '0') as nat else e)
  }

  // An exponent part, which starts with 'e' or 'E' when there is one.
  function Exponent(s: string): int {
    if s == "" then 0
    else if StartsWith(s[1..], '-') then 0 - ReadExponent(s[2..], 0)
    else if StartsWith(s[1..], '+') then ReadExponent(s[2..], 0)
    else ReadExponent(s[1..], 0)
  }

  // A literal as digits * 10^exponent, its sign left out.
  datatype Decimal = Decimal(digits: nat, exponent: int)

  // The literal without its sign.
  function Bare(lit: string): string { if StartsWith(lit, '-') then lit[1..] else lit }

  function DecimalOf(lit: string): Decimal {
    var s := Bare(lit);
    var i := Digits(s);
    var rest := s[i..];
    if StartsWith(rest, '.') then
      var f := Digits(rest[1..]);
      Decimal(Natural(s[..i] + rest[1..1 + f]), Exponent(rest[1 + f..]) - f)
    else Decimal(Natural(s[..i]), Exponent(rest))
  }

  predicate Finite(d: Decimal) {
    if d.exponent >= 0 then d.digits * Pow(10, d.exponent) < FLOAT_LIMIT
    else d.digits < FLOAT_LIMIT * Pow(10, -d.exponent)
  }

  // Every number in the tree is finite as a float64.
  predicate InRange(v: Value) {
    match v
    case Number(lit) => Finite(DecimalOf(lit))
    case Array(vs) => AllInRange(vs)
    case Object(ms) => MembersInRange(ms)
    case _ => true
  }

  predicate AllInRange(vs: Values) {
    vs.Values? ==> InRange(vs.head) && AllInRange(vs.tail)
  }

  predicate MembersInRange(ms: Members) {
    ms.Members? ==> InRange(ms.value) && MembersInRange(ms.rest)
  }

  /** A member of a tree in range is in range. */
  lemma {:induction false} FieldInRange(ms: Members, name: string, how: Matching)
    requires MembersInRange(ms) && Field(ms, name, how).Some?
    ensures InRange(Field(ms, name, how).value)
  {
    if Field(ms.rest, name, how).Some? {
      FieldInRange(ms.rest, name, how);
    }
  }

  lemma {:induction false} PowAdd(b: nat, m: nat, n: nat)
    ensures Pow(b, m + n) == Pow(b, m) * Pow(b, n)
  {
    if m > 0 {
      PowAdd(b, m - 1, n);
      PowNext(b, m);
      PowNext(b, m + n);
      Associate(b, Pow(b, m - 1), Pow(b, n));
    }
  }

  lemma PowNext(b: nat, e: nat)
    requires e > 0
    ensures Pow(b, e) == b * Pow(b, e - 1)
  {
  }

  lemma Associate(x: nat, y: nat, z: nat)
    ensures x * (y * z) == (x * y) * z
  {
  }

  lemma {:induction false} PowPositive(b: nat, e: nat)
    requires b > 0
    ensures Pow(b, e) > 0
  {
    if e > 0 {
      PowPositive(b, e - 1);
    }
  }

  lemma LimitAt(k: nat, t: nat, q: nat)
    requires Pow(2, k) == t && q == t * t * t * t && Pow(2, 10) <= t
    ensures q * q * q * t * t * t * (t - Pow(2, 10)) == Pow(2, 16 * k) - Pow(2, 15 * k + 10)
  {
    PowAdd(2, k, k);
    PowAdd(2, 2 * k, 2 * k);
    assert Pow(2, 4 * k) == (t * t) * (t * t) == q;
    PowAdd(2, 4 * k, 4 * k);
    PowAdd(2, 8 * k, 4 * k);
    PowAdd(2, 12 * k, 2 * k);
    PowAdd(2, 14 * k, k);
    assert Pow(2, 15 * k) == q * q * q * (t * t) * t;
    PowAdd(2, 15 * k, k);
    PowAdd(2, 15 * k, 10);
    Products(q * q * q, t, Pow(2, 15 * k), Pow(2, 10));
  }

  lemma Products(c: nat, t: nat, p: nat, r: nat)
    requires p == c * (t * t) * t && r <= t
    ensures c * t * t * t * (t - r) == p * t - p * r
  {
    assert c * t * t * t == p;
  }

  /** The limit is half a unit in the last place above the greatest float64. */
  lemma FloatLimit()
    ensures FLOAT_LIMIT == Pow(2, 1024) - Pow(2, 970)
  {
    assert Pow(2, 8) == 256 && Pow(2, 10) == 1024;
    PowAdd(2, 8, 8);
    PowAdd(2, 16, 16);
    PowAdd(2, 32, 32);
    LimitAt(64, TWO_64, TWO_256);
  }

  lemma {:induction false} EightBelowTen(k: nat)
    ensures Pow(2, 3 * k) <= Pow(10, k)
  {
    if k > 0 {
      EightBelowTen(k - 1);
      PowAdd(2, 3, 3 * (k - 1));
      assert Pow(2, 3) == 8;
    }
  }

  /** No number with such an exponent is in range, but zero. */
  lemma LargeExponent(d: Decimal)
    requires d.digits > 0 && d.exponent >= 342
    ensures !Finite(d)
  {
    var e := d.exponent;
    FloatLimit();
    PowAdd(2, 1024, 3 * e - 1024);
    PowPositive(2, 3 * e - 1024);
    EightBelowTen(e);
    Enough(Pow(2, 1024), Pow(2, 3 * e - 1024), Pow(10, e), d.digits);
  }

  lemma Enough(a: nat, b: nat, c: nat, d: nat)
    requires b > 0 && d > 0 && a * b <= c
    ensures a <= d * c
  {
    assert a <= a * b;
    assert c <= d * c;
  }

  lemma HugeExponent()
    ensures Exponent("e400") == 400
  {
    assert "e400"[1..] == "400" && "400"[0] == '4';
    assert "400"[1..] == "00" && "00"[1..] == "0" && "0"[1..] == "";
    assert ReadExponent("400", 0) == ReadExponent("00", 4);
    assert ReadExponent("00", 4) == ReadExponent("0", 40) == ReadExponent("", 400);
  }

  lemma PlainExponent(lit: string, c: char, rest: string)
    requires lit == [c] + rest && IsDigit(c) && (StartsWith(rest, 'e') || StartsWith(rest, 'E'))
    ensures DecimalOf(lit) == Decimal((c - '0') as nat, Exponent(rest))
  {
    assert lit[1..] == rest && lit[..1] == [c];
    assert Digits(lit) == 1 + Digits(rest) && Digits(rest) == 0;
    assert [c][..0] == "" && Natural("") == 0;
  }

  lemma HugeLiteral()
    ensures NumberLength("1e400") == Some(5) && !InRange(Number("1e400"))
  {
    HugeExponent();
    PlainExponent("1e400", '1', "e400");
    LargeExponent(Decimal(1, 400));
    HugeLength("1e400", "e400", "400");
  }

  lemma HugeLength(lit: string, rest: string, digits: string)
    requires lit == "1" + rest && rest == "e" + digits && digits == "400"
    ensures NumberLength(lit) == Some(5)
  {
    assert lit[1..] == rest && rest[1..] == digits && rest[0..] == rest && rest[1 + 0..] == digits;
    assert Digits(rest) == 0 && Digits(lit) == 1;
    assert digits[1..] == "00" && digits[1..][1..] == "0" && digits[1..][1..][1..] == "";
    assert Digits("") == 0 && Digits("0") == 1 && Digits("00") == 2;
    assert Digits(digits) == 3;
  }

  // ----- the numbers of a tree

  // Every number among these tokens is finite.
  ghost predicate TokensInRange(tokens: seq<string>) {
    forall t | t in tokens && IsNumber(t) :: Finite(DecimalOf(t))
  }

  lemma NoNumber(t: string)
    requires t != "" && t[0] != '-' && !IsDigit(t[0])
    ensures !IsNumber(t)
  {
    NumberExactly(t);
    if IsNumber(t) {
      NumberFirst(t);
    }
  }

  lemma OneToken(t: string)
    requires t != "" && t[0] != '-' && !IsDigit(t[0])
    ensures TokensInRange([t])
  {
    NoNumber(t);
  }

  lemma TokensJoin(a: seq<string>, b: seq<string>)
    ensures TokensInRange(a + b) <==> TokensInRange(a) && TokensInRange(b)
  {
    assert forall t :: t in a + b <==> t in a || t in b;
  }

  /** A tree is in range exactly when every number among its tokens is finite. */
  lemma {:induction false} InRangeExactly(v: Value)
    requires IsTree(v)
    ensures InRange(v) <==> TokensInRange(Tokens(v))
    decreases v, 2
  {
    match v
    case Number(lit) => assert TokensInRange([lit]) <==> Finite(DecimalOf(lit));
    case Array(vs) =>
      OneToken("[");
      ArrayInRange(vs);
      TokensJoin(["["], ArrayTokens(vs));
    case Object(ms) =>
      OneToken("{");
      ObjectInRange(ms);
      TokensJoin(["{"], ObjectTokens(ms));
    case _ => OneToken(Tokens(v)[0]);
  }

  lemma {:induction false} ArrayInRange(vs: Values)
    requires AreTrees(vs)
    ensures AllInRange(vs) <==> TokensInRange(ArrayTokens(vs))
    decreases vs, 1
  {
    if vs.NoValues? {
      OneToken("]");
    } else {
      InRangeExactly(vs.head);
      TailInRange(vs.tail);
      TokensJoin(Tokens(vs.head), TailTokens(vs.tail));
    }
  }

  lemma {:induction false} TailInRange(vs: Values)
    requires AreTrees(vs)
    ensures AllInRange(vs) <==> TokensInRange(TailTokens(vs))
    decreases vs, 0
  {
    if vs.NoValues? {
      OneToken("]");
    } else {
      OneToken(",");
      InRangeExactly(vs.head);
      TailInRange(vs.tail);
      TokensJoin(Tokens(vs.head), TailTokens(vs.tail));
      TokensJoin([","], Tokens(vs.head) + TailTokens(vs.tail));
    }
  }

  lemma NamesNoNumber(k: seq<Item>, x: Value)
    ensures TokensInRange(MemberTokens(k, Tokens(x))) <==> TokensInRange(Tokens(x))
  {
    OneToken(Quoted(k));
    OneToken(":");
    TokensJoin([":"], Tokens(x));
    TokensJoin([Quoted(k)], [":"] + Tokens(x));
  }

  lemma {:induction false} ObjectInRange(ms: Members)
    requires AreMembers(ms)
    ensures MembersInRange(ms) <==> TokensInRange(ObjectTokens(ms))
    decreases ms, 1
  {
    if ms.NoMembers? {
      OneToken("}");
    } else {
      InRangeExactly(ms.value);
      NamesNoNumber(ms.name, ms.value);
      MoreInRange(ms.rest);
      TokensJoin(MemberTokens(ms.name, Tokens(ms.value)), MoreTokens(ms.rest));
    }
  }

  lemma {:induction false} MoreInRange(ms: Members)
    requires AreMembers(ms)
    ensures MembersInRange(ms) <==> TokensInRange(MoreTokens(ms))
    decreases ms, 0
  {
    if ms.NoMembers? {
      OneToken("}");
    } else {
      OneToken(",");
      InRangeExactly(ms.value);
      NamesNoNumber(ms.name, ms.value);
      MoreInRange(ms.rest);
      TokensJoin(MemberTokens(ms.name, Tokens(ms.value)), MoreTokens(ms.rest));
      TokensJoin([","], MemberTokens(ms.name, Tokens(ms.value)) + MoreTokens(ms.rest));
    }
  }

  // ----- what a literal is worth

  lemma {:induction false} NaturalBound(d: string)
    ensures Natural(d) < Pow(10, |d|)
  {
    if d != "" && IsDigit(d[|d| - 1]) {
      NaturalBound(d[..|d| - 1]);
    } else {
      PowPositive(10, |d|);
    }
  }

  // The digits after the point.
  function FractionDigits(f: string): string { if f == "" then "" else f[1..] }

  /** A literal is its integer and fraction digits, times ten to its exponent. */
  lemma DecimalExactly(sign: string, i: string, f: string, e: string)
    requires Sign(sign) && IntegerPart(i) && FractionPart(f) && ExponentPart(e)
    ensures DecimalOf(sign + (i + (f + e)))
         == Decimal(Natural(i + FractionDigits(f)), Exponent(e) - |FractionDigits(f)|)
  {
    var lit, s := sign + (i + (f + e)), i + (f + e);
    PartsStart(f, e);
    DigitsOf(i, f + e);
    StartOfInteger(i, f + e);
    Unsigned(sign, s);
    if f == "" {
      assert f + e == e && i + "" == i;
      DecimalWhole(lit, i, e);
    } else {
      DigitsOf(f[1..], e);
      FractionShape(f, e);
      DecimalPoint(lit, i, f[1..], e);
    }
  }

  lemma StartOfInteger(i: string, rest: string)
    requires IntegerPart(i)
    ensures (i + rest)[0] != '-'
  {
    assert i[0] in i;
  }

  lemma FractionShape(f: string, e: string)
    requires FractionPart(f) && f != ""
    ensures f + e == "." + (f[1..] + e)
  {
  }

  lemma DecimalWhole(lit: string, i: string, e: string)
    requires Bare(lit) == i + e && Digits(i + e) == |i| && !StartsWith(e, '.')
    ensures DecimalOf(lit) == Decimal(Natural(i), Exponent(e))
  {
    assert (i + e)[..|i|] == i && (i + e)[|i|..] == e;
  }

  lemma DecimalPoint(lit: string, i: string, d: string, e: string)
    requires Bare(lit) == i + ("." + (d + e)) && Digits(Bare(lit)) == |i| && Digits(d + e) == |d|
    ensures DecimalOf(lit) == Decimal(Natural(i + d), Exponent(e) - |d|)
  {
    var s, rest := Bare(lit), "." + (d + e);
    assert s[..|i|] == i && s[|i|..] == rest;
    assert rest[1..] == d + e && rest[1..1 + |d|] == d && rest[1 + |d|..] == e;
  }

  lemma Unsigned(sign: string, s: string)
    requires Sign(sign) && s != "" && s[0] != '-'
    ensures Bare(sign + s) == s
  {
    if sign == "" {
      assert sign + s == s;
    }
  }

  lemma {:induction false} PowMonotone(b: nat, m: nat, n: nat)
    requires b > 0 && m <= n
    ensures Pow(b, m) <= Pow(b, n)
  {
    PowAdd(b, m, n - m);
    PowPositive(b, n - m);
    PowPositive(b, m);
    AtLeast(Pow(b, m), Pow(b, n - m));
  }

  lemma AtLeast(a: nat, b: nat)
    requires b > 0
    ensures a <= a * b
  {
  }

  lemma {:induction false} ThousandsBelow(k: nat)
    ensures Pow(10, 3 * k) <= Pow(2, 10 * k)
  {
    if k > 0 {
      ThousandsBelow(k - 1);
      PowAdd(10, 3, 3 * (k - 1));
      PowAdd(2, 10, 10 * (k - 1));
      assert Pow(10, 3) == 1000 && Pow(2, 10) == 1024;
      Scaled(Pow(10, 3 * (k - 1)), Pow(2, 10 * (k - 1)));
    }
  }

  lemma Scaled(a: nat, b: nat)
    requires a <= b
    ensures 1000 * a <= 1024 * b
  {
  }

  lemma PowerInRange()
    ensures Pow(10, 300) < FLOAT_LIMIT
  {
    ThousandsBelow(100);
    FloatLimit();
    PowMonotone(2, 970, 1000);
    BigAbove(1000);
  }

  lemma BigAbove(k: nat)
    ensures Pow(2, k + 24) > 2 * Pow(2, k)
  {
    PowAdd(2, k, 24);
    PowAdd(2, 2, 22);
    PowPositive(2, 22);
    PowPositive(2, k);
    assert Pow(2, 2) == 4;
    TwoTimes(Pow(2, k), Pow(2, 24));
  }

  lemma TwoTimes(a: nat, b: nat)
    requires a > 0 && b > 2
    ensures a * b > 2 * a
  {
  }

  lemma Multiply(a: nat, b: nat, c: nat)
    requires a < b && c > 0
    ensures a * c < b * c
  {
  }

  lemma DecimalInRange(m: nat, digits: nat, exponent: int)
    requires m < Pow(10, digits) && digits + exponent <= 300
    ensures Finite(Decimal(m, exponent))
  {
    PowerInRange();
    if exponent >= 0 {
      PowAdd(10, digits, exponent);
      PowPositive(10, exponent);
      Multiply(m, Pow(10, digits), Pow(10, exponent));
      PowMonotone(10, digits + exponent, 300);
    } else {
      PowAdd(10, 300, -exponent);
      PowPositive(10, -exponent);
      PowMonotone(10, digits, 300 - exponent);
      Multiply(Pow(10, 300), FLOAT_LIMIT, Pow(10, -exponent));
    }
  }

  /**
    Literals of ordinary size are in range: when the digits before the point and the
    exponent come to no more than 300, however many digits the fraction has.
   */
  lemma OrdinaryInRange(sign: string, i: string, f: string, e: string)
    requires Sign(sign) && IntegerPart(i) && FractionPart(f) && ExponentPart(e)
    requires |i| + Exponent(e) <= 300
    ensures InRange(Number(sign + (i + (f + e))))
  {
    DecimalExactly(sign, i, f, e);
    OrdinaryLiteral(sign + (i + (f + e)), i, FractionDigits(f), Exponent(e));
  }

  lemma OrdinaryLiteral(lit: string, i: string, fraction: string, exponent: int)
    requires DecimalOf(lit) == Decimal(Natural(i + fraction), exponent - |fraction|)
    requires |i| + exponent <= 300
    ensures InRange(Number(lit))
  {
    OrdinaryDecimal(i, fraction, exponent);
    FiniteLiteral(lit, DecimalOf(lit));
  }

  lemma FiniteLiteral(lit: string, d: Decimal)
    requires DecimalOf(lit) == d && Finite(d)
    ensures InRange(Number(lit))
  {
  }

  lemma OrdinaryDecimal(i: string, fraction: string, exponent: int)
    requires |i| + exponent <= 300
    ensures Finite(Decimal(Natural(i + fraction), exponent - |fraction|))
  {
    var digits := i + fraction;
    NaturalBound(digits);
    DecimalInRange(Natural(digits), |digits|, exponent - |fraction|);
  }

  lemma {:induction false} ReadLast(d: string, c: char, e: nat)
    requires (d != "" ==> DigitRun(d)) && IsDigit(c)
    ensures var r := ReadExponent(d, e);
      ReadExponent(d + [c], e) == if r < 10000 then 10 * r + (c - '0') as nat else r
  {
    if d == "" {
      assert d + [c] == [c] && [c][1..] == "";
    } else {
      assert d[0] in d && forall x | x in d[1..] :: x in d;
      assert (d + [c])[1..] == d[1..] + [c] && (d + [c])[0] == d[0];
      ReadLast(d[1..], c, if e < 10000 then 10 * e + (d[0] - '0') as nat else e);
    }
  }

  lemma {:induction false} ReadNatural(d: string)
    requires (d != "" ==> DigitRun(d)) && |d| <= 5
    ensures ReadExponent(d, 0) == Natural(d)
  {
    if d != "" {
      var before, c := d[..|d| - 1], d[|d| - 1];
      assert d == before + [c] && c in d && forall x | x in before :: x in d;
      ReadNatural(before);
      ReadLast(before, c, 0);
      NaturalBound(before);
      PowMonotone(10, |before|, 4);
      assert Pow(10, 4) == 10000;
    }
  }

  /** An exponent of up to five digits is worth what its digits spell, with its sign. */
  lemma ExponentExactly(mark: char, d: string)
    requires (mark == 'e' || mark == 'E') && DigitRun(d) && |d| <= 5
    ensures Exponent([mark] + d) == Natural(d)
    ensures Exponent([mark, '+'] + d) == Natural(d)
    ensures Exponent([mark, '-'] + d) == 0 - Natural(d)
  {
    ReadNatural(d);
    assert d[0] in d;
    Unmarked([mark] + d, d);
    Marked([mark, '+'] + d, '+', d);
    Marked([mark, '-'] + d, '-', d);
  }

  lemma Unmarked(e: string, d: string)
    requires |e| == |d| + 1 && e[1..] == d && d != "" && d[0] != '+' && d[0] != '-'
    ensures Exponent(e) == ReadExponent(d, 0)
  {
  }

  lemma Marked(e: string, sign: char, d: string)
    requires (sign == '+' || sign == '-') && |e| == |d| + 2 && e[1] == sign && e[2..] == d
    ensures Exponent(e) == if sign == '-' then 0 - ReadExponent(d, 0) else ReadExponent(d, 0)
  {
    assert e[1..][0] == e[1];
  }
}
