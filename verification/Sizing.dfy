/** Bounding the result of evaluate_policy by the size of its compact encoding. */
module Sizing {
  import opened Wrappers
  import opened Json
  import opened GoJson
  import opened Spelling

  // ----- countingWriter

  const MAX_INT := 0x7FFF_FFFF_FFFF_FFFF

  // 64-bit two's complement.
  function Wrap(x: int): (r: int)
    ensures -MAX_INT - 1 <= r <= MAX_INT
    ensures -MAX_INT - 1 <= x <= MAX_INT ==> r == x
  {
    (x + (MAX_INT + 1)) % (2 * (MAX_INT + 1)) - (MAX_INT + 1)
  }

  datatype Count = Count(n: int, exceeded: bool)

  function Written(c: Count, limit: int, k: nat): Count {
    var n := Wrap(c.n + k);
    Count(n, c.exceeded || n > limit)
  }

  function AllWritten(limit: int, ks: seq<nat>): Count {
    if ks == [] then Count(0, false)
    else Written(AllWritten(limit, ks[..|ks| - 1]), limit, ks[|ks| - 1])
  }

  function Sum(ks: seq<nat>): nat {
    if ks == [] then 0 else Sum(ks[..|ks| - 1]) + ks[|ks| - 1]
  }

  class CountingWriter {
    var n: int
    const limit: int
    var exceeded: bool

    constructor (limit: int)
      ensures this.limit == limit && State() == Count(0, false)
    {
      this.n, this.limit, this.exceeded := 0, limit, false;
    }

    ghost function State(): Count
      reads this
    {
      Count(n, exceeded)
    }

    method Write(p: string) returns (k: nat)
      modifies this
      ensures k == |p| && State() == Written(old(State()), limit, |p|)
    {
      n := Wrap(n + |p|);
      if n > limit {
        exceeded := true;
      }
      k := |p|;
    }
  }

  /** However the bytes are split into writes, the flag tells whether they exceed the limit. */
  lemma {:induction false} ExceededExactly(limit: int, ks: seq<nat>)
    requires 0 <= limit <= MAX_INT
    requires forall k | k in ks :: k <= MAX_INT - limit
    ensures AllWritten(limit, ks).exceeded <==> Sum(ks) > limit
    ensures !AllWritten(limit, ks).exceeded ==> AllWritten(limit, ks).n == Sum(ks)
  {
    if ks != [] {
      var before, k := ks[..|ks| - 1], ks[|ks| - 1];
      assert forall j | j in before :: j in ks;
      assert k in ks;
      ExceededExactly(limit, before);
      assert AllWritten(limit, ks) == Written(AllWritten(limit, before), limit, k);
    }
  }

  /** The bound on a single write is the exact one: past it, some overflow goes unnoticed. */
  lemma WriteBoundIsExact(limit: int, k: nat)
    requires 0 <= limit <= MAX_INT && k <= MAX_INT
    ensures (forall n: nat | n <= limit :: Written(Count(n, false), limit, k).exceeded <==> n + k > limit)
       <==> k <= MAX_INT - limit
  {
    if k > MAX_INT - limit {
      assert Wrap(limit + k) < 0;
      assert !Written(Count(limit, false), limit, k).exceeded;
    }
  }

  // ----- encodesWithin

  function Concat(chunks: seq<string>): string {
    if chunks == [] then "" else Concat(chunks[..|chunks| - 1]) + chunks[|chunks| - 1]
  }

  function Lengths(chunks: seq<string>): (ks: seq<nat>)
    ensures |ks| == |chunks|
  {
    seq(|chunks|, i requires 0 <= i < |chunks| => |chunks[i]|)
  }

  lemma {:induction false} ChunkSizes(chunks: seq<string>)
    ensures Sum(Lengths(chunks)) == |Concat(chunks)|
    ensures forall c | c in chunks :: |c| <= |Concat(chunks)|
  {
    if chunks != [] {
      var before := chunks[..|chunks| - 1];
      ChunkSizes(before);
      assert Lengths(chunks)[..|chunks| - 1] == Lengths(before);
      assert chunks == before + [chunks[|chunks| - 1]];
    }
  }

  // What json.Encoder writes for v, in whatever pieces.
  function Encoded(v: Value): string { Text(v) + "\n" }

  // The encoding of v, newline included, takes at most limit bytes.
  predicate Within(v: Value, limit: int) { |Encoded(v)| <= limit }

  method EncodesWithin(v: Value, limit: int, encoder: string -> seq<string>) returns (ok: bool)
    requires forall s: string :: Concat(encoder(s)) == s
    requires 0 <= limit <= MAX_INT && |Encoded(v)| <= MAX_INT - limit
    ensures ok <==> Within(v, limit)
  {
    var chunks := encoder(Encoded(v));
    var w := new CountingWriter(limit);
    for i := 0 to |chunks|
      invariant w.limit == limit
      invariant w.State() == AllWritten(limit, Lengths(chunks)[..i])
    {
      var _ := w.Write(chunks[i]);
      assert Lengths(chunks)[..i + 1][..i] == Lengths(chunks)[..i];
    }
    assert Lengths(chunks)[..|chunks|] == Lengths(chunks);
    ChunkSizes(chunks);
    ExceededExactly(limit, Lengths(chunks));
    ok := !w.exceeded;
  }

  // ----- a part never encodes longer than the whole

  predicate PartOf(v: Value, w: Value) {
    || v == w
    || (w.Array? && PartOfSome(v, w.values))
    || (w.Object? && PartOfMember(v, w.members))
  }

  predicate PartOfSome(v: Value, ws: Values) {
    ws.Values? && (PartOf(v, ws.head) || PartOfSome(v, ws.tail))
  }

  predicate PartOfMember(v: Value, ms: Members) {
    ms.Members? && (PartOf(v, ms.value) || PartOfMember(v, ms.rest))
  }

  lemma {:induction false} PartIsShorter(v: Value, w: Value)
    requires PartOf(v, w)
    ensures |Text(v)| <= |Text(w)|
    decreases w, 0
  {
    if v == w {
    } else if w.Array? {
      SomeIsShorter(v, w.values);
      assert |Text(w)| == |TailText(w.values)|;
    } else {
      MemberIsShorter(v, w.members);
      assert |Text(w)| == |MoreText(w.members)|;
    }
  }

  lemma {:induction false} SomeIsShorter(v: Value, ws: Values)
    requires PartOfSome(v, ws)
    ensures |Text(v)| < |TailText(ws)|
    decreases ws, 0
  {
    if PartOf(v, ws.head) {
      PartIsShorter(v, ws.head);
    } else {
      SomeIsShorter(v, ws.tail);
    }
  }

  lemma {:induction false} MemberIsShorter(v: Value, ms: Members)
    requires PartOfMember(v, ms)
    ensures |Text(v)| < |MoreText(ms)|
    decreases ms, 0
  {
    if PartOf(v, ms.value) {
      PartIsShorter(v, ms.value);
    } else {
      MemberIsShorter(v, ms.rest);
    }
  }

  // ----- OPA's result set

  datatype Expression = Expression(value: Value, text: seq<Item>, location: Value)

  // bindings: None when there are none (omitempty).
  datatype Row = Row(expressions: seq<Expression>, bindings: Option<Value>)

  function ExpressionTree(e: Expression): Value {
    Object(Members(Spell("value"), e.value,
      Members(Spell("text"), String(e.text),
        Members(Spell("location"), e.location, NoMembers))))
  }

  function ExpressionTrees(es: seq<Expression>): seq<Value> {
    seq(|es|, i requires 0 <= i < |es| => ExpressionTree(es[i]))
  }

  function RowTree(r: Row): Value {
    Object(Members(Spell("expressions"), Array(FromSeq(ExpressionTrees(r.expressions))),
      if r.bindings.Some? then Members(Spell("bindings"), r.bindings.value, NoMembers) else NoMembers))
  }

  function SetTree(rs: seq<Row>): Value {
    Array(FromSeq(seq(|rs|, i requires 0 <= i < |rs| => RowTree(rs[i]))))
  }

  // The value of the only expression of the only row, or null.
  function SingleValue(rs: seq<Row>): Value {
    if |rs| != 1 || |rs[0].expressions| != 1 then Null else rs[0].expressions[0].value
  }

  // ----- the texts whose length is bounded

  /** The text of an expression value, by its members. */
  lemma ExpressionText(e: Expression)
    ensures Text(ExpressionTree(e)) ==
      "{" + (Named("value", Text(e.value)) + ("," + (Named("text", StringText(e.text)) +
      ("," + (Named("location", Text(e.location)) + "}")))))
  {
    var last := Members(Spell("location"), e.location, NoMembers);
    NextNamed("location", e.location, NoMembers);
    NextNamed("text", String(e.text), last);
    FirstNamed("value", e.value, Members(Spell("text"), String(e.text), last));
  }

  function ExpressionTexts(es: seq<Expression>): seq<string> {
    seq(|es|, i requires 0 <= i < |es| => Text(ExpressionTree(es[i])))
  }

  /** The text of a row: its expressions, and its bindings when it has any. */
  lemma RowText(r: Row)
    ensures Text(RowTree(r)) ==
      "{" + (Named("expressions", Bracketed(ExpressionTexts(r.expressions))) +
      (if r.bindings.Some? then "," + (Named("bindings", Text(r.bindings.value)) + "}") else "}"))
  {
    var es := Array(FromSeq(ExpressionTrees(r.expressions)));
    ArrayBracketed(ExpressionTrees(r.expressions), ExpressionTexts(r.expressions));
    if r.bindings.Some? {
      NextNamed("bindings", r.bindings.value, NoMembers);
      FirstNamed("expressions", es, Members(Spell("bindings"), r.bindings.value, NoMembers));
    } else {
      FirstNamed("expressions", es, NoMembers);
    }
  }

  /** The text of a result set: its rows. */
  lemma SetText(rs: seq<Row>)
    ensures Text(SetTree(rs)) == Bracketed(seq(|rs|, i requires 0 <= i < |rs| => Text(RowTree(rs[i]))))
  {
    ArrayBracketed(seq(|rs|, i requires 0 <= i < |rs| => RowTree(rs[i])),
      seq(|rs|, i requires 0 <= i < |rs| => Text(RowTree(rs[i]))));
  }

  // ----- the single value

  lemma {:induction false} ElementIsPart(s: seq<Value>, i: nat, v: Value)
    requires i < |s| && PartOf(v, s[i])
    ensures PartOfSome(v, FromSeq(s))
  {
    if i > 0 {
      ElementIsPart(s[1..], i - 1, v);
    }
  }

  lemma SingleIsPart(rs: seq<Row>)
    requires |rs| == 1 && |rs[0].expressions| == 1
    ensures PartOf(SingleValue(rs), SetTree(rs))
  {
    var v := SingleValue(rs);
    var e := ExpressionTree(rs[0].expressions[0]);
    assert PartOfMember(v, e.members);
    assert PartOf(v, e);
    ElementIsPart(ExpressionTrees(rs[0].expressions), 0, v);
    assert PartOf(v, Array(FromSeq(ExpressionTrees(rs[0].expressions))));
    assert PartOf(v, RowTree(rs[0]));
    ElementIsPart(seq(|rs|, i requires 0 <= i < |rs| => RowTree(rs[i])), 0, v);
  }

  /** When the whole result set fits, so does the single value taken from it. */
  lemma SingleFitsWithSet(rs: seq<Row>, limit: int)
    requires 5 <= limit && Within(SetTree(rs), limit)
    ensures Within(SingleValue(rs), limit)
  {
    if |rs| == 1 && |rs[0].expressions| == 1 {
      SingleIsPart(rs);
      PartIsShorter(SingleValue(rs), SetTree(rs));
    }
  }
}
