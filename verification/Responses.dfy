/**
  Decoding a PDP response into the structs of authzen.go, as encoding/json does it:
  members are matched in any case, a later one overwrites an earlier one, null leaves a
  struct as it is, and a repeated `evaluations` array is decoded into the slice that is
  already there. A type mismatch anywhere is an error (None).
 */
module Responses {
  import opened Wrappers
  import opened Json
  import opened GoJson
  import opened Pdp

  // evaluationResponse. A null or missing decision is None, never false.
  datatype Single = Single(decision: Option<bool>, context: Option<Value>)

  const BLANK := Single(None, None)

  function FillSingle(ms: Members, out: Single): Option<Single> {
    match ms
    case NoMembers => Some(out)
    case Members(k, x, rest) =>
      if Reads(k, "decision", Folded) then
        match x
        case Null => FillSingle(rest, out.(decision := None))
        case Bool(b) => FillSingle(rest, out.(decision := Some(b)))
        case _ => None
      else if Reads(k, "context", Folded) then FillSingle(rest, out.(context := Some(x)))
      else FillSingle(rest, out)
  }

  function DecodeInto(v: Value, out: Single): Option<Single> {
    match v
    case Null => Some(out)
    case Object(ms) => FillSingle(ms, out)
    case _ => None
  }

  // The slice behind evaluationsResponse: its length (None for nil) and its backing array.
  datatype Slice = Slice(len: Option<nat>, backing: seq<Single>)

  // Element i of the array is decoded into what is already at position i.
  function SetAt(h: Value, i: nat, backing: seq<Single>): (r: Option<seq<Single>>)
    requires i <= |backing|
    ensures r.Some? ==> |r.value| == if i < |backing| then |backing| else i + 1
  {
    var x :- DecodeInto(h, if i < |backing| then backing[i] else BLANK);
    Some(if i < |backing| then backing[i := x] else backing + [x])
  }

  function FillArray(vs: Values, i: nat, backing: seq<Single>): (r: Option<seq<Single>>)
    requires i <= |backing|
    ensures r.Some? ==> |r.value| >= i + |Elements(vs)|
    decreases vs
  {
    match vs
    case NoValues => Some(backing)
    case Values(h, t) =>
      var next :- SetAt(h, i, backing);
      FillArray(t, i + 1, next)
  }

  predicate Sound(s: Slice) { s.len.Some? ==> s.len.value <= |s.backing| }

  // The slice after one value of an evaluations member.
  function NextSlice(x: Value, out: Slice): (r: Option<Slice>)
    ensures r.Some? ==> Sound(r.value)
  {
    match x
    case Null => Some(Slice(None, []))
    case Array(NoValues) => Some(Slice(Some(0), []))
    case Array(vs) =>
      var backing :- FillArray(vs, 0, out.backing);
      Some(Slice(Some(|Elements(vs)|), backing))
    case _ => None
  }

  function FillBatch(ms: Members, out: Slice): (r: Option<Slice>)
    requires Sound(out)
    ensures r.Some? ==> Sound(r.value)
  {
    match ms
    case NoMembers => Some(out)
    case Members(k, x, rest) =>
      if Reads(k, "evaluations", Folded) then
        var next :- NextSlice(x, out);
        FillBatch(rest, next)
      else FillBatch(rest, out)
  }

  function DecodeSingle(v: Value): Option<Single> { DecodeInto(v, BLANK) }

  // Some(None) is a body without evaluations.
  function DecodeBatch(v: Value): Option<Option<seq<Single>>> {
    match v
    case Null => Some(None)
    case Object(ms) =>
      var s :- FillBatch(ms, Slice(None, []));
      Some(if s.len.None? then None else Some(s.backing[..s.len.value]))
    case _ => None
  }

  // ----- a decision is never made up

  // A member named decision holds b.
  predicate SaysOne(ms: Members, b: bool) {
    ms.Members? && ((Reads(ms.name, "decision", Folded) && ms.value == Bool(b)) || SaysOne(ms.rest, b))
  }

  // An element of an array holds decision b at position i.
  predicate SaysInArray(vs: Values, i: nat, b: bool) {
    match vs
    case NoValues => false
    case Values(h, t) => if i == 0 then h.Object? && SaysOne(h.members, b) else SaysInArray(t, i - 1, b)
  }

  // A member named evaluations holds decision b at position i.
  predicate SaysAt(ms: Members, i: nat, b: bool) {
    ms.Members? &&
    ((Reads(ms.name, "evaluations", Folded) && ms.value.Array? && SaysInArray(ms.value.values, i, b))
     || SaysAt(ms.rest, i, b))
  }

  lemma {:induction false} SingleSaid(ms: Members, out: Single, b: bool)
    requires FillSingle(ms, out).Some? && FillSingle(ms, out).value.decision == Some(b)
    ensures out.decision == Some(b) || SaysOne(ms, b)
  {
    if ms.Members? {
      var out' :=
        if Reads(ms.name, "decision", Folded) then
          out.(decision := if ms.value.Bool? then Some(ms.value.b) else None)
        else if Reads(ms.name, "context", Folded) then out.(context := Some(ms.value))
        else out;
      SingleSaid(ms.rest, out', b);
    }
  }

  lemma SetSaid(h: Value, n: nat, backing: seq<Single>, r: seq<Single>, i: nat, b: bool)
    requires n <= |backing| && SetAt(h, n, backing) == Some(r)
    requires i < |r| && r[i].decision == Some(b)
    ensures (i < |backing| && backing[i].decision == Some(b)) || (i == n && h.Object? && SaysOne(h.members, b))
  {
    var before := if n < |backing| then backing[n] else BLANK;
    if i == n && h.Object? {
      SingleSaid(h.members, before, b);
    }
  }

  lemma {:induction false} ArraySaid(vs: Values, n: nat, backing: seq<Single>, r: seq<Single>, i: nat, b: bool)
    requires n <= |backing| && FillArray(vs, n, backing) == Some(r)
    requires i < |r| && r[i].decision == Some(b)
    ensures (i < |backing| && backing[i].decision == Some(b)) || (i >= n && SaysInArray(vs, i - n, b))
    decreases vs
  {
    if vs.Values? {
      var next := FillStep(vs, n, backing, r);
      ArraySaid(vs.tail, n + 1, next, r, i, b);
      if i < |next| && next[i].decision == Some(b) {
        SetSaid(vs.head, n, backing, next, i, b);
      }
    }
  }

  // Position i of the backing array holds decision b.
  predicate Holds(s: Slice, i: nat, b: bool) { i < |s.backing| && s.backing[i].decision == Some(b) }

  lemma NextSaid(x: Value, out: Slice, i: nat, b: bool)
    requires NextSlice(x, out).Some? && Holds(NextSlice(x, out).value, i, b)
    ensures Holds(out, i, b) || (x.Array? && SaysInArray(x.values, i, b))
  {
    if x.Array? && x.values.Values? {
      ArraySaid(x.values, 0, out.backing, NextSlice(x, out).value.backing, i, b);
    }
  }

  lemma {:induction false} BatchSaid(ms: Members, out: Slice, i: nat, b: bool)
    requires Sound(out) && FillBatch(ms, out).Some? && Holds(FillBatch(ms, out).value, i, b)
    ensures Holds(out, i, b) || SaysAt(ms, i, b)
  {
    if ms.Members? {
      if Reads(ms.name, "evaluations", Folded) {
        var next := NextSlice(ms.value, out).value;
        BatchSaid(ms.rest, next, i, b);
        if Holds(next, i, b) {
          NextSaid(ms.value, out, i, b);
        }
      } else {
        BatchSaid(ms.rest, out, i, b);
      }
    }
  }

  /** Every decoded decision is a boolean the body states, at the same position. */
  lemma DecisionWasSaid(v: Value, ss: seq<Single>, i: nat, b: bool)
    requires DecodeBatch(v) == Some(Some(ss)) && i < |ss| && ss[i].decision == Some(b)
    ensures v.Object? && SaysAt(v.members, i, b)
  {
    BatchIs(v, ss);
    BatchSaid(v.members, Slice(None, []), i, b);
  }

  lemma BatchIs(v: Value, ss: seq<Single>)
    requires DecodeBatch(v) == Some(Some(ss))
    ensures v.Object? && FillBatch(v.members, Slice(None, [])).Some?
    ensures ss <= FillBatch(v.members, Slice(None, [])).value.backing
  {
    match v
    case Object(ms) =>
      var s := FillBatch(ms, Slice(None, []));
      assert ss == s.value.backing[..s.value.len.value];
    case _ =>
  }

  lemma SingleWasSaid(v: Value, b: bool)
    requires DecodeSingle(v).Some? && DecodeSingle(v).value.decision == Some(b)
    ensures v.Object? && SaysOne(v.members, b)
  {
    if v.Object? {
      SingleSaid(v.members, BLANK, b);
    }
  }

  // ----- exactly what a value decodes to

  // Every member named decision is a boolean or null.
  predicate Decidable(ms: Members) {
    ms.Members? ==>
      && (Reads(ms.name, "decision", Folded) ==> ms.value.Null? || ms.value.Bool?)
      && Decidable(ms.rest)
  }

  predicate Fillable(v: Value) { v.Null? || (v.Object? && Decidable(v.members)) }

  // The decision that an object gives, over what was there before.
  function GivenDecision(ms: Members, before: Option<bool>): Option<bool> {
    match Field(ms, "decision", Folded)
    case None => before
    case Some(Bool(b)) => Some(b)
    case Some(_) => None
  }

  function GivenContext(ms: Members, before: Option<Value>): Option<Value> {
    var c := Field(ms, "context", Folded);
    if c.Some? then c else before
  }

  function Over(v: Value, before: Single): Single {
    if v.Object? then Single(GivenDecision(v.members, before.decision), GivenContext(v.members, before.context))
    else before
  }

  lemma {:induction false} FillDecision(ms: Members, out: Single)
    ensures FillSingle(ms, out).Some? <==> Decidable(ms)
    ensures Decidable(ms) ==> FillSingle(ms, out).value.decision == GivenDecision(ms, out.decision)
  {
    if ms.Members? {
      var out' :=
        if Reads(ms.name, "decision", Folded) then
          out.(decision := if ms.value.Bool? then Some(ms.value.b) else None)
        else if Reads(ms.name, "context", Folded) then out.(context := Some(ms.value))
        else out;
      FillDecision(ms.rest, out');
    }
  }

  lemma {:induction false} FillContext(ms: Members, out: Single)
    requires Decidable(ms) && Fold("decision") != Fold("context")
    ensures FillSingle(ms, out).Some? && FillSingle(ms, out).value.context == GivenContext(ms, out.context)
  {
    if ms.Members? {
      var out' :=
        if Reads(ms.name, "decision", Folded) then
          out.(decision := if ms.value.Bool? then Some(ms.value.b) else None)
        else if Reads(ms.name, "context", Folded) then out.(context := Some(ms.value))
        else out;
      FillContext(ms.rest, out');
    }
  }

  /** Decoding a value: each field is what its last member says, or what was there before. */
  lemma IntoExactly(v: Value, before: Single)
    ensures DecodeInto(v, before) == if Fillable(v) then Some(Over(v, before)) else None
  {
    if v.Object? {
      FillDecision(v.members, before);
      if Decidable(v.members) {
        FoldDiffers();
        FillContext(v.members, before);
      }
    }
  }

  // The value states decision b: nothing else than null or a boolean is given as the
  // decision, and the last one given is b.
  predicate States(v: Value, b: bool) {
    v.Object? && Decidable(v.members) && Field(v.members, "decision", Folded) == Some(Bool(b))
  }

  predicate StatesSome(v: Value) { States(v, true) || States(v, false) }

  function ContextOf(v: Value): Option<Value> { if v.Object? then Field(v.members, "context", Folded) else None }

  lemma OverBlank(v: Value)
    ensures Fillable(v) && Over(v, BLANK).decision.Some? <==> StatesSome(v)
    ensures StatesSome(v) ==> States(v, Over(v, BLANK).decision.value)
    ensures Over(v, BLANK).context == ContextOf(v)
  {
    if v.Object? && Field(v.members, "decision", Folded).Some? {
      var d := Field(v.members, "decision", Folded).value;
      if d.Bool? {
        assert d == if d.b then Bool(true) else Bool(false);
      }
    }
  }

  /** A value decodes to a decision exactly when it states that, and to its own context. */
  lemma StatesExactly(v: Value)
    ensures DecodeSingle(v).Some? && DecodeSingle(v).value.decision.Some? <==> StatesSome(v)
    ensures StatesSome(v) ==> States(v, DecodeSingle(v).value.decision.value)
    ensures StatesSome(v) ==> DecodeSingle(v).value.context == ContextOf(v)
  {
    IntoExactly(v, BLANK);
    OverBlank(v);
  }

  // ----- exactly what a body decodes to

  function At(backing: seq<Single>, i: nat): Single { if i < |backing| then backing[i] else BLANK }

  lemma {:induction false} FillArrayWhen(vs: Values, n: nat, backing: seq<Single>)
    requires n <= |backing|
    ensures FillArray(vs, n, backing).Some? <==> forall v | v in Elements(vs) :: Fillable(v)
    decreases vs
  {
    if vs.Values? {
      IntoExactly(vs.head, At(backing, n));
      assert forall v | v in Elements(vs) :: v == vs.head || v in Elements(vs.tail);
      if Fillable(vs.head) {
        FillArrayWhen(vs.tail, n + 1, SetAt(vs.head, n, backing).value);
      } else {
        assert vs.head in Elements(vs);
      }
    }
  }

  // Position j of the backing array after an array was decoded into it from n on.
  lemma {:induction false} FillArrayAt(vs: Values, n: nat, backing: seq<Single>, r: seq<Single>, j: nat)
    requires n <= |backing| && FillArray(vs, n, backing) == Some(r)
    ensures At(r, j) ==
      if n <= j < n + |Elements(vs)| then Over(Elements(vs)[j - n], At(backing, j)) else At(backing, j)
    decreases vs
  {
    if vs.Values? {
      var next := FillStep(vs, n, backing, r);
      IntoExactly(vs.head, At(backing, n));
      FillArrayAt(vs.tail, n + 1, next, r, j);
      SetAtAt(vs.head, n, backing, next, j);
      if j >= n {
        ElementAt(vs, j - n);
      }
    }
  }

  lemma FillStep(vs: Values, n: nat, backing: seq<Single>, r: seq<Single>) returns (next: seq<Single>)
    requires vs.Values? && n <= |backing| && FillArray(vs, n, backing) == Some(r)
    ensures SetAt(vs.head, n, backing) == Some(next) && n + 1 <= |next|
    ensures DecodeInto(vs.head, At(backing, n)).Some?
    ensures FillArray(vs.tail, n + 1, next) == Some(r)
  {
    next := SetAt(vs.head, n, backing).value;
  }

  lemma ElementAt(vs: Values, i: nat)
    requires vs.Values?
    ensures i < |Elements(vs)| <==> i == 0 || i - 1 < |Elements(vs.tail)|
    ensures i < |Elements(vs)| ==> Elements(vs)[i] == if i == 0 then vs.head else Elements(vs.tail)[i - 1]
  {
  }

  lemma SetAtAt(h: Value, n: nat, backing: seq<Single>, next: seq<Single>, j: nat)
    requires n <= |backing| && SetAt(h, n, backing) == Some(next)
    ensures At(next, j) == if j == n then DecodeInto(h, At(backing, n)).value else At(backing, j)
  {
  }

  // Every one of these values can be decoded as evaluations.
  predicate AllFillable(xs: seq<Value>) {
    forall x | x in xs :: x.Null? || (x.Array? && forall v | v in Elements(x.values) :: Fillable(v))
  }

  // What stands at position i after these values were decoded as evaluations, one after
  // the other: each field is from the last array that gives it, since the slice was last
  // set to null or to an empty array.
  function Standing(xs: seq<Value>, i: nat): Single {
    if xs == [] then BLANK
    else
      match xs[|xs| - 1]
      case Array(Values(h, t)) =>
        var vs := Elements(Values(h, t));
        var before := Standing(xs[..|xs| - 1], i);
        if i < |vs| then Over(vs[i], before) else before
      case _ => BLANK
  }

  // The slice after these values.
  function FilledFrom(xs: seq<Value>): (r: Option<Slice>)
    ensures r.Some? ==> Sound(r.value)
  {
    if xs == [] then Some(Slice(None, []))
    else
      var s :- FilledFrom(xs[..|xs| - 1]);
      NextSlice(xs[|xs| - 1], s)
  }

  lemma NextExactly(x: Value, out: Slice)
    ensures NextSlice(x, out).Some? <==> AllFillable([x])
    ensures NextSlice(x, out).Some? ==>
      NextSlice(x, out).value.len == if x.Array? then Some(|Elements(x.values)|) else None
  {
    if x.Array? && x.values.Values? {
      FillArrayWhen(x.values, 0, out.backing);
    }
    assert x in [x];
  }

  lemma NextAt(x: Value, out: Slice, i: nat)
    requires NextSlice(x, out).Some?
    ensures At(NextSlice(x, out).value.backing, i) ==
      if x.Array? && x.values.Values? then
        if i < |Elements(x.values)| then Over(Elements(x.values)[i], At(out.backing, i)) else At(out.backing, i)
      else BLANK
  {
    if x.Array? && x.values.Values? {
      FillArrayAt(x.values, 0, out.backing, NextSlice(x, out).value.backing, i);
    }
  }

  lemma {:induction false} FilledExactly(xs: seq<Value>)
    ensures FilledFrom(xs).Some? <==> AllFillable(xs)
    ensures FilledFrom(xs).Some? ==>
      FilledFrom(xs).value.len ==
        if xs != [] && xs[|xs| - 1].Array? then Some(|Elements(xs[|xs| - 1].values)|) else None
  {
    if xs != [] {
      var before, x := xs[..|xs| - 1], xs[|xs| - 1];
      assert xs == before + [x];
      FilledExactly(before);
      if FilledFrom(before).Some? {
        NextExactly(x, FilledFrom(before).value);
      }
    }
  }

  lemma {:induction false} FilledAt(xs: seq<Value>, i: nat)
    requires FilledFrom(xs).Some?
    ensures At(FilledFrom(xs).value.backing, i) == Standing(xs, i)
  {
    if xs != [] {
      var before := xs[..|xs| - 1];
      FilledAt(before, i);
      NextAt(xs[|xs| - 1], FilledFrom(before).value, i);
    }
  }

  lemma {:induction false} NoneStays(xs: seq<Value>, ys: seq<Value>)
    requires FilledFrom(xs).None?
    ensures FilledFrom(xs + ys).None?
  {
    if ys == [] {
      assert xs + ys == xs;
    } else {
      var before := ys[..|ys| - 1];
      assert (xs + ys)[..|xs + ys| - 1] == xs + before;
      NoneStays(xs, before);
    }
  }

  // The members decoded as evaluations, in order.
  function Evaluations(ms: Members): seq<Value> { ReadAll(ms, "evaluations") }

  lemma EvaluationsFirst(ms: Members)
    requires ms.Members?
    ensures Evaluations(ms) ==
      if Reads(ms.name, "evaluations", Folded) then [ms.value] + Evaluations(ms.rest) else Evaluations(ms.rest)
  {
    assert [] + Evaluations(ms.rest) == Evaluations(ms.rest);
  }

  lemma FilledNext(xs: seq<Value>, x: Value, out: Slice)
    requires FilledFrom(xs) == Some(out)
    ensures FilledFrom(xs + [x]) == NextSlice(x, out)
  {
    assert (xs + [x])[..|xs|] == xs;
  }

  lemma {:induction false} FillBatchFrom(ms: Members, xs: seq<Value>, out: Slice)
    requires FilledFrom(xs) == Some(out)
    ensures FillBatch(ms, out) == FilledFrom(xs + Evaluations(ms))
  {
    if ms.NoMembers? {
      assert xs + [] == xs;
    } else {
      EvaluationsFirst(ms);
      if Reads(ms.name, "evaluations", Folded) {
        FilledNext(xs, ms.value, out);
        Regroup(xs, ms.value, Evaluations(ms.rest));
        if NextSlice(ms.value, out).Some? {
          FillBatchFrom(ms.rest, xs + [ms.value], NextSlice(ms.value, out).value);
        } else {
          NoneStays(xs + [ms.value], Evaluations(ms.rest));
        }
      } else {
        FillBatchFrom(ms.rest, xs, out);
      }
    }
  }

  lemma Regroup(xs: seq<Value>, x: Value, ys: seq<Value>)
    ensures xs + ([x] + ys) == xs + [x] + ys
  {
  }

  // The elements of the last of these values, when that is an array.
  function LastArray(xs: seq<Value>): Option<seq<Value>> {
    if xs != [] && xs[|xs| - 1].Array? then Some(Elements(xs[|xs| - 1].values)) else None
  }

  // The elements of the last evaluations member, when that is an array.
  function Stated(ms: Members): Option<seq<Value>> { LastArray(Evaluations(ms)) }

  // What a slice filled from xs holds: the elements of the last array, each as it stands.
  predicate Holding(d: Option<seq<Single>>, xs: seq<Value>) {
    && (d.Some? <==> LastArray(xs).Some?)
    && (d.Some? ==>
          && |d.value| == |LastArray(xs).value|
          && forall i | 0 <= i < |d.value| :: d.value[i] == Standing(xs, i))
  }

  lemma FilledHolds(xs: seq<Value>, s: Slice)
    requires FilledFrom(xs) == Some(s)
    ensures Holding(if s.len.None? then None else Some(s.backing[..s.len.value]), xs)
  {
    FilledExactly(xs);
    forall i: nat ensures At(s.backing, i) == Standing(xs, i) {
      FilledAt(xs, i);
    }
  }

  /**
    What any JSON object decodes to, repeated members included: an error unless every
    evaluations member is null or an array of fillable values; and otherwise as many
    elements as the last one has, each as it stands.
   */
  lemma DecodedAlways(ms: Members)
    ensures DecodeBatch(Object(ms)).Some? <==> AllFillable(Evaluations(ms))
    ensures DecodeBatch(Object(ms)).Some? ==> Holding(DecodeBatch(Object(ms)).value, Evaluations(ms))
  {
    var xs := Evaluations(ms);
    DecodedFrom(ms);
    FilledExactly(xs);
    if FilledFrom(xs).Some? {
      FilledHolds(xs, FilledFrom(xs).value);
    }
  }

  lemma DecodedFrom(ms: Members)
    ensures var s := FilledFrom(Evaluations(ms));
      DecodeBatch(Object(ms)) ==
        if s.None? then None
        else if s.value.len.None? then Some(None)
        else Some(Some(s.value.backing[..s.value.len.value]))
  {
    FillBatchFrom(ms, [], Slice(None, []));
    assert [] + Evaluations(ms) == Evaluations(ms);
  }

  // ----- bodies with one evaluations member

  // Each element has a decision.
  predicate DecidedEach(ss: seq<Single>) { forall i | 0 <= i < |ss| :: ss[i].decision.Some? }

  // No more than one member is read under this name.
  predicate AtMostOne(ms: Members, name: string) { |ReadAll(ms, name)| <= 1 }

  lemma StandingAlone(xs: seq<Value>, i: nat)
    requires |xs| == 1 && LastArray(xs).Some? && i < |LastArray(xs).value|
    ensures Standing(xs, i) == Over(LastArray(xs).value[i], BLANK)
  {
    assert xs[..0] == [] && Standing([], i) == BLANK;
    assert xs[0].values.Values?;
  }

  lemma AloneFillable(xs: seq<Value>)
    requires |xs| == 1 && LastArray(xs).Some?
    ensures AllFillable(xs) <==> forall v | v in LastArray(xs).value :: Fillable(v)
  {
    assert xs == [xs[0]];
  }

  // The one array of xs, decoded.
  lemma HoldingAlone(d: Option<seq<Single>>, xs: seq<Value>)
    requires |xs| == 1 && AllFillable(xs) && Holding(d, xs) && d.Some?
    ensures DecidedEach(d.value) <==> forall v | v in LastArray(xs).value :: StatesSome(v)
    ensures DecidedEach(d.value) ==>
      forall i | 0 <= i < |d.value| ::
        && States(LastArray(xs).value[i], d.value[i].decision.value)
        && d.value[i].context == ContextOf(LastArray(xs).value[i])
  {
    var vs := LastArray(xs).value;
    AloneFillable(xs);
    forall i | 0 <= i < |vs|
      ensures d.value[i].decision.Some? <==> StatesSome(vs[i])
      ensures StatesSome(vs[i]) ==> States(vs[i], d.value[i].decision.value)
      ensures d.value[i].context == ContextOf(vs[i])
    {
      assert vs[i] in vs;
      StandingAlone(xs, i);
      OverBlank(vs[i]);
    }
  }

  /**
    A body with at most one evaluations member decodes to a list of decisions, none of
    them missing, exactly when that member is an array whose every element states one;
    and then to the ones stated, in order, each with its own context.
   */
  lemma DecodedExactly(ms: Members)
    requires AtMostOne(ms, "evaluations")
    ensures var d := DecodeBatch(Object(ms));
      d.Some? && d.value.Some? && DecidedEach(d.value.value)
      <==> Stated(ms).Some? && forall v | v in Stated(ms).value :: StatesSome(v)
    ensures var d := DecodeBatch(Object(ms));
      d.Some? && d.value.Some? && DecidedEach(d.value.value) ==>
        && Stated(ms).Some? && |d.value.value| == |Stated(ms).value|
        && forall i | 0 <= i < |d.value.value| ::
             && States(Stated(ms).value[i], d.value.value[i].decision.value)
             && d.value.value[i].context == ContextOf(Stated(ms).value[i])
  {
    DecodedAlways(ms);
    AloneDecided(DecodeBatch(Object(ms)), Evaluations(ms));
  }

  lemma AloneDecided(d: Option<Option<seq<Single>>>, xs: seq<Value>)
    requires |xs| <= 1
    requires (d.Some? <==> AllFillable(xs)) && (d.Some? ==> Holding(d.value, xs))
    ensures d.Some? && d.value.Some? && DecidedEach(d.value.value)
       <==> LastArray(xs).Some? && forall v | v in LastArray(xs).value :: StatesSome(v)
    ensures d.Some? && d.value.Some? && DecidedEach(d.value.value) ==>
      && LastArray(xs).Some? && |d.value.value| == |LastArray(xs).value|
      && forall i | 0 <= i < |d.value.value| ::
           && States(LastArray(xs).value[i], d.value.value[i].decision.value)
           && d.value.value[i].context == ContextOf(LastArray(xs).value[i])
  {
    if LastArray(xs).Some? {
      AloneFillable(xs);
      forall v | v in LastArray(xs).value && StatesSome(v) ensures Fillable(v) {
        OverBlank(v);
      }
      if d.Some? {
        HoldingAlone(d.value, xs);
      }
    }
  }

  // The value has a member read as its decision.
  predicate HasDecision(v: Value) { v.Object? && Field(v.members, "decision", Folded).Some? }

  lemma OverStates(v: Value, before: Single)
    requires Fillable(v) && Over(v, before).decision.Some?
    ensures States(v, Over(v, before).decision.value) <==> HasDecision(v)
  {
  }

  lemma HoldingLast(ss: seq<Single>, xs: seq<Value>, i: nat)
    requires AllFillable(xs) && Holding(Some(ss), xs) && i < |ss| && ss[i].decision.Some?
    ensures States(LastArray(xs).value[i], ss[i].decision.value) <==> HasDecision(LastArray(xs).value[i])
  {
    var x, vs := xs[|xs| - 1], LastArray(xs).value;
    assert x in xs && vs[i] in vs;
    assert ss[i] == Over(vs[i], Standing(xs[..|xs| - 1], i));
    OverStates(vs[i], Standing(xs[..|xs| - 1], i));
  }

  /**
    Whatever the body: as many decisions are decoded as the last evaluations member has
    elements, and decision i is the one that element i states exactly when that element
    has a decision at all.
   */
  lemma LastStatedExactly(ms: Members, ss: seq<Single>)
    requires DecodeBatch(Object(ms)) == Some(Some(ss)) && DecidedEach(ss)
    ensures Stated(ms).Some? && |Stated(ms).value| == |ss|
    ensures forall i | 0 <= i < |ss| ::
              States(Stated(ms).value[i], ss[i].decision.value) <==> HasDecision(Stated(ms).value[i])
  {
    DecodedAlways(ms);
    forall i | 0 <= i < |ss|
      ensures States(Stated(ms).value[i], ss[i].decision.value) <==> HasDecision(Stated(ms).value[i])
    {
      HoldingLast(ss, Evaluations(ms), i);
    }
  }

  // ----- a conforming answer is decoded as it was meant

  lemma {:induction false} SoleRead(ms: Members, name: string, x: Value)
    requires Sole(ms, name, x)
    ensures ReadAll(ms, name) == [x] && Field(ms, name, Folded) == Some(x)
  {
    if Reads(ms.name, name, Folded) {
      LastRead(ms.rest, name);
    } else {
      SoleRead(ms.rest, name, x);
    }
  }

  lemma {:induction false} SoleDecidable(ms: Members, b: bool)
    requires Sole(ms, "decision", Bool(b))
    ensures Decidable(ms)
  {
    if Reads(ms.name, "decision", Folded) {
      NoneDecidable(ms.rest);
    } else {
      SoleDecidable(ms.rest, b);
    }
  }

  lemma {:induction false} NoneDecidable(ms: Members)
    requires Field(ms, "decision", Folded).None?
    ensures Decidable(ms)
  {
    if ms.Members? {
      NoneDecidable(ms.rest);
    }
  }

  lemma AnswerStates(v: Value, b: bool)
    requires AnswersOne(v, b)
    ensures States(v, b)
  {
    SoleRead(v.members, "decision", Bool(b));
    SoleDecidable(v.members, b);
  }

  lemma OneDecoded(v: Value, b: bool)
    requires AnswersOne(v, b)
    ensures DecodeSingle(v).Some? && DecodeSingle(v).value.decision == Some(b)
  {
    AnswerStates(v, b);
    StatesExactly(v);
  }

  lemma AllDecoded(v: Value, ds: seq<bool>)
    requires AnswersAll(v, ds)
    ensures var r := DecodeBatch(v);
      && r.Some? && r.value.Some? && |r.value.value| == |ds|
      && forall i | 0 <= i < |ds| :: r.value.value[i].decision == Some(ds[i])
  {
    var vs :| Sole(v.members, "evaluations", Array(vs)) && AnswersEach(vs, ds);
    SoleRead(v.members, "evaluations", Array(vs));
    forall i | 0 <= i < |ds| ensures States(Elements(vs)[i], ds[i]) {
      AnswerStates(Elements(vs)[i], ds[i]);
    }
    DecodedExactly(v.members);
  }

  // ----- the metadata document

  const METADATA_STRINGS := [
    "policy_decision_point", "access_evaluation_endpoint", "access_evaluations_endpoint",
    "search_subject_endpoint", "search_resource_endpoint", "search_action_endpoint", "signed_metadata"]
  const METADATA_RAW := ["capabilities", "supported_evaluation_options"]

  datatype Metadata = Metadata(strings: map<string, string>, raw: map<string, Value>)

  // The first of names that the key reads, in any case.
  function FieldRead(k: seq<Item>, names: seq<string>): Option<string> {
    if names == [] then None
    else if Reads(k, names[0], Folded) then Some(names[0])
    else FieldRead(k, names[1..])
  }

  // The metadata after one member.
  function NextMetadata(k: seq<Item>, x: Value, out: Metadata): Option<Metadata> {
    SetField(FieldRead(k, METADATA_STRINGS), FieldRead(k, METADATA_RAW), x, out)
  }

  function SetField(text: Option<string>, raw: Option<string>, x: Value, out: Metadata): Option<Metadata> {
    match text
    case Some(n) =>
      (match x
       case String(s) => Some(out.(strings := out.strings[n := Unescape(s)]))
       case Null => Some(out)
       case _ => None)
    case None =>
      match raw
      case Some(n) => Some(out.(raw := out.raw[n := x]))
      case None => Some(out)
  }

  function FillMetadata(ms: Members, out: Metadata): Option<Metadata> {
    match ms
    case NoMembers => Some(out)
    case Members(k, x, rest) =>
      var next :- NextMetadata(k, x, out);
      FillMetadata(rest, next)
  }

  function DecodeMetadata(v: Value): Option<Metadata> {
    match v
    case Null => Some(Metadata(map[], map[]))
    case Object(ms) => FillMetadata(ms, Metadata(map[], map[]))
    case _ => None
  }

  // A string field that the document does not set is empty.
  function StringField(m: Metadata, name: string): string {
    if name in m.strings then m.strings[name] else ""
  }

  // A member that is read under name holds the string t.
  predicate SaysString(ms: Members, name: string, t: string) {
    ms.Members? &&
    ((Reads(ms.name, name, Folded) && ms.value.String? && Unescape(ms.value.items) == t)
     || SaysString(ms.rest, name, t))
  }

  lemma {:induction false} FieldReadReads(k: seq<Item>, names: seq<string>)
    ensures FieldRead(k, names).Some? ==> Reads(k, FieldRead(k, names).value, Folded)
  {
    if names != [] && !Reads(k, names[0], Folded) {
      FieldReadReads(k, names[1..]);
    }
  }

  lemma NextMetadataSaid(k: seq<Item>, x: Value, out: Metadata, n: string)
    requires NextMetadata(k, x, out).Some?
    ensures var t := StringField(NextMetadata(k, x, out).value, n);
      t == StringField(out, n) || (Reads(k, n, Folded) && x.String? && Unescape(x.items) == t)
  {
    FieldReadReads(k, METADATA_STRINGS);
    SetFieldSaid(FieldRead(k, METADATA_STRINGS), FieldRead(k, METADATA_RAW), x, out, n);
  }

  lemma SetFieldSaid(text: Option<string>, raw: Option<string>, x: Value, out: Metadata, n: string)
    requires SetField(text, raw, x, out).Some?
    ensures var t := StringField(SetField(text, raw, x, out).value, n);
      t == StringField(out, n) || (text == Some(n) && x.String? && Unescape(x.items) == t)
  {
  }

  lemma {:induction false} FillMetadataSaid(ms: Members, out: Metadata, n: string)
    requires FillMetadata(ms, out).Some?
    ensures var t := StringField(FillMetadata(ms, out).value, n);
      t == StringField(out, n) || SaysString(ms, n, t)
  {
    if ms.Members? {
      var next := NextMetadata(ms.name, ms.value, out);
      NextMetadataSaid(ms.name, ms.value, out, n);
      FillMetadataSaid(ms.rest, next.value, n);
    }
  }

  /** Every string of decoded metadata is one that the document states under its name. */
  lemma MetadataSaid(v: Value, n: string)
    requires DecodeMetadata(v).Some? && StringField(DecodeMetadata(v).value, n) != ""
    ensures v.Object? && SaysString(v.members, n, StringField(DecodeMetadata(v).value, n))
  {
    if v.Object? {
      FillMetadataSaid(v.members, Metadata(map[], map[]), n);
    }
  }
}
