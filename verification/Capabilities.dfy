/** Removing built-ins from a capability set that is shared and must stay as it is. */
module Capabilities {
  import opened Wrappers

  datatype Builtin = Builtin(name: string, decl: string)

  // allowNet: None means any host, Some([]) means no host.
  class CapabilitySet {
    var builtins: seq<Builtin>
    var allowNet: Option<seq<string>>
    // Everything else in the structure, which is copied as it is.
    var features: seq<string>

    constructor (builtins: seq<Builtin>, allowNet: Option<seq<string>>, features: seq<string>)
      ensures this.builtins == builtins && this.allowNet == allowNet && this.features == features
    {
      this.builtins, this.allowNet, this.features := builtins, allowNet, features;
    }
  }

  // The built-ins that names does (named) or does not mention, in order.
  function Select(bs: seq<Builtin>, names: seq<string>, named: bool): seq<Builtin> {
    if bs == [] then []
    else
      var b := bs[|bs| - 1];
      Select(bs[..|bs| - 1], names, named) + if (b.name in names) == named then [b] else []
  }

  method WithoutBuiltins(caps: CapabilitySet, names: seq<string>) returns (out: CapabilitySet)
    ensures fresh(out)
    ensures unchanged(caps)
    ensures out.builtins == Select(caps.builtins, names, false)
    ensures out.allowNet == Some([]) && out.features == caps.features
  {
    out := new CapabilitySet(caps.builtins, caps.allowNet, caps.features);
    out.builtins := [];
    for i := 0 to |caps.builtins|
      invariant fresh(out) && out.allowNet == caps.allowNet && out.features == caps.features
      invariant out.builtins == Select(caps.builtins[..i], names, false)
    {
      var b := caps.builtins[i];
      assert caps.builtins[..i + 1][..i] == caps.builtins[..i];
      if b.name in names {
        continue;
      }
      out.builtins := out.builtins + [b];
    }
    assert caps.builtins[..|caps.builtins|] == caps.builtins;
    out.allowNet := Some([]);
  }

  /** What is kept and what is removed make up the whole, with multiplicity. */
  lemma {:induction false} SelectPartitions(bs: seq<Builtin>, names: seq<string>)
    ensures multiset(Select(bs, names, false)) + multiset(Select(bs, names, true)) == multiset(bs)
    ensures forall b | b in Select(bs, names, false) :: b.name !in names
    ensures forall b | b in Select(bs, names, true) :: b.name in names
  {
    if bs != [] {
      SelectPartitions(bs[..|bs| - 1], names);
      assert bs == bs[..|bs| - 1] + [bs[|bs| - 1]];
    }
  }

  // The positions of xs inside bs, strictly increasing.
  ghost predicate Embeds(xs: seq<Builtin>, bs: seq<Builtin>, at: seq<nat>) {
    && |at| == |xs|
    && (forall i | 0 <= i < |at| :: at[i] < |bs| && xs[i] == bs[at[i]])
    && forall i, j | 0 <= i < j < |at| :: at[i] < at[j]
  }

  /** What is kept stands in its original order. */
  lemma {:induction false} SelectKeepsOrder(bs: seq<Builtin>, names: seq<string>, named: bool)
    returns (at: seq<nat>)
    ensures Embeds(Select(bs, names, named), bs, at)
  {
    at := [];
    if bs != [] {
      var n := |bs| - 1;
      at := SelectKeepsOrder(bs[..n], names, named);
      if (bs[n].name in names) == named {
        at := at + [n];
      }
    }
  }

  /** Filtering twice is filtering once by both lists. */
  lemma {:induction false} SelectTwice(bs: seq<Builtin>, xs: seq<string>, ys: seq<string>)
    ensures Select(Select(bs, xs, false), ys, false) == Select(bs, xs + ys, false)
  {
    if bs != [] {
      var n := |bs| - 1;
      var b := bs[n];
      SelectTwice(bs[..n], xs, ys);
      var kept, before := Select(bs, xs, false), Select(bs[..n], xs, false);
      if b.name in xs {
        assert kept == before;
      } else {
        assert kept == before + [b];
        assert kept[..|kept| - 1] == before;
      }
    }
  }
}
