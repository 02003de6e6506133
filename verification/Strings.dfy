/** The few functions of Go's strings package that the endpoints, the header and the trace use. */
module Strings {
  // The position of the first c, or |s|.
  function Find(s: string, c: char): (i: nat)
    ensures i <= |s| && (i < |s| ==> s[i] == c)
    ensures forall j | 0 <= j < i :: s[j] != c
  {
    if s == "" || s[0] == c then 0
    else
      var i := 1 + Find(s[1..], c);
      assert forall j | 1 <= j < i :: s[j] == s[1..][j - 1];
      i
  }

  function Head(s: string, c: char): string { s[..Find(s, c)] }

  // What follows the first c; nothing when there is none.
  function After(s: string, c: char): string {
    var i := Find(s, c);
    if i < |s| then s[i + 1..] else ""
  }

  lemma FindIn(a: string, c: char, b: string)
    requires c !in a
    ensures Head(a + [c] + b, c) == a && After(a + [c] + b, c) == b
  {
    var s := a + [c] + b;
    assert s[|a|] == c && forall j | 0 <= j < |a| :: s[j] == a[j];
    assert Find(s, c) == |a|;
  }

  lemma FindNone(a: string, c: char)
    requires c !in a
    ensures Find(a, c) == |a| && Head(a, c) == a && After(a, c) == ""
  {
  }

  predicate HasSuffix(s: string, p: string) { |p| <= |s| && s[|s| - |p|..] == p }

  function TrimSuffix(s: string, p: string): string {
    if HasSuffix(s, p) then s[..|s| - |p|] else s
  }

  function TrimRight(s: string, c: char): (r: string)
    ensures r <= s && (r != "" ==> r[|r| - 1] != c)
    ensures forall i | |r| <= i < |s| :: s[i] == c
  {
    if s != "" && s[|s| - 1] == c then TrimRight(s[..|s| - 1], c) else s
  }

  // strings.Split with a one-byte separator.
  function Split(s: string, c: char): (ps: seq<string>)
    ensures ps != []
    decreases |s|
  {
    if c in s then [Head(s, c)] + Split(After(s, c), c) else [s]
  }

  function Join(ps: seq<string>, c: char): string {
    if ps == [] then ""
    else if |ps| == 1 then ps[0]
    else ps[0] + [c] + Join(ps[1..], c)
  }

  lemma JoinFirst(p: string, ps: seq<string>, c: char)
    requires ps != []
    ensures Join([p] + ps, c) == p + [c] + Join(ps, c)
  {
    assert ([p] + ps)[1..] == ps;
  }

  /** Joining what Split returns gives the text back. */
  lemma {:induction false} JoinSplit(s: string, c: char)
    ensures Join(Split(s, c), c) == s
    decreases |s|
  {
    if c in s {
      var p, rest := Head(s, c), After(s, c);
      JoinSplit(rest, c);
      JoinFirst(p, Split(rest, c), c);
      assert s == p + [c] + rest;
    }
  }

  // s[a..b] is between two separators, or the ends of s, with none inside.
  predicate IsPiece(s: string, c: char, a: nat, b: nat) {
    && a <= b <= |s| && c !in s[a..b]
    && (a == 0 || s[a - 1] == c)
    && (b == |s| || s[b] == c)
  }

  // The number of separators.
  function Count(s: string, c: char): nat {
    if s == "" then 0 else (if s[0] == c then 1 else 0) + Count(s[1..], c)
  }

  lemma {:induction false} CountJoin(a: string, b: string, c: char)
    ensures Count(a + b, c) == Count(a, c) + Count(b, c)
  {
    if a == "" {
      assert a + b == b;
    } else {
      assert (a + b)[1..] == a[1..] + b;
      CountJoin(a[1..], b, c);
    }
  }

  lemma {:induction false} CountNone(s: string, c: char)
    requires c !in s
    ensures Count(s, c) == 0
  {
    if s != "" {
      assert forall x | x in s[1..] :: x in s;
      CountNone(s[1..], c);
    }
  }

  lemma CountAround(a: string, c: char, b: string)
    requires c !in a
    ensures Count(a + [c] + b, c) == 1 + Count(b, c)
  {
    CountNone(a, c);
    CountJoin(a + [c], b, c);
    CountJoin(a, [c], c);
    assert Count([c], c) == 1;
  }

  lemma AfterFirst(s: string, c: char)
    requires c in s
    ensures var n := Find(s, c);
      n < |s| && s[n] == c && c !in s[..n] && s == s[..n] + [c] + After(s, c)
  {
  }

  lemma CountAfter(s: string, c: char)
    requires c in s
    ensures Count(s, c) == 1 + Count(After(s, c), c)
  {
    AfterFirst(s, c);
    CountAround(s[..Find(s, c)], c, After(s, c));
  }

  lemma SplitStep(s: string, c: char, i: nat)
    requires c in s
    ensures Split(s, c) != [] && Split(s, c)[0] == s[..Find(s, c)]
    ensures |Split(s, c)| == 1 + |Split(After(s, c), c)|
    ensures 0 < i < |Split(s, c)| ==> Split(s, c)[i] == Split(After(s, c), c)[i - 1]
  {
  }

  lemma FirstIsPiece(s: string, c: char)
    requires c in s
    ensures IsPiece(s, c, 0, Find(s, c)) && s[0..Find(s, c)] == s[..Find(s, c)] && Count(s[..0], c) == 0
  {
    CountAfter(s, c);
  }

  lemma WholeIsPiece(s: string, c: char)
    requires c !in s
    ensures IsPiece(s, c, 0, |s|) && s[0..|s|] == s && Count(s[..0], c) == 0 && Split(s, c) == [s]
  {
  }

  // t is what follows the first separator, which ends at n.
  predicate Follows(s: string, c: char, n: nat, t: string) {
    0 < n <= |s| && s[n - 1] == c && c !in s[..n - 1] && t == s[n..]
  }

  lemma FollowsFirst(s: string, c: char)
    requires c in s
    ensures Follows(s, c, Find(s, c) + 1, After(s, c)) && |After(s, c)| < |s|
  {
  }

  lemma ShiftSlice(s: string, n: nat, t: string, a: nat, b: nat)
    requires n <= |s| && t == s[n..] && a <= b <= |t|
    ensures n + b <= |s| && s[n + a..n + b] == t[a..b]
  {
  }

  // A piece of t as a piece of s, and the other way round.
  lemma PieceShift(s: string, c: char, n: nat, t: string, a: nat, b: nat)
    requires Follows(s, c, n, t) && a <= b <= |t|
    ensures n + b <= |s| && (IsPiece(t, c, a, b) <==> IsPiece(s, c, n + a, n + b))
  {
    ShiftSlice(s, n, t, a, b);
    assert a > 0 ==> s[n + a - 1] == t[a - 1];
    assert b < |t| ==> s[n + b] == t[b];
  }

  lemma CountShift(s: string, c: char, n: nat, t: string, a: nat)
    requires Follows(s, c, n, t) && a <= |t|
    ensures n + a <= |s| && Count(s[..n + a], c) == 1 + Count(t[..a], c)
  {
    assert s[..n + a] == s[..n - 1] + [c] + t[..a];
    CountAround(s[..n - 1], c, t[..a]);
  }

  /** Element i of Split is the piece with i separators before it. */
  lemma {:induction false} PieceAt(s: string, c: char, i: nat) returns (a: nat, b: nat)
    requires i < |Split(s, c)|
    ensures IsPiece(s, c, a, b) && Split(s, c)[i] == s[a..b] && Count(s[..a], c) == i
    decreases |s|
  {
    if c !in s {
      WholeIsPiece(s, c);
      a, b := 0, |s|;
    } else {
      SplitStep(s, c, i);
      FollowsFirst(s, c);
      if i == 0 {
        FirstIsPiece(s, c);
        a, b := 0, Find(s, c);
      } else {
        var a', b' := PieceAt(After(s, c), c, i - 1);
        a, b := LaterPiece(s, c, Find(s, c) + 1, After(s, c), a', b');
      }
    }
  }

  lemma LaterPiece(s: string, c: char, n: nat, t: string, a': nat, b': nat) returns (a: nat, b: nat)
    requires Follows(s, c, n, t) && IsPiece(t, c, a', b')
    ensures IsPiece(s, c, a, b) && s[a..b] == t[a'..b'] && Count(s[..a], c) == 1 + Count(t[..a'], c)
  {
    a, b := n + a', n + b';
    PieceShift(s, c, n, t, a', b');
    ShiftSlice(s, n, t, a', b');
    CountShift(s, c, n, t, a');
  }

  // Every piece but the first is one of t.
  lemma EarlierPiece(s: string, c: char, n: nat, t: string, a: nat, b: nat) returns (a': nat, b': nat)
    requires Follows(s, c, n, t) && IsPiece(s, c, a, b) && a > 0
    ensures IsPiece(t, c, a', b') && s[a..b] == t[a'..b'] && Count(s[..a], c) == 1 + Count(t[..a'], c)
  {
    assert forall i | 0 <= i < n - 1 :: s[i] == s[..n - 1][i];
    a', b' := a - n, b - n;
    PieceShift(s, c, n, t, a', b');
    ShiftSlice(s, n, t, a', b');
    CountShift(s, c, n, t, a');
  }

  /** Every piece is an element of Split: that of the number of separators before it. */
  lemma {:induction false} PieceIn(s: string, c: char, a: nat, b: nat)
    requires IsPiece(s, c, a, b)
    ensures Count(s[..a], c) < |Split(s, c)| && Split(s, c)[Count(s[..a], c)] == s[a..b]
    decreases |s|
  {
    if c !in s {
      WholeIsPiece(s, c);
      OnlyPiece(s, c, a, b);
    } else {
      FollowsFirst(s, c);
      if a == 0 {
        FirstPiece(s, c, b);
        FirstIsPiece(s, c);
        SplitStep(s, c, 0);
      } else {
        var a', b' := EarlierPiece(s, c, Find(s, c) + 1, After(s, c), a, b);
        PieceIn(After(s, c), c, a', b');
        SplitStep(s, c, Count(s[..a], c));
      }
    }
  }

  lemma OnlyPiece(s: string, c: char, a: nat, b: nat)
    requires c !in s && IsPiece(s, c, a, b)
    ensures a == 0 && b == |s|
  {
  }

  lemma FirstPiece(s: string, c: char, b: nat)
    requires c in s && IsPiece(s, c, 0, b)
    ensures b == Find(s, c)
  {
    assert forall i | 0 <= i < b :: s[i] == s[0..b][i];
  }

  /** There is one more element than there are separators. */
  lemma {:induction false} SplitCount(s: string, c: char)
    ensures |Split(s, c)| == Count(s, c) + 1
    decreases |s|
  {
    if c in s {
      CountAfter(s, c);
      SplitCount(After(s, c), c);
    } else {
      CountNone(s, c);
    }
  }
}
