/** Rendering the collected trace events as a bounded list of lines. */
module TraceFormat {
  import opened Collectors
  import opened Interleavings
  import opened Strings

  // Every line of the rendered events. The renderer is a parameter.
  function FullLines<E>(events: seq<E>, render: seq<E> -> string): seq<string> {
    Split(TrimRight(render(events), '\n'), '\n')
  }

  // The line count and the line length of a formatted trace.
  const LINES := Bounds(MAX_TRACE_LINES, ClipLine, TooLong)

  function Shown<E>(events: seq<E>, render: seq<E> -> string): seq<string> {
    if events == [] then []
    else
      var full := FullLines(events, render);
      Images(LINES, full[..Kept(LINES, full)])
  }

  ghost predicate Shortened<E>(events: seq<E>, dropped: bool, render: seq<E> -> string) {
    dropped || (events != [] &&
      exists i | 0 <= i < |FullLines(events, render)| :: Lost(LINES, FullLines(events, render), i))
  }

  method FormatTrace<E>(events: seq<E>, dropped: bool, render: seq<E> -> string)
    returns (r: seq<string>, truncated: bool)
    ensures r == Shown(events, render)
    ensures truncated <==> Shortened(events, dropped, render)
  {
    if |events| == 0 {
      return [], dropped;
    }
    var full := FullLines(events, render);
    var kept := full;
    truncated := dropped;
    if |kept| > MAX_TRACE_LINES {
      kept := kept[..MAX_TRACE_LINES];
      truncated := true;
    }
    var lines := new string[|kept|](i requires 0 <= i < |kept| => kept[i]);
    assert lines[..] == kept;
    var cut := ClipAll(lines);
    truncated := truncated || cut;
    r := lines[..];
    Formatted(events, dropped, render, kept, r, truncated);
  }

  // The loop of formatTrace: each line is rewritten in place.
  method ClipAll(lines: array<string>) returns (cut: bool)
    modifies lines
    ensures forall j | 0 <= j < lines.Length :: lines[..][j] == ClipLine(old(lines[..])[j])
    ensures cut <==> exists j | 0 <= j < lines.Length :: TooLong(old(lines[..])[j])
  {
    cut := false;
    for i := 0 to lines.Length
      invariant forall j | 0 <= j < i :: lines[j] == ClipLine(old(lines[..])[j])
      invariant forall j | i <= j < lines.Length :: lines[j] == old(lines[..])[j]
      invariant cut <==> exists j | 0 <= j < i :: TooLong(old(lines[..])[j])
    {
      if |lines[i]| > MAX_LINE_BYTES {
        lines[i] := lines[i][..MAX_LINE_BYTES] + MARKER;
        cut := true;
        assert TooLong(old(lines[..])[i]);
      }
    }
  }

  // What the loop leaves is what is shown.
  lemma Formatted<E>(events: seq<E>, dropped: bool, render: seq<E> -> string,
                     kept: seq<string>, r: seq<string>, truncated: bool)
    requires events != []
    requires var full := FullLines(events, render);
      && kept == (if |full| > MAX_TRACE_LINES then full[..MAX_TRACE_LINES] else full)
      && (truncated <==> dropped || |full| > MAX_TRACE_LINES || exists j | 0 <= j < |kept| :: TooLong(kept[j]))
    requires |r| == |kept| && forall j | 0 <= j < |kept| :: r[j] == ClipLine(kept[j])
    ensures r == Shown(events, render)
    ensures truncated <==> Shortened(events, dropped, render)
  {
    var full := FullLines(events, render);
    assert kept == full[..Kept(LINES, full)];
    LongLines(full);
  }

  lemma LongLines(full: seq<string>)
    ensures (exists i | 0 <= i < |full| :: Lost(LINES, full, i))
       <==> |full| > MAX_TRACE_LINES || exists j | 0 <= j < Kept(LINES, full) :: TooLong(full[..Kept(LINES, full)][j])
  {
    if |full| > MAX_TRACE_LINES {
      assert Lost(LINES, full, MAX_TRACE_LINES);
    }
    if i :| 0 <= i < |full| && Lost(LINES, full, i) && i < MAX_TRACE_LINES {
      assert TooLong(full[..Kept(LINES, full)][i]);
    }
    if j :| 0 <= j < Kept(LINES, full) && TooLong(full[..Kept(LINES, full)][j]) {
      assert Lost(LINES, full, j);
    }
  }

  /** At most 200 lines, none longer than 1024 bytes and the marker. */
  lemma ShownBounded<E>(events: seq<E>, render: seq<E> -> string)
    ensures |Shown(events, render)| <= MAX_TRACE_LINES
    ensures forall l | l in Shown(events, render) :: |l| <= MAX_LINE_BYTES + |MARKER|
  {
    assert |MARKER| == 15;
  }

  /** Without the flag, the lines joined are the whole rendering but for trailing newlines. */
  lemma ShownWhole<E>(events: seq<E>, dropped: bool, render: seq<E> -> string)
    requires events != [] && !Shortened(events, dropped, render)
    ensures Join(Shown(events, render), '\n') == TrimRight(render(events), '\n')
  {
    var full := FullLines(events, render);
    JoinSplit(TrimRight(render(events), '\n'), '\n');
    forall i | 0 <= i < |full| ensures ClipLine(full[i]) == full[i] && i < MAX_TRACE_LINES {
      assert !Lost(LINES, full, i);
    }
    assert full[|full| - 1] == full[|full| - 1] && |full| <= MAX_TRACE_LINES;
    assert Shown(events, render) == full;
  }

  /**
    From any interleaving of tracer calls to the result: when the flag is down the lines
    are the rendering of every event that was emitted. (Rendering no events gives nothing.)
   */
  lemma TraceIsLossless<E>(progs: Programs<E>, schedule: seq<nat>, render: seq<E> -> string)
    requires TrimRight(render([]), '\n') == ""
    requires Run(Trace(), progs, schedule).lock.None?
    ensures var s := Run(Trace(), progs, schedule);
      && |s.held.out| <= MAX_TRACE_EVENTS
      && (!Shortened(s.held.out, s.held.dropped > 0, render) ==>
            Join(Shown(s.held.out, render), '\n') == TrimRight(render(Msgs(s.log)), '\n'))
      && (Shortened(s.held.out, s.held.dropped > 0, render) <==>
            || |s.log| > MAX_TRACE_EVENTS
            || (s.held.out != [] && exists i | 0 <= i < |FullLines(s.held.out, render)| ::
                  Lost(LINES, FullLines(s.held.out, render), i)))
  {
    var s := Run(Trace(), progs, schedule);
    var msgs := Msgs(s.log);
    EveryInterleavingIsSequential(Trace(), progs, schedule);
    if s.held.dropped == 0 {
      assert Images(Trace(), msgs[..Kept(Trace(), msgs)]) == msgs;
      if !Shortened(s.held.out, false, render) && msgs != [] {
        ShownWhole(msgs, false, render);
      }
    }
  }

  // ----- the trace as text

  // The rendering without its trailing newlines.
  function Rendered<E>(events: seq<E>, render: seq<E> -> string): string { TrimRight(render(events), '\n') }

  /** There are as many lines as the rendering has, but not more than 200. */
  lemma ShownCount<E>(events: seq<E>, render: seq<E> -> string)
    ensures |Shown(events, render)| ==
      if events == [] then 0
      else
        var lines := Count(Rendered(events, render), '\n') + 1;
        if lines <= 200 then lines else 200
  {
    SplitCount(Rendered(events, render), '\n');
  }

  /**
    Line i of the trace is the text between line break i and the next one, whole, or its
    first 1024 bytes and the marker.
   */
  lemma ShownLine<E>(events: seq<E>, render: seq<E> -> string, i: nat) returns (a: nat, b: nat)
    requires i < |Shown(events, render)|
    ensures var text := Rendered(events, render);
      && IsPiece(text, '\n', a, b) && Count(text[..a], '\n') == i
      && Shown(events, render)[i] ==
           if b - a <= 1024 then text[a..b]
           else text[a..a + 1024] + ['\U{E2}', '\U{80}', '\U{A6}'] + " (truncated)"
  {
    var text := Rendered(events, render);
    a, b := PieceAt(text, '\n', i);
    ShownClips(events, render, i);
    ClipExactly(text[a..b]);
    PartOfPart(text, a, b);
  }

  lemma ShownClips<E>(events: seq<E>, render: seq<E> -> string, i: nat)
    requires i < |Shown(events, render)|
    ensures i < |FullLines(events, render)|
    ensures Shown(events, render)[i] == ClipLine(FullLines(events, render)[i])
  {
    var full := FullLines(events, render);
    assert full[..Kept(LINES, full)][i] == full[i];
  }

  lemma PartOfPart(s: string, a: nat, b: nat)
    requires a <= b <= |s|
    ensures b - a > 1024 ==> s[a..b][..1024] == s[a..a + 1024]
  {
  }

  /** The flag is up exactly when events were dropped, or there are too many or too long lines. */
  lemma ShortenedExactly<E>(events: seq<E>, dropped: bool, render: seq<E> -> string)
    ensures Shortened(events, dropped, render) <==>
      || dropped
      || (events != [] &&
            (|| Count(Rendered(events, render), '\n') >= 200
             || exists a: nat, b: nat :: IsPiece(Rendered(events, render), '\n', a, b) && b - a > 1024))
  {
    var text := Rendered(events, render);
    if events != [] {
      LostExactly(text, FullLines(events, render));
    }
  }

  lemma LostExactly(text: string, full: seq<string>)
    requires full == Split(text, '\n')
    ensures (exists i | 0 <= i < |full| :: Lost(LINES, full, i)) <==>
      Count(text, '\n') >= 200 || exists a: nat, b: nat :: IsPiece(text, '\n', a, b) && b - a > 1024
  {
    SplitCount(text, '\n');
    forall i | 0 <= i < |full| ensures Lost(LINES, full, i) <==> i >= 200 || |full[i]| > 1024 {
    }
    if exists i | 0 <= i < |full| :: Lost(LINES, full, i) {
      var i :| 0 <= i < |full| && Lost(LINES, full, i);
      var a, b := PieceAt(text, '\n', i);
      assert |full[i]| == b - a;
      assert i < 200 ==> IsPiece(text, '\n', a, b) && b - a > 1024;
    }
    if a: nat, b: nat :| IsPiece(text, '\n', a, b) && b - a > 1024 {
      PieceIn(text, '\n', a, b);
      assert Lost(LINES, full, Count(text[..a], '\n'));
    }
    if |full| > 200 {
      assert Lost(LINES, full, 200);
    }
  }
}
