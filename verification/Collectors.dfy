/**
  The two bounded collectors of tool_opa.go. Put says what one call under the mutex
  does; the classes are proved against it.
 */
module Collectors {
  import opened Strings

  const MAX_TRACE_LINES := 200
  const MAX_PRINT_LINES := 200
  const MAX_LINE_BYTES := 1024
  const MAX_TRACE_EVENTS := 4 * MAX_TRACE_LINES

  // An ellipsis in UTF-8 and " (truncated)": 15 bytes.
  const MARKER := "\U{E2}\U{80}\U{A6} (truncated)"

  function ClipLine(s: string): (r: string)
    ensures |r| <= MAX_LINE_BYTES + 15
  {
    if |s| > MAX_LINE_BYTES then s[..MAX_LINE_BYTES] + MARKER else s
  }

  predicate TooLong(s: string) { |s| > MAX_LINE_BYTES }

  // How many items are kept, what is kept of each, and which lose something.
  datatype Bounds<!T> = Bounds(slots: nat, clip: T -> T, clipped: T -> bool)

  const PRINT := Bounds(MAX_PRINT_LINES, ClipLine, TooLong)

  function Trace<E>(): Bounds<E> { Bounds(MAX_TRACE_EVENTS, (e: E) => e, (e: E) => false) }

  datatype Held<T> = Held(out: seq<T>, dropped: nat, truncated: bool)

  function Nothing<T>(): Held<T> { Held([], 0, false) }

  function Put<T>(b: Bounds<T>, h: Held<T>, msg: T): Held<T> {
    if |h.out| >= b.slots then h.(dropped := h.dropped + 1)
    else Held(h.out + [b.clip(msg)], h.dropped, h.truncated || b.clipped(msg))
  }

  function PutAll<T>(b: Bounds<T>, msgs: seq<T>): Held<T> {
    if msgs == [] then Nothing() else Put(b, PutAll(b, msgs[..|msgs| - 1]), msgs[|msgs| - 1])
  }

  // What lines() reports as truncated.
  predicate Cut<T>(h: Held<T>) { h.truncated || h.dropped > 0 }

  function Images<T>(b: Bounds<T>, msgs: seq<T>): (r: seq<T>)
    ensures |r| == |msgs|
  {
    seq(|msgs|, i requires 0 <= i < |msgs| => b.clip(msgs[i]))
  }

  function Kept<T>(b: Bounds<T>, msgs: seq<T>): (k: nat)
    ensures k <= |msgs|
  {
    if |msgs| <= b.slots then |msgs| else b.slots
  }

  /**
    The collector holds the images of the first messages, as many as there are slots; it
    counts every other one; and it has clipped something exactly when one of those it
    kept was too long.
   */
  lemma {:induction false} HeldExactly<T>(b: Bounds<T>, msgs: seq<T>)
    ensures var h := PutAll(b, msgs);
      && h.out == Images(b, msgs[..Kept(b, msgs)])
      && |h.out| + h.dropped == |msgs|
      && (h.truncated <==> exists i | 0 <= i < Kept(b, msgs) :: b.clipped(msgs[i]))
  {
    if msgs != [] {
      var before, last := msgs[..|msgs| - 1], msgs[|msgs| - 1];
      HeldExactly(b, before);
      var k := Kept(b, before);
      assert before[..k] == msgs[..k];
      if k < b.slots {
        assert msgs[..k + 1] == before[..k] + [last];
        assert Kept(b, msgs) == k + 1;
        assert forall i | 0 <= i < k :: before[i] == msgs[i];
        assert msgs[k] == last;
      } else {
        assert forall i | 0 <= i < k :: before[i] == msgs[i];
      }
    }
  }

  // Message i was not kept whole.
  predicate Lost<T>(b: Bounds<T>, msgs: seq<T>, i: nat)
    requires i < |msgs|
  {
    i >= b.slots || b.clipped(msgs[i])
  }

  /** The flag is raised exactly when some message was not kept whole. */
  lemma CutExactly<T>(b: Bounds<T>, msgs: seq<T>)
    ensures Cut(PutAll(b, msgs)) <==> exists i | 0 <= i < |msgs| :: Lost(b, msgs, i)
  {
    HeldExactly(b, msgs);
    if PutAll(b, msgs).dropped > 0 {
      assert Lost(b, msgs, b.slots);
    }
    if i :| 0 <= i < |msgs| && Lost(b, msgs, i) {
      assert i >= b.slots || b.clipped(msgs[i]);
    }
    if i :| 0 <= i < Kept(b, msgs) && b.clipped(msgs[i]) {
      assert Lost(b, msgs, i);
    }
  }

  lemma {:induction false} PutAllGrows<T>(b: Bounds<T>, msgs: seq<T>, k: nat)
    requires k <= |msgs|
    ensures PutAll(b, msgs[..k]).out <= PutAll(b, msgs).out
    decreases |msgs| - k
  {
    if k < |msgs| {
      PutAllGrows(b, msgs, k + 1);
      assert msgs[..k + 1][..k] == msgs[..k];
    } else {
      assert msgs[..k] == msgs;
    }
  }

  /**
    A line that is cut can still come out as it went in: exactly when it is its own
    first 1024 bytes and the marker. It is flagged all the same.
   */
  lemma ClippedUnchanged(s: string)
    requires TooLong(s)
    ensures ClipLine(s) == s <==> |s| == MAX_LINE_BYTES + 15 && HasSuffix(s, MARKER)
  {
    if ClipLine(s) == s {
      assert s[MAX_LINE_BYTES..] == MARKER;
    }
  }

  /** What is kept of a line: all of it, or its first 1024 bytes and the marker. */
  lemma ClipExactly(s: string)
    ensures ClipLine(s) ==
      if |s| <= 1024 then s else s[..1024] + ['\U{E2}', '\U{80}', '\U{A6}'] + " (truncated)"
  {
  }

  /**
    What print() calls leave, in full: the first 200 messages, the others counted, those
    of more than 1024 bytes clipped, and whether anything is missing.
   */
  lemma PrintedExactly(msgs: seq<string>)
    ensures var h := PutAll(PRINT, msgs);
      && |h.out| == (if |msgs| <= 200 then |msgs| else 200)
      && h.dropped == |msgs| - |h.out|
      && (forall i | 0 <= i < |h.out| ::
            h.out[i] == if |msgs[i]| <= 1024 then msgs[i]
                        else msgs[i][..1024] + ['\U{E2}', '\U{80}', '\U{A6}'] + " (truncated)")
      && (Cut(h) <==> |msgs| > 200 || exists i | 0 <= i < |msgs| :: |msgs[i]| > 1024)
  {
    var h := PutAll(PRINT, msgs);
    HeldExactly(PRINT, msgs);
    CutExactly(PRINT, msgs);
    forall i | 0 <= i < |h.out| ensures h.out[i] == ClipLine(msgs[i]) {
      assert msgs[..Kept(PRINT, msgs)][i] == msgs[i];
    }
    forall i | 0 <= i < |h.out| {
      ClipExactly(msgs[i]);
    }
    forall i | 0 <= i < |msgs| ensures Lost(PRINT, msgs, i) <==> i >= 200 || |msgs[i]| > 1024 {
    }
    assert |msgs| > 200 ==> Lost(PRINT, msgs, 200);
  }

  /** Of trace events the first 800 are kept as they are, and the others counted. */
  lemma TracedExactly<E>(events: seq<E>)
    ensures var h := PutAll(Trace(), events);
      && h.out == (if |events| <= 800 then events else events[..800])
      && h.dropped == |events| - |h.out|
  {
    HeldExactly(Trace(), events);
    var kept := events[..Kept(Trace(), events)];
    assert Images(Trace(), kept) == kept;
  }

  /** Such lines exist: 1024 bytes of any kind and the marker. */
  lemma MarkedLine(s: string)
    requires |s| == MAX_LINE_BYTES
    ensures TooLong(s + MARKER) && ClipLine(s + MARKER) == s + MARKER
  {
    assert |MARKER| == 15;
    assert (s + MARKER)[..MAX_LINE_BYTES] == s && (s + MARKER)[MAX_LINE_BYTES..] == MARKER;
  }

  lemma PutGrows(h: Held<string>, msg: string)
    ensures |h.out| <= |Put(PRINT, h, msg).out| && Put(PRINT, h, msg).out[..|h.out|] == h.out
  {
  }

  lemma PutNext(msgs: seq<string>, i: nat)
    requires i < |msgs|
    ensures PutAll(PRINT, msgs[..i + 1]) == Put(PRINT, PutAll(PRINT, msgs[..i]), msgs[i])
  {
    assert msgs[..i + 1][..i] == msgs[..i];
  }

  // A slice header that was handed out: an array and how much of it is in the slice.
  datatype View = View(data: array<string>, len: nat)

  class PrintCollector {
    // The slice `out`: its backing array and its length.
    var backing: array<string>
    var len: nat
    var dropped: nat
    var truncated: bool

    ghost predicate Valid()
      reads this
    {
      len <= backing.Length
    }

    ghost function State(): Held<string>
      requires Valid()
      reads this, backing
    {
      Held(backing[..len], dropped, truncated)
    }

    constructor ()
      ensures Valid() && State() == Nothing() && fresh(backing)
    {
      backing := new string[0];
      len, dropped, truncated := 0, 0, false;
    }

    // append: in place while there is room, else into a larger array of the runtime's choosing.
    method Append(line: string)
      requires Valid()
      modifies this`backing, this`len, backing
      ensures Valid() && (backing == old(backing) || fresh(backing))
      ensures backing[..len] == old(backing[..len]) + [line]
      ensures forall i | 0 <= i < old(len) :: old(backing)[i] == old(backing[i])
    {
      if len == backing.Length {
        var capacity: nat :| capacity > len;
        var larger := new string[capacity];
        for i := 0 to len
          invariant fresh(larger) && larger != backing && larger.Length == capacity
          invariant len == old(len) && backing == old(backing)
          invariant backing[..] == old(backing[..])
          invariant forall j | 0 <= j < i :: larger[j] == backing[j]
        {
          larger[i] := backing[i];
        }
        backing := larger;
      }
      backing[len] := line;
      len := len + 1;
    }

    method Print(msg: string)
      requires Valid()
      modifies this, backing
      ensures Valid() && (backing == old(backing) || fresh(backing))
      ensures State() == Put(PRINT, old(State()), msg)
      ensures forall i | 0 <= i < old(len) :: old(backing)[i] == old(backing[i])
    {
      if len >= MAX_PRINT_LINES {
        dropped := dropped + 1;
        return;
      }
      var line := msg;
      if |line| > MAX_LINE_BYTES {
        line := line[..MAX_LINE_BYTES] + MARKER;
        truncated := true;
      }
      Append(line);
    }

    method Lines() returns (view: View, cut: bool)
      requires Valid()
      ensures view.data == backing && view.len == len
      ensures cut <==> Cut(State())
    {
      return View(backing, len), truncated || dropped > 0;
    }

    // view was handed out earlier in this collector's life.
    ghost predicate Snapshot(view: View)
      requires Valid()
      reads this, backing, view.data
    {
      && view.len <= view.data.Length && view.len <= len
      && view.data[..view.len] == backing[..view.len]
    }

    // One call, beside a snapshot.
    method PrintBeside(msg: string, view: View)
      requires Valid() && Snapshot(view)
      modifies this, backing
      ensures Valid() && (backing == old(backing) || fresh(backing))
      ensures State() == Put(PRINT, old(State()), msg)
      ensures Snapshot(view) && view.data[..view.len] == old(view.data[..view.len])
    {
      ghost var before, kept := State(), view.data[..view.len];
      Print(msg);
      assert forall j | 0 <= j < view.len :: view.data[j] == kept[j];
      assert view.data[..view.len] == kept;
      PutGrows(before, msg);
      assert backing[..view.len] == State().out[..view.len] == before.out[..view.len];
    }

    /**
      However many messages follow, a snapshot keeps its elements, although later ones
      may be appended to the very array it points into, and it stays a prefix of what
      the collector holds.
     */
    method PrintAll(msgs: seq<string>, view: View)
      requires Valid() && Snapshot(view)
      modifies this, backing
      ensures Valid() && (backing == old(backing) || fresh(backing))
      ensures Snapshot(view) && view.data[..view.len] == old(view.data[..view.len])
      ensures view.data[..view.len] <= State().out
      ensures old(State()) == Nothing() ==> State() == PutAll(PRINT, msgs)
    {
      for i := 0 to |msgs|
        invariant Valid() && (backing == old(backing) || fresh(backing))
        invariant Snapshot(view) && view.data[..view.len] == old(view.data[..view.len])
        invariant old(State()) == Nothing() ==> State() == PutAll(PRINT, msgs[..i])
      {
        PrintBeside(msgs[i], view);
        PutNext(msgs, i);
      }
      assert msgs[..|msgs|] == msgs;
    }
  }

  class BoundedTracer<E> {
    var events: seq<E>
    var dropped: nat

    ghost function State(): Held<E>
      reads this
    {
      Held(events, dropped, false)
    }

    constructor ()
      ensures State() == Nothing()
    {
      events, dropped := [], 0;
    }

    method TraceEvent(e: E)
      modifies this
      ensures State() == Put(Trace(), old(State()), e)
    {
      if |events| >= MAX_TRACE_EVENTS {
        dropped := dropped + 1;
        return;
      }
      events := events + [e];
    }
  }
}
