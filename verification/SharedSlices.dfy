/**
  The same collectors with the slice taken apart: arrays in a memory, and headers that
  point into them. Appending writes into the array while there is room, and stores the
  new header in a later step; lines() hands out the header. Every run of this machine is
  a run of the one in Interleavings, and what was handed out never changes.
 */
module SharedSlices {
  import opened Collectors
  import opened Interleavings
  import opened Wrappers

  // An array and how much of it is in the slice.
  datatype Header = Header(arr: nat, len: nat)

  type Memory<T> = seq<seq<Option<T>>>

  datatype Point<T> =
    | Idle
    | Taken(call: Call<T>)
    | Fitting(msg: T)
    | Cutting(msg: T)
    | Appending(msg: T, base: Header)
    | Written(msg: T, out: Header)
    | Missing(count: nat)
    | Done

  datatype Handed = Handed(view: Header, cut: bool, at: nat)

  datatype Machine<T> = Machine(
    points: seq<Point<T>>, next: seq<nat>, lock: Option<nat>, memory: Memory<T>,
    out: Header, dropped: nat, truncated: bool, log: seq<(nat, T)>, handed: seq<Handed>)

  // A nil slice has an empty array.
  function Begin<T>(progs: Programs<T>): Machine<T> {
    Machine(seq(|progs|, i => Idle), seq(|progs|, i => 0), None, [[]], Header(0, 0), 0, false, [], [])
  }

  predicate Fits<T>(progs: Programs<T>, s: Machine<T>) {
    |s.points| == |progs| && |s.next| == |progs|
  }

  // The slice is within its array, and every element of it has been written.
  predicate Loaded<T>(m: Memory<T>, h: Header) {
    h.arr < |m| && h.len <= |m[h.arr]| && forall i | 0 <= i < h.len :: m[h.arr][i].Some?
  }

  function Contents<T>(m: Memory<T>, h: Header): (r: seq<T>)
    requires Loaded(m, h)
    ensures |r| == h.len
  {
    seq(h.len, i requires 0 <= i < h.len => m[h.arr][i].value)
  }

  // The memory after an append: in place while there is room, else a copy with spare room.
  function AppendTo<T>(m: Memory<T>, h: Header, x: T, spare: nat): Memory<T>
    requires Loaded(m, h)
  {
    if h.len < |m[h.arr]| then m[h.arr := m[h.arr][h.len := Some(x)]]
    else m + [m[h.arr][..h.len] + [Some(x)] + seq(spare, i => None)]
  }

  function Appended<T>(m: Memory<T>, h: Header): Header
    requires Loaded(m, h)
  {
    if h.len < |m[h.arr]| then Header(h.arr, h.len + 1) else Header(|m|, h.len + 1)
  }

  function Lock<T>(progs: Programs<T>, s: Machine<T>, t: nat): Machine<T>
    requires Fits(progs, s) && t < |progs|
  {
    if s.lock.Some? || s.next[t] >= |progs[t]| then s
    else
      var c := progs[t][s.next[t]];
      s.(points := s.points[t := Taken(c)], next := s.next[t := s.next[t] + 1], lock := Some(t),
         log := if c.Emit? then s.log + [(t, c.msg)] else s.log)
  }

  // spare: how much room the runtime leaves in a new array, given the length.
  function Move<T>(b: Bounds<T>, progs: Programs<T>, spare: nat -> nat, s: Machine<T>, t: nat): (s': Machine<T>)
    requires Fits(progs, s)
    ensures Fits(progs, s')
  {
    if t >= |progs| then s
    else
      match s.points[t]
      case Idle => Lock(progs, s, t)
      case Taken(Emit(m)) =>
        s.(points := s.points[t := if s.out.len >= b.slots then Missing(s.dropped) else Fitting(m)])
      case Taken(Look) =>
        s.(points := s.points[t := Done],
           handed := s.handed + [Handed(s.out, s.truncated || s.dropped > 0, |s.log|)])
      case Fitting(m) =>
        s.(points := s.points[t := Cutting(b.clip(m))], truncated := s.truncated || b.clipped(m))
      case Cutting(m) => s.(points := s.points[t := Appending(m, s.out)])
      case Appending(m, base) =>
        if !Loaded(s.memory, base) then s
        else
          s.(points := s.points[t := Written(m, Appended(s.memory, base))],
             memory := AppendTo(s.memory, base, m, spare(base.len)))
      case Written(m, out) => s.(points := s.points[t := Done], out := out)
      case Missing(count) => s.(points := s.points[t := Done], dropped := count + 1)
      case Done => s.(points := s.points[t := Idle], lock := None)
  }

  function Go<T>(b: Bounds<T>, progs: Programs<T>, spare: nat -> nat, schedule: seq<nat>): (s: Machine<T>)
    ensures Fits(progs, s)
  {
    if schedule == [] then Begin(progs)
    else Move(b, progs, spare, Go(b, progs, spare, schedule[..|schedule| - 1]), schedule[|schedule| - 1])
  }

  // ----- the run of values it stands for

  function PcOf<T>(s: Machine<T>, pc: Point<T>): Pc<T>
    requires Loaded(s.memory, s.out)
  {
    match pc
    case Idle => Outside
    case Taken(c) => Entered(c)
    case Fitting(m) => Room(m)
    case Cutting(m) => Clipped(m)
    case Appending(m, _) => Storing(m, Contents(s.memory, s.out))
    case Written(m, _) => Storing(m, Contents(s.memory, s.out))
    case Missing(c) => Dropping(c)
    case Done => Leaving
  }

  function SnapOf<T>(m: Memory<T>, h: Handed): Snap<T>
    requires Loaded(m, h.view)
  {
    Snap(Contents(m, h.view), h.cut, h.at)
  }

  predicate AllLoaded<T>(s: Machine<T>) {
    Loaded(s.memory, s.out) && forall i | 0 <= i < |s.handed| :: Loaded(s.memory, s.handed[i].view)
  }

  function Values<T>(s: Machine<T>): State<T>
    requires AllLoaded(s)
  {
    State(seq(|s.points|, i requires 0 <= i < |s.points| => PcOf(s, s.points[i])), s.next, s.lock,
      Held(Contents(s.memory, s.out), s.dropped, s.truncated), s.log,
      seq(|s.handed|, i requires 0 <= i < |s.handed| => SnapOf(s.memory, s.handed[i])))
  }

  // ----- what every step keeps

  // Nothing that was handed out reaches past the end of the slice.
  predicate Behind<T>(s: Machine<T>) {
    forall i | 0 <= i < |s.handed| :: s.handed[i].view.arr == s.out.arr ==> s.handed[i].view.len <= s.out.len
  }

  predicate AtPoint<T(==)>(s: Machine<T>, pc: Point<T>)
    requires Loaded(s.memory, s.out)
  {
    match pc
    case Appending(_, base) => base == s.out
    case Written(m, out) =>
      && Loaded(s.memory, out) && Contents(s.memory, out) == Contents(s.memory, s.out) + [m]
      && forall i | 0 <= i < |s.handed| :: s.handed[i].view.arr == out.arr ==> s.handed[i].view.len <= out.len
    case _ => true
  }

  predicate Alone<T>(s: Machine<T>) {
    forall t | 0 <= t < |s.points| :: s.points[t].Idle? <==> s.lock != Some(t)
  }

  predicate Good<T(==)>(progs: Programs<T>, s: Machine<T>) {
    && Fits(progs, s) && AllLoaded(s) && Behind(s) && Alone(s)
    && forall t | 0 <= t < |s.points| :: AtPoint(s, s.points[t])
  }

  // ----- appending

  lemma AppendKeeps<T>(m: Memory<T>, h: Header, x: T, spare: nat, v: Header)
    requires Loaded(m, h) && Loaded(m, v) && (v.arr == h.arr ==> v.len <= h.len)
    ensures var m' := AppendTo(m, h, x, spare); Loaded(m', v) && Contents(m', v) == Contents(m, v)
  {
    var m' := AppendTo(m, h, x, spare);
    assert forall i | 0 <= i < v.len :: m'[v.arr][i] == m[v.arr][i];
  }

  lemma AppendAdds<T>(m: Memory<T>, h: Header, x: T, spare: nat)
    requires Loaded(m, h)
    ensures var m', h' := AppendTo(m, h, x, spare), Appended(m, h);
      Loaded(m', h') && Contents(m', h') == Contents(m, h) + [x]
  {
    var m', h' := AppendTo(m, h, x, spare), Appended(m, h);
    assert forall i | 0 <= i < h.len :: m'[h'.arr][i] == m[h.arr][i];
    assert m'[h'.arr][h.len] == Some(x);
  }

  // What was handed out is untouched by one step.
  predicate Untouched<T(==)>(s: Machine<T>, s': Machine<T>)
    requires AllLoaded(s) && AllLoaded(s')
  {
    && s.handed <= s'.handed
    && forall i | 0 <= i < |s.handed| ::
         Contents(s'.memory, s.handed[i].view) == Contents(s.memory, s.handed[i].view)
  }

  // ----- one step

  lemma WriteGood<T>(b: Bounds<T>, progs: Programs<T>, spare: nat -> nat, s: Machine<T>, t: nat)
    requires Good(progs, s) && t < |progs| && s.points[t].Appending?
    ensures var s' := Move(b, progs, spare, s, t);
      Good(progs, s') && Untouched(s, s') && Values(s') == Values(s)
  {
    var m, base := s.points[t].msg, s.points[t].base;
    var s' := Move(b, progs, spare, s, t);
    var room := spare(base.len);
    AppendAdds(s.memory, s.out, m, room);
    AppendKeeps(s.memory, s.out, m, room, s.out);
    forall i | 0 <= i < |s.handed|
      ensures Loaded(s'.memory, s.handed[i].view)
      ensures Contents(s'.memory, s.handed[i].view) == Contents(s.memory, s.handed[i].view)
    {
      AppendKeeps(s.memory, s.out, m, room, s.handed[i].view);
    }
    assert forall u | 0 <= u < |s.points| && u != t :: s.points[u].Idle?;
    assert Values(s') == Values(s);
  }

  lemma OtherGood<T>(b: Bounds<T>, progs: Programs<T>, spare: nat -> nat, s: Machine<T>, t: nat)
    requires Good(progs, s) && t < |progs| && !s.points[t].Appending?
    ensures var s' := Move(b, progs, spare, s, t);
      Good(progs, s') && Untouched(s, s')
  {
    var s' := Move(b, progs, spare, s, t);
    assert s'.memory == s.memory;
    if !s.points[t].Idle? {
      assert forall u | 0 <= u < |s.points| && u != t :: s.points[u].Idle?;
    }
  }

  lemma OtherMoves<T>(b: Bounds<T>, progs: Programs<T>, spare: nat -> nat, s: Machine<T>, t: nat)
    requires Good(progs, s) && t < |progs| && !s.points[t].Appending?
    requires Good(progs, Move(b, progs, spare, s, t))
    ensures Values(Move(b, progs, spare, s, t)) == Step(b, progs, Values(s), t)
  {
    var s', v := Move(b, progs, spare, s, t), Step(b, progs, Values(s), t);
    if !s.points[t].Idle? {
      assert forall u | 0 <= u < |s.points| && u != t :: s.points[u].Idle?;
    }
    assert Values(s').pcs == v.pcs;
    assert Values(s').snaps == v.snaps;
  }

  // ----- every run

  lemma {:induction false} GoGood<T>(b: Bounds<T>, progs: Programs<T>, spare: nat -> nat, schedule: seq<nat>)
    ensures Good(progs, Go(b, progs, spare, schedule))
  {
    if schedule != [] {
      var before, t := schedule[..|schedule| - 1], schedule[|schedule| - 1];
      GoGood(b, progs, spare, before);
      var s := Go(b, progs, spare, before);
      if t < |progs| {
        if s.points[t].Appending? {
          WriteGood(b, progs, spare, s, t);
        } else {
          OtherGood(b, progs, spare, s, t);
        }
      }
    }
  }

  /** Every run with arrays and headers is a run with values, under some schedule. */
  lemma {:induction false} GoRefines<T>(b: Bounds<T>, progs: Programs<T>, spare: nat -> nat, schedule: seq<nat>)
    returns (steps: seq<nat>)
    ensures AllLoaded(Go(b, progs, spare, schedule))
    ensures Values(Go(b, progs, spare, schedule)) == Run(b, progs, steps)
  {
    GoGood(b, progs, spare, schedule);
    if schedule == [] {
      steps := [];
      assert Values(Begin(progs)) == Start(progs);
    } else {
      var before, t := schedule[..|schedule| - 1], schedule[|schedule| - 1];
      steps := GoRefines(b, progs, spare, before);
      GoGood(b, progs, spare, before);
      var s := Go(b, progs, spare, before);
      if t < |progs| {
        if s.points[t].Appending? {
          WriteGood(b, progs, spare, s, t);
        } else {
          OtherMoves(b, progs, spare, s, t);
          assert (steps + [t])[..|steps|] == steps;
          steps := steps + [t];
        }
      }
    }
  }

  /**
    Whatever is done after a snapshot was handed out, by any goroutine, between any two
    steps: it keeps its elements, though later ones go into the array it points to.
   */
  lemma {:induction false} HandedNeverChanges<T>(b: Bounds<T>, progs: Programs<T>, spare: nat -> nat, schedule: seq<nat>, k: nat)
    requires k <= |schedule|
    ensures AllLoaded(Go(b, progs, spare, schedule)) && AllLoaded(Go(b, progs, spare, schedule[..k]))
    ensures Untouched(Go(b, progs, spare, schedule[..k]), Go(b, progs, spare, schedule))
  {
    GoGood(b, progs, spare, schedule);
    if k == |schedule| {
      assert schedule[..k] == schedule;
    } else {
      var before, t := schedule[..|schedule| - 1], schedule[|schedule| - 1];
      assert before[..k] == schedule[..k];
      HandedNeverChanges(b, progs, spare, before, k);
      GoGood(b, progs, spare, before);
      var s := Go(b, progs, spare, before);
      if t < |progs| {
        if s.points[t].Appending? {
          WriteGood(b, progs, spare, s, t);
        } else {
          OtherGood(b, progs, spare, s, t);
        }
      }
    }
  }

  /** Every snapshot is a prefix of every later one, whatever arrays they point to. */
  lemma HandedGrow<T>(b: Bounds<T>, progs: Programs<T>, spare: nat -> nat, schedule: seq<nat>, i: nat, j: nat)
    requires i <= j < |Go(b, progs, spare, schedule).handed|
    ensures var s := Go(b, progs, spare, schedule);
      AllLoaded(s) && Contents(s.memory, s.handed[i].view) <= Contents(s.memory, s.handed[j].view)
  {
    var steps := GoRefines(b, progs, spare, schedule);
    var s := Go(b, progs, spare, schedule);
    assert Values(s).snaps[i].out == Contents(s.memory, s.handed[i].view);
    assert Values(s).snaps[j].out == Contents(s.memory, s.handed[j].view);
    SnapshotsGrow(b, progs, steps, i, j);
  }
}
