/**
  The collectors under concurrent callers. Each goroutine runs its own list of calls;
  a schedule says which goroutine takes the next step, so "for every schedule" is "for
  every interleaving". A call is many steps: it takes the mutex, tests the length,
  clips, loads the slice, stores it and releases the mutex. A goroutine that finds the
  mutex taken stays where it is.
 */
module Interleavings {
  import opened Collectors
  import opened Wrappers

  // Print or TraceEvent with its argument, or lines().
  datatype Call<T> = Emit(msg: T) | Look

  // Where a goroutine is inside a call.
  datatype Pc<T> =
    | Outside
    | Entered(call: Call<T>)
    | Room(msg: T)
    | Clipped(msg: T)
    | Storing(msg: T, base: seq<T>)
    | Dropping(count: nat)
    | Leaving

  // What lines() returned, and how many messages had been logged by then.
  datatype Snap<T> = Snap(out: seq<T>, cut: bool, at: nat)

  // log: the emitting calls in the order in which they took the mutex.
  datatype State<T> = State(pcs: seq<Pc<T>>, next: seq<nat>, lock: Option<nat>,
                            held: Held<T>, log: seq<(nat, T)>, snaps: seq<Snap<T>>)

  type Programs<T> = seq<seq<Call<T>>>

  function Start<T>(progs: Programs<T>): State<T> {
    State(seq(|progs|, i => Outside), seq(|progs|, i => 0), None, Nothing(), [], [])
  }

  predicate Shape<T>(progs: Programs<T>, s: State<T>) {
    |s.pcs| == |progs| && |s.next| == |progs|
  }

  // Goroutine t, outside any call, makes its next one if the mutex is free.
  function Enter<T>(progs: Programs<T>, s: State<T>, t: nat): State<T>
    requires Shape(progs, s) && t < |progs|
  {
    if s.lock.Some? || s.next[t] >= |progs[t]| then s
    else
      var c := progs[t][s.next[t]];
      s.(pcs := s.pcs[t := Entered(c)], next := s.next[t := s.next[t] + 1], lock := Some(t),
         log := if c.Emit? then s.log + [(t, c.msg)] else s.log)
  }

  function Step<T>(b: Bounds<T>, progs: Programs<T>, s: State<T>, t: nat): (s': State<T>)
    requires Shape(progs, s)
    ensures Shape(progs, s')
  {
    if t >= |progs| then s
    else
      match s.pcs[t]
      case Outside => Enter(progs, s, t)
      case Entered(Emit(m)) =>
        s.(pcs := s.pcs[t := if |s.held.out| >= b.slots then Dropping(s.held.dropped) else Room(m)])
      case Entered(Look) =>
        s.(pcs := s.pcs[t := Leaving], snaps := s.snaps + [Snap(s.held.out, Cut(s.held), |s.log|)])
      case Room(m) =>
        s.(pcs := s.pcs[t := Clipped(b.clip(m))],
           held := s.held.(truncated := s.held.truncated || b.clipped(m)))
      case Clipped(m) => s.(pcs := s.pcs[t := Storing(m, s.held.out)])
      case Storing(m, base) => s.(pcs := s.pcs[t := Leaving], held := s.held.(out := base + [m]))
      case Dropping(count) => s.(pcs := s.pcs[t := Leaving], held := s.held.(dropped := count + 1))
      case Leaving => s.(pcs := s.pcs[t := Outside], lock := None)
  }

  function Run<T>(b: Bounds<T>, progs: Programs<T>, schedule: seq<nat>): (s: State<T>)
    ensures Shape(progs, s)
  {
    if schedule == [] then Start(progs)
    else Step(b, progs, Run(b, progs, schedule[..|schedule| - 1]), schedule[|schedule| - 1])
  }

  // ----- what the log says

  function Msgs<T>(log: seq<(nat, T)>): (r: seq<T>)
    ensures |r| == |log|
  {
    seq(|log|, i requires 0 <= i < |log| => log[i].1)
  }

  // The messages that goroutine t logged.
  function Own<T>(log: seq<(nat, T)>, t: nat): seq<T> {
    if log == [] then []
    else
      var last := log[|log| - 1];
      Own(log[..|log| - 1], t) + if last.0 == t then [last.1] else []
  }

  // The messages that a list of calls emits.
  function Emitted<T>(calls: seq<Call<T>>): seq<T> {
    if calls == [] then []
    else
      var last := calls[|calls| - 1];
      Emitted(calls[..|calls| - 1]) + if last.Emit? then [last.msg] else []
  }

  // ----- invariants

  // Only the holder of the mutex is inside a call.
  predicate Exclusive<T>(s: State<T>) {
    && (s.lock.Some? ==> s.lock.value < |s.pcs|)
    && forall t | 0 <= t < |s.pcs| :: s.pcs[t].Outside? <==> s.lock != Some(t)
  }

  // The collector after every logged message but the last.
  function Before<T>(b: Bounds<T>, s: State<T>): Held<T>
    requires s.log != []
  {
    PutAll(b, Msgs(s.log[..|s.log| - 1]))
  }

  function Last<T>(s: State<T>): T
    requires s.log != []
  {
    s.log[|s.log| - 1].1
  }

  // What the shared fields and the holder's locals are at each point of a call.
  predicate Consistent<T(==)>(b: Bounds<T>, s: State<T>, pc: Pc<T>) {
    match pc
    case Entered(Emit(m)) => s.log != [] && m == Last(s) && s.held == Before(b, s)
    case Room(m) =>
      s.log != [] && m == Last(s) && s.held == Before(b, s) && |s.held.out| < b.slots
    case Clipped(m) =>
      && s.log != [] && m == b.clip(Last(s)) && |s.held.out| < b.slots
      && s.held == Before(b, s).(truncated := Before(b, s).truncated || b.clipped(Last(s)))
    case Storing(m, base) =>
      && s.log != [] && m == b.clip(Last(s)) && |s.held.out| < b.slots && base == s.held.out
      && s.held == Before(b, s).(truncated := Before(b, s).truncated || b.clipped(Last(s)))
    case Dropping(count) =>
      s.log != [] && s.held == Before(b, s) && |s.held.out| >= b.slots && count == s.held.dropped
    case _ => s.held == PutAll(b, Msgs(s.log))
  }

  predicate Linear<T(==)>(b: Bounds<T>, s: State<T>) {
    if s.lock.Some? && s.lock.value < |s.pcs| then Consistent(b, s, s.pcs[s.lock.value])
    else s.held == PutAll(b, Msgs(s.log))
  }

  // Each goroutine's messages are logged in its program order.
  predicate Ordered<T(==)>(progs: Programs<T>, s: State<T>)
    requires Shape(progs, s)
  {
    forall t | 0 <= t < |progs| ::
      s.next[t] <= |progs[t]| && Own(s.log, t) == Emitted(progs[t][..s.next[t]])
  }

  // Every snapshot is what the messages logged by then left in the collector.
  predicate Snapped<T(==)>(b: Bounds<T>, s: State<T>) {
    && (forall i | 0 <= i < |s.snaps| ::
          && s.snaps[i].at <= |s.log|
          && s.snaps[i].out == PutAll(b, Msgs(s.log[..s.snaps[i].at])).out
          && s.snaps[i].cut == Cut(PutAll(b, Msgs(s.log[..s.snaps[i].at]))))
    && forall i, j | 0 <= i < j < |s.snaps| :: s.snaps[i].at <= s.snaps[j].at
  }

  predicate Inv<T(==)>(b: Bounds<T>, progs: Programs<T>, s: State<T>) {
    Shape(progs, s) && Exclusive(s) && Linear(b, s) && Ordered(progs, s) && Snapped(b, s)
  }

  // ----- every step keeps them

  lemma ExclusiveKept<T>(b: Bounds<T>, progs: Programs<T>, s: State<T>, t: nat)
    requires Shape(progs, s) && Exclusive(s)
    ensures Exclusive(Step(b, progs, s, t))
  {
  }

  lemma MsgsSnoc<T>(log: seq<(nat, T)>, e: (nat, T))
    ensures (log + [e])[..|log|] == log
    ensures Msgs(log + [e]) == Msgs(log) + [e.1]
  {
  }

  lemma PutLast<T>(b: Bounds<T>, s: State<T>)
    requires s.log != []
    ensures PutAll(b, Msgs(s.log)) == Put(b, Before(b, s), Last(s))
  {
    var n := |s.log| - 1;
    assert Msgs(s.log)[..n] == Msgs(s.log[..n]);
  }

  lemma EnterLinear<T>(b: Bounds<T>, progs: Programs<T>, s: State<T>, t: nat)
    requires Shape(progs, s) && t < |progs| && Linear(b, s) && s.lock.None?
    ensures Linear(b, Enter(progs, s, t))
  {
    if s.next[t] < |progs[t]| && progs[t][s.next[t]].Emit? {
      MsgsSnoc(s.log, (t, progs[t][s.next[t]].msg));
    }
  }

  // The holder's next point, and the shared state there.
  lemma InsideLinear<T>(b: Bounds<T>, progs: Programs<T>, s: State<T>, t: nat)
    requires Shape(progs, s) && t < |progs| && s.lock == Some(t) && !s.pcs[t].Outside?
    requires Consistent(b, s, s.pcs[t])
    ensures var s' := Step(b, progs, s, t);
      && s'.log == s.log && (s'.lock == s.lock || s'.lock.None?)
      && Consistent(b, s', s'.pcs[t])
  {
    if s.log != [] {
      PutLast(b, s);
    }
  }

  lemma LinearKept<T>(b: Bounds<T>, progs: Programs<T>, s: State<T>, t: nat)
    requires Shape(progs, s) && Exclusive(s) && Linear(b, s)
    ensures Linear(b, Step(b, progs, s, t))
  {
    if t < |progs| {
      if !s.pcs[t].Outside? {
        InsideLinear(b, progs, s, t);
      } else if s.lock.None? {
        EnterLinear(b, progs, s, t);
      }
    }
  }

  lemma OrderedKept<T>(b: Bounds<T>, progs: Programs<T>, s: State<T>, t: nat)
    requires Shape(progs, s) && Ordered(progs, s)
    ensures Ordered(progs, Step(b, progs, s, t))
  {
    var s' := Step(b, progs, s, t);
    if s'.next != s.next {
      var c := progs[t][s.next[t]];
      var calls := progs[t][..s.next[t] + 1];
      assert calls[..s.next[t]] == progs[t][..s.next[t]];
      forall u | 0 <= u < |progs|
        ensures s'.next[u] <= |progs[u]| && Own(s'.log, u) == Emitted(progs[u][..s'.next[u]])
      {
        if c.Emit? {
          MsgsSnoc(s.log, (t, c.msg));
        }
      }
    }
  }

  // Snapshots already taken keep their meaning when the log grows.
  lemma SnappedGrows<T>(b: Bounds<T>, s: State<T>, s': State<T>)
    requires Snapped(b, s) && s'.snaps == s.snaps && s.log <= s'.log
    ensures Snapped(b, s')
  {
    forall i | 0 <= i < |s.snaps| ensures s'.log[..s.snaps[i].at] == s.log[..s.snaps[i].at] {
    }
  }

  lemma LookSnapped<T>(b: Bounds<T>, s: State<T>, s': State<T>)
    requires Snapped(b, s) && s.held == PutAll(b, Msgs(s.log)) && s'.log == s.log
    requires s'.snaps == s.snaps + [Snap(s.held.out, Cut(s.held), |s.log|)]
    ensures Snapped(b, s')
  {
    assert s.log[..|s.log|] == s.log;
  }

  lemma SnappedKept<T>(b: Bounds<T>, progs: Programs<T>, s: State<T>, t: nat)
    requires Shape(progs, s) && Exclusive(s) && Linear(b, s) && Snapped(b, s)
    ensures Snapped(b, Step(b, progs, s, t))
  {
    var s' := Step(b, progs, s, t);
    if t < |progs| && s.pcs[t] == Entered(Look) {
      LookSnapped(b, s, s');
    } else {
      SnappedGrows(b, s, s');
    }
  }

  lemma InvKept<T>(b: Bounds<T>, progs: Programs<T>, s: State<T>, t: nat)
    requires Inv(b, progs, s)
    ensures Inv(b, progs, Step(b, progs, s, t))
  {
    ExclusiveKept(b, progs, s, t);
    LinearKept(b, progs, s, t);
    OrderedKept(b, progs, s, t);
    SnappedKept(b, progs, s, t);
  }

  lemma {:induction false} InvAlways<T>(b: Bounds<T>, progs: Programs<T>, schedule: seq<nat>)
    ensures Inv(b, progs, Run(b, progs, schedule))
  {
    if schedule != [] {
      var before := schedule[..|schedule| - 1];
      InvAlways(b, progs, before);
      InvKept(b, progs, Run(b, progs, before), schedule[|schedule| - 1]);
    }
  }

  // ----- what follows for every interleaving

  /**
    No two goroutines are ever inside a call together. Whenever the mutex is free the
    collector holds exactly what the logged messages, taken one after the other, leave
    in it; and each goroutine's messages are in the log in its program order.
   */
  lemma EveryInterleavingIsSequential<T>(b: Bounds<T>, progs: Programs<T>, schedule: seq<nat>)
    ensures var s := Run(b, progs, schedule);
      && (forall t, u | 0 <= t < u < |progs| :: s.pcs[t].Outside? || s.pcs[u].Outside?)
      && (s.lock.None? ==>
            var msgs := Msgs(s.log);
            && s.held.out == Images(b, msgs[..Kept(b, msgs)])
            && |s.held.out| + s.held.dropped == |msgs|
            && (Cut(s.held) <==> exists i | 0 <= i < |msgs| :: Lost(b, msgs, i)))
      && (forall t | 0 <= t < |progs| ::
            s.next[t] <= |progs[t]| && Own(s.log, t) == Emitted(progs[t][..s.next[t]]))
  {
    InvAlways(b, progs, schedule);
    var s := Run(b, progs, schedule);
    HeldExactly(b, Msgs(s.log));
    CutExactly(b, Msgs(s.log));
  }

  /** At no step, not even inside a call, are there more items than slots. */
  lemma NeverOverfull<T>(b: Bounds<T>, progs: Programs<T>, schedule: seq<nat>)
    ensures |Run(b, progs, schedule).held.out| <= b.slots
  {
    InvAlways(b, progs, schedule);
    var s := Run(b, progs, schedule);
    HeldExactly(b, Msgs(s.log));
    if s.log != [] {
      HeldExactly(b, Msgs(s.log[..|s.log| - 1]));
    }
  }

  lemma PrefixGrows<T>(b: Bounds<T>, log: seq<(nat, T)>, j: nat, k: nat)
    requires j <= k <= |log|
    ensures PutAll(b, Msgs(log[..j])).out <= PutAll(b, Msgs(log[..k])).out
  {
    assert Msgs(log[..k])[..j] == Msgs(log[..j]);
    PutAllGrows(b, Msgs(log[..k]), j);
  }

  /** Every snapshot is a prefix of every later one. */
  lemma SnapshotsGrow<T>(b: Bounds<T>, progs: Programs<T>, schedule: seq<nat>, i: nat, j: nat)
    requires i <= j < |Run(b, progs, schedule).snaps|
    ensures Run(b, progs, schedule).snaps[i].out <= Run(b, progs, schedule).snaps[j].out
  {
    InvAlways(b, progs, schedule);
    var s := Run(b, progs, schedule);
    PrefixGrows(b, s.log, s.snaps[i].at, s.snaps[j].at);
  }

  /** A snapshot's flag tells whether some message logged by then was not kept whole. */
  lemma SnapshotFlag<T>(b: Bounds<T>, progs: Programs<T>, schedule: seq<nat>, i: nat)
    requires i < |Run(b, progs, schedule).snaps|
    ensures var s := Run(b, progs, schedule);
      && s.snaps[i].at <= |s.log|
      && var msgs := Msgs(s.log[..s.snaps[i].at]);
      s.snaps[i].cut <==> exists k | 0 <= k < |msgs| :: Lost(b, msgs, k)
  {
    InvAlways(b, progs, schedule);
    CutExactly(b, Msgs(Run(b, progs, schedule).log[..Run(b, progs, schedule).snaps[i].at]));
  }

  lemma {:induction false} OwnGrows<T>(log: seq<(nat, T)>, k: nat, t: nat)
    requires k <= |log|
    ensures Own(log[..k], t) <= Own(log, t)
    decreases |log| - k
  {
    if k < |log| {
      OwnGrows(log, k + 1, t);
      assert log[..k + 1][..k] == log[..k];
    } else {
      assert log[..k] == log;
    }
  }

  /** The messages kept of one goroutine are the first ones it emitted, in its order. */
  lemma KeptInProgramOrder<T>(b: Bounds<T>, progs: Programs<T>, schedule: seq<nat>, t: nat)
    requires t < |progs|
    ensures var s := Run(b, progs, schedule);
      && s.next[t] <= |progs[t]|
      && Own(s.log[..Kept(b, Msgs(s.log))], t) <= Emitted(progs[t][..s.next[t]])
  {
    InvAlways(b, progs, schedule);
    var s := Run(b, progs, schedule);
    OwnGrows(s.log, Kept(b, Msgs(s.log)), t);
  }
}
