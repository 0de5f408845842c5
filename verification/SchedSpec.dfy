// The round-robin scheduler of src/kernel/sched/sched.c and the thread life cycle of
// src/kernel/thread/thread.c as steps on a ring of threads.
module SchedSpec {
  import opened Lists

  const DEFAULT_TIME_SLICE: nat := 10

  datatype ThreadState = New | Ready | Running | Blocked | TimedWait | Terminated

  // The ready queue in list order, the position of the current thread in it, and each
  // known thread's remaining slice and state.
  datatype State = State(ring: seq<nat>, pos: nat, slice: map<nat, nat>, state: map<nat, ThreadState>) {
    function Current(): nat
      requires pos < |ring|
    {
      ring[pos]
    }
  }

  // A thread is in the queue once it has been started and until it has terminated.
  predicate Queued(st: ThreadState) {
    !st.New? && !st.Terminated?
  }

  // The ring holds each started, not yet removed thread exactly once, among them the
  // current one; slices are at most the default.
  ghost predicate Ok(s: State, main: nat) {
    && Distinct(s.ring) && s.pos < |s.ring| && main in s.ring
    && s.slice.Keys == s.state.Keys
    && (forall t :: t in s.ring <==> t in s.state && Queued(s.state[t]))
    && (forall t :: t in s.slice ==> s.slice[t] <= DEFAULT_TIME_SLICE)
  }

  function NextPos(s: State): nat {
    if s.pos + 1 < |s.ring| then s.pos + 1 else 0
  }

  // schedule(): the successor of the current thread takes over; a terminated current
  // thread leaves the ring first.
  function Schedule(s: State): State
    requires s.pos < |s.ring| && s.Current() in s.state
  {
    if s.state[s.Current()].Terminated? then
      if |s.ring| == 1 then s.(ring := [], pos := 0)
      else s.(ring := Without(s.ring, s.pos), pos := if s.pos + 1 < |s.ring| then s.pos else 0)
    else
      s.(pos := NextPos(s))
  }

  datatype Event = Tick | Exit | Create(t: nat, slice: nat) | Start(t: nat)

  // sched_on_tick
  function TickStep(s: State): State
    requires s.pos < |s.ring| && s.Current() in s.state && s.Current() in s.slice
  {
    var c := s.Current();
    if s.slice[c] > 1 then s.(slice := s.slice[c := s.slice[c] - 1])
    else Schedule(s.(slice := s.slice[c := DEFAULT_TIME_SLICE]))
  }

  // The current thread's entry function returned: thread_terminate on itself.
  function ExitStep(s: State): State
    requires s.pos < |s.ring|
  {
    Schedule(s.(state := s.state[s.Current() := Terminated]))
  }

  // thread_start
  function StartStep(s: State, t: nat): State
    requires t in s.state
  {
    s.(state := s.state[t := Ready], ring := if Queued(s.state[t]) then s.ring else s.ring + [t])
  }

  // Which events can happen: the main thread never exits, only new threads are
  // created (with an initial slice of at most the default), only known ones started.
  predicate Enabled(s: State, main: nat, e: Event)
    requires s.pos < |s.ring|
  {
    match e
    case Tick => true
    case Exit => s.Current() != main
    case Create(t, slice) => t !in s.state && slice <= DEFAULT_TIME_SLICE
    case Start(t) => t in s.state
  }

  function Step(s: State, e: Event): State
    requires s.pos < |s.ring| && s.Current() in s.state && s.Current() in s.slice
    requires e.Start? ==> e.t in s.state
  {
    match e
    case Tick => TickStep(s)
    case Exit => ExitStep(s)
    case Create(t, slice) => s.(slice := s.slice[t := slice], state := s.state[t := New])
    case Start(t) => StartStep(s, t)
  }

  lemma CurrentIsKnown(s: State, main: nat)
    requires Ok(s, main)
    ensures s.Current() in s.ring && s.Current() in s.state && s.Current() in s.slice && Queued(s.state[s.Current()])
  {
  }

  // Every step keeps the invariant.
  lemma StepKeepsOk(s: State, main: nat, e: Event)
    requires Ok(s, main) && Enabled(s, main, e)
    ensures s.Current() in s.state && s.Current() in s.slice && (e.Start? ==> e.t in s.state)
    ensures Ok(Step(s, e), main)
  {
    CurrentIsKnown(s, main);
    match e
    case Tick =>
    case Exit => ExitKeepsOk(s, main);
    case Create(t, slice) =>
    case Start(t) => StartKeepsOk(s, main, t);
  }

  lemma ExitKeepsOk(s: State, main: nat)
    requires Ok(s, main) && s.Current() != main
    ensures Ok(ExitStep(s), main)
  {
    var c := s.Current();
    WithoutIs(s.ring, s.pos);
    var j :| 0 <= j < |s.ring| && s.ring[j] == main;
    assert j != s.pos;
  }

  lemma WithoutIs(ring: seq<nat>, k: nat)
    requires Distinct(ring) && k < |ring|
    ensures Distinct(Without(ring, k))
    ensures forall t :: t in Without(ring, k) <==> t in ring && t != ring[k]
  {
    DistinctWithout(ring, k);
    var rest := Without(ring, k);
    forall t | t in ring && t != ring[k]
      ensures t in rest
    {
      var j :| 0 <= j < |ring| && ring[j] == t;
      assert rest[if j < k then j else j - 1] == t;
    }
    forall j | 0 <= j < |rest|
      ensures rest[j] in ring && rest[j] != ring[k]
    {
      assert rest[j] == ring[if j < k then j else j + 1];
    }
  }

  lemma StartKeepsOk(s: State, main: nat, t: nat)
    requires Ok(s, main) && t in s.state
    ensures Ok(StartStep(s, t), main)
  {
    if !Queued(s.state[t]) {
      var ring := s.ring + [t];
      assert forall i :: 0 <= i < |ring| ==> ring[i] == if i < |s.ring| then s.ring[i] else t;
      assert forall u :: u in ring <==> u in s.ring || u == t;
    }
  }

  // sched_init: the main thread alone.
  function Initial(main: nat): State {
    State([main], 0, map[main := DEFAULT_TIME_SLICE], map[main := Running])
  }

  lemma InitialIsOk(main: nat)
    ensures Ok(Initial(main), main)
  {
  }

  // The states a sequence of events goes through.
  ghost predicate IsRun(run: seq<State>, events: seq<Event>, main: nat) {
    && |run| == |events| + 1
    && Ok(run[0], main)
    && forall i :: 0 <= i < |events| ==> Follows(run[i], events[i], run[i + 1], main)
  }

  ghost predicate Follows(s: State, e: Event, s': State, main: nat) {
    && s.pos < |s.ring| && s.Current() in s.state && s.Current() in s.slice && (e.Start? ==> e.t in s.state)
    && Enabled(s, main, e) && s' == Step(s, e)
  }

  lemma {:induction false} RunKeepsOk(run: seq<State>, events: seq<Event>, main: nat, i: nat)
    requires IsRun(run, events, main) && i < |run|
    ensures Ok(run[i], main)
  {
    if i > 0 {
      RunKeepsOk(run, events, main, i - 1);
      assert Follows(run[i - 1], events[i - 1], run[i], main);
      StepKeepsOk(run[i - 1], main, events[i - 1]);
    }
  }

  // A terminated thread stays out of the ring, and is never current, until restarted.
  lemma {:induction false} TerminatedStaysOut(run: seq<State>, events: seq<Event>, main: nat, t: nat, i: nat)
    requires IsRun(run, events, main) && i < |run|
    requires t in run[0].state && run[0].state[t].Terminated?
    requires forall j :: 0 <= j < i ==> events[j] != Start(t)
    ensures t in run[i].state && run[i].state[t].Terminated? && t !in run[i].ring
    ensures run[i].pos < |run[i].ring| && run[i].Current() != t
  {
    RunKeepsOk(run, events, main, i);
    if i > 0 {
      TerminatedStaysOut(run, events, main, t, i - 1);
      assert Follows(run[i - 1], events[i - 1], run[i], main);
    }
    CurrentIsKnown(run[i], main);
  }

  // The ring as seen from the current thread.
  function FromCurrent(s: State): seq<nat>
    requires s.pos < |s.ring|
  {
    s.ring[s.pos..] + s.ring[..s.pos]
  }

  // Thread t is k places behind the current one.
  ghost predicate AtDistance(s: State, t: nat, k: nat) {
    s.pos < |s.ring| && k < |s.ring| && FromCurrent(s)[k] == t
  }

  // A switch that keeps the current thread rotates the ring; one that removes it drops
  // the front.
  lemma ScheduleMovesOn(s: State)
    requires s.pos < |s.ring| && s.Current() in s.state && |s.ring| >= 2
    ensures Schedule(s).pos < |Schedule(s).ring|
    ensures var f := FromCurrent(s);
      FromCurrent(Schedule(s)) == if s.state[s.Current()].Terminated? then f[1..] else f[1..] + [f[0]]
  {
    if s.state[s.Current()].Terminated? {
      FrontLeaves(s);
    } else {
      RingTurns(s);
    }
  }

  lemma FrontLeaves(s: State)
    requires s.pos < |s.ring| && s.Current() in s.state && |s.ring| >= 2 && s.state[s.Current()].Terminated?
    ensures Schedule(s).pos < |Schedule(s).ring| && FromCurrent(Schedule(s)) == FromCurrent(s)[1..]
  {
    var f, rest := FromCurrent(s), Without(s.ring, s.pos);
    if s.pos + 1 < |s.ring| {
      assert rest[s.pos..] == s.ring[s.pos + 1..] && rest[..s.pos] == s.ring[..s.pos];
      assert f[1..] == s.ring[s.pos + 1..] + s.ring[..s.pos];
    } else {
      assert rest == s.ring[..s.pos];
      assert f == [s.ring[s.pos]] + s.ring[..s.pos];
    }
  }

  lemma RingTurns(s: State)
    requires s.pos < |s.ring| && s.Current() in s.state && |s.ring| >= 2 && !s.state[s.Current()].Terminated?
    ensures Schedule(s).pos < |Schedule(s).ring|
    ensures FromCurrent(Schedule(s)) == FromCurrent(s)[1..] + [FromCurrent(s)[0]]
  {
    var f := FromCurrent(s);
    if s.pos + 1 < |s.ring| {
      assert f[1..] + [f[0]] == s.ring[s.pos + 1..] + s.ring[..s.pos] + [s.ring[s.pos]];
      assert s.ring[..s.pos + 1] == s.ring[..s.pos] + [s.ring[s.pos]];
    } else {
      assert f == [s.ring[s.pos]] + s.ring[..s.pos];
    }
  }

  // Ticks until a thread k places behind the current one must have run: what is left
  // of the current slice (an exhausted one still takes a tick) and a full slice for
  // each thread in between.
  function Wait(s: State, k: nat): nat
    requires s.pos < |s.ring| && s.Current() in s.slice
  {
    if k == 0 then 0 else Remaining(s) + DEFAULT_TIME_SLICE * (k - 1)
  }

  function Remaining(s: State): nat
    requires s.pos < |s.ring| && s.Current() in s.slice
  {
    if s.slice[s.Current()] == 0 then 1 else s.slice[s.Current()]
  }

  function Ticks(events: seq<Event>): nat {
    if events == [] then 0 else (if events[|events| - 1].Tick? then 1 else 0) + Ticks(events[..|events| - 1])
  }

  // The distance after one step, without new arrivals.
  function NextDistance(s: State, e: Event, k: nat): nat
    requires k > 0 && s.pos < |s.ring| && s.Current() in s.slice
  {
    if e.Exit? || (e.Tick? && s.slice[s.Current()] <= 1) then k - 1 else k
  }

  lemma StepBringsCloser(s: State, main: nat, e: Event, t: nat, k: nat)
    requires Ok(s, main) && Enabled(s, main, e) && !e.Start? && AtDistance(s, t, k) && k > 0
    ensures s.Current() in s.state && s.Current() in s.slice
    ensures var s' := Step(s, e); var k' := NextDistance(s, e, k);
      && AtDistance(s', t, k') && s'.Current() in s'.slice
      && Wait(s', k') + (if e.Tick? then 1 else 0) <= Wait(s, k)
  {
    CurrentIsKnown(s, main);
    match e
    case Tick => TickBringsCloser(s, main, t, k);
    case Exit => ExitBringsCloser(s, main, t, k);
    case Create(u, slice) =>
  }

  lemma TickBringsCloser(s: State, main: nat, t: nat, k: nat)
    requires Ok(s, main) && AtDistance(s, t, k) && k > 0 && s.Current() in s.state && s.Current() in s.slice
    ensures var s' := TickStep(s); var k' := NextDistance(s, Tick, k);
      AtDistance(s', t, k') && s'.Current() in s'.slice && Wait(s', k') + 1 <= Wait(s, k)
  {
    if s.slice[s.Current()] <= 1 {
      hide NextPos;
      var s1 := s.(slice := s.slice[s.Current() := DEFAULT_TIME_SLICE]);
      SwitchBringsCloser(s1, main, t, k);
      hide Ok, Schedule;
    } else {
      hide Ok, Schedule;
    }
  }

  lemma ExitBringsCloser(s: State, main: nat, t: nat, k: nat)
    requires Ok(s, main) && AtDistance(s, t, k) && k > 0 && s.Current() != main
    ensures s.Current() in s.state && s.Current() in s.slice
    ensures var s' := ExitStep(s);
      AtDistance(s', t, k - 1) && s'.Current() in s'.slice && Wait(s', k - 1) <= Wait(s, k)
  {
    CurrentIsKnown(s, main);
    SwitchBringsCloser(s.(state := s.state[s.Current() := Terminated]), main, t, k);
    hide Ok, Schedule;
  }

  lemma SwitchBringsCloser(s: State, main: nat, t: nat, k: nat)
    requires s.pos < |s.ring| && s.Current() in s.state && AtDistance(s, t, k) && k > 0
    requires forall u :: u in s.ring ==> u in s.slice
    requires forall u :: u in s.slice ==> s.slice[u] <= DEFAULT_TIME_SLICE
    ensures var s' := Schedule(s);
      AtDistance(s', t, k - 1) && s'.Current() in s'.slice && Wait(s', k - 1) <= DEFAULT_TIME_SLICE * (k - 1)
  {
    ScheduleMovesOn(s);
    var f, s' := FromCurrent(s), Schedule(s);
    assert FromCurrent(s')[k - 1] == f[k];
    assert FromCurrent(s')[0] == s'.Current();
    assert f[1] in s.ring by {
      FromCurrentMembers(s, 1);
    }
  }

  lemma FromCurrentMembers(s: State, i: nat)
    requires s.pos < |s.ring| && i < |s.ring|
    ensures FromCurrent(s)[i] in s.ring
  {
  }

  // Bounded waiting: a thread k places behind the current one becomes current before
  // 10 * k ticks have passed, whatever the other threads do, if none is started.
  lemma {:induction false} BoundedWaiting(run: seq<State>, events: seq<Event>, main: nat, t: nat, k: nat)
    requires IsRun(run, events, main) && AtDistance(run[0], t, k)
    requires forall i :: 0 <= i < |events| ==> !events[i].Start?
    requires Ticks(events) >= DEFAULT_TIME_SLICE * k
    ensures exists i :: 0 <= i < |run| && run[i].pos < |run[i].ring| && run[i].Current() == t
  {
    var n := |events|;
    assert events[..n] == events;
    if forall i :: 0 <= i < |run| ==> !(run[i].pos < |run[i].ring| && run[i].Current() == t) {
      var left := NotYetCurrent(run, events, main, t, k, n);
    }
  }

  // While t has not run, the ticks so far are paid for by its shrinking wait.
  lemma {:induction false} NotYetCurrent(run: seq<State>, events: seq<Event>, main: nat, t: nat, k: nat, n: nat)
    returns (k': nat)
    requires IsRun(run, events, main) && AtDistance(run[0], t, k) && n <= |events|
    requires forall i :: 0 <= i < |events| ==> !events[i].Start?
    requires forall i :: 0 <= i <= n ==> !(run[i].pos < |run[i].ring| && run[i].Current() == t)
    ensures run[0].Current() in run[0].slice
    ensures Ok(run[n], main) && AtDistance(run[n], t, k') && k' > 0 && run[n].Current() in run[n].slice
    ensures Wait(run[n], k') + Ticks(events[..n]) <= Wait(run[0], k) && Ticks(events[..n]) < DEFAULT_TIME_SLICE * k
  {
    CurrentIsKnown(run[0], main);
    if n == 0 {
      k' := k;
    } else {
      var k0 := NotYetCurrent(run, events, main, t, k, n - 1);
      assert Follows(run[n - 1], events[n - 1], run[n], main);
      StepBringsCloser(run[n - 1], main, events[n - 1], t, k0);
      k' := NextDistance(run[n - 1], events[n - 1], k0);
      RunKeepsOk(run, events, main, n);
      assert events[..n][..n - 1] == events[..n - 1];
    }
  }

  // ---- How long a turn lasts ----

  // The current thread, or 0 for an empty ring.
  function CurrentOf(s: State): nat {
    if s.pos < |s.ring| then s.Current() else 0
  }

  lemma CurrentOfIs(s: State, main: nat)
    requires Ok(s, main)
    ensures s.pos < |s.ring| && CurrentOf(s) == s.Current() && s.Current() in s.slice && s.Current() in s.state
  {
    CurrentIsKnown(s, main);
  }

  // An event leaves the slice of every thread but the current one alone.
  lemma OtherSliceKept(s: State, main: nat, e: Event, s': State, t: nat)
    requires Ok(s, main) && Follows(s, e, s', main) && t in s.slice && t != s.Current()
    ensures t in s'.slice && s'.slice[t] == s.slice[t]
  {
  }

  // A tick that switches away refills the slice.
  lemma SwitchRefills(s: State, main: nat, s': State)
    requires Ok(s, main) && Follows(s, Tick, s', main) && s'.pos < |s'.ring| && s'.Current() != s.Current()
    ensures s.Current() in s'.slice && s'.slice[s.Current()] == 10
  {
  }

  // While a slice lasts, a tick takes one unit and the thread stays.
  lemma TickSpends(s: State, main: nat, s': State)
    requires Ok(s, main) && Follows(s, Tick, s', main) && s.slice[s.Current()] > 1
    ensures s'.pos < |s'.ring| && s'.Current() == s.Current()
    ensures s'.slice[s.Current()] == s.slice[s.Current()] - 1
  {
  }

  // The last unit hands over when another thread is queued.
  lemma LastTickHandsOver(s: State, main: nat, s': State)
    requires Ok(s, main) && Follows(s, Tick, s', main) && s.slice[s.Current()] == 1 && |s.ring| >= 2
    ensures s'.pos < |s'.ring| && s'.Current() != s.Current()
  {
    CurrentIsKnown(s, main);
  }

  lemma ArrivalsKeepCurrent(s: State, main: nat, e: Event, s': State)
    requires Ok(s, main) && Follows(s, e, s', main) && (e.Create? || e.Start?)
    ensures s'.pos < |s'.ring| && s'.Current() == s.Current()
    ensures s.Current() in s'.slice && s'.slice[s.Current()] == s.slice[s.Current()]
  {
    CurrentIsKnown(s, main);
  }

  lemma RunLengths(run: seq<State>, events: seq<Event>, main: nat)
    requires IsRun(run, events, main)
    ensures |run| == |events| + 1
  {
  }

  lemma RunOk(run: seq<State>, events: seq<Event>, main: nat, i: nat)
    requires IsRun(run, events, main) && i < |run|
    ensures Ok(run[i], main) && run[i].pos < |run[i].ring| && CurrentOf(run[i]) == run[i].Current()
  {
    RunKeepsOk(run, events, main, i);
    CurrentOfIs(run[i], main);
  }

  lemma RunStep(run: seq<State>, events: seq<Event>, main: nat, i: nat)
    requires IsRun(run, events, main) && i < |events|
    ensures |run| == |events| + 1 && Ok(run[i], main) && Ok(run[i + 1], main) && Follows(run[i], events[i], run[i + 1], main)
    ensures run[i].pos < |run[i].ring| && CurrentOf(run[i]) == run[i].Current()
    ensures run[i + 1].pos < |run[i + 1].ring| && CurrentOf(run[i + 1]) == run[i + 1].Current()
    ensures run[i].Current() in run[i].slice && run[i + 1].Current() in run[i + 1].slice
  {
    RunKeepsOk(run, events, main, i);
    RunKeepsOk(run, events, main, i + 1);
    CurrentOfIs(run[i], main);
    CurrentOfIs(run[i + 1], main);
  }

  lemma NoTicks(events: seq<Event>)
    requires events == []
    ensures Ticks(events) == 0
  {
  }

  lemma OneMore(events: seq<Event>, j: nat, x: nat)
    requires j < x <= |events|
    ensures Ticks(events[j..x]) == (if events[x - 1].Tick? then 1 else 0) + Ticks(events[j..x - 1])
  {
    assert events[j..x][..|events[j..x]| - 1] == events[j..x - 1];
  }

  // From the tick that took t off the processor to its next turn, its slice is full.
  lemma {:induction false} WaitsWithFullSlice(run: seq<State>, events: seq<Event>, main: nat, t: nat, i: nat, j: nat)
    requires IsRun(run, events, main) && i < j < |run|
    requires events[i].Tick? && CurrentOf(run[i]) == t && CurrentOf(run[i + 1]) != t
    requires forall y :: i < y < j ==> CurrentOf(run[y]) != t
    ensures t in run[j].slice && run[j].slice[t] == 10
    decreases j
  {
    hide *;
    RunLengths(run, events, main);
    RunStep(run, events, main, j - 1);
    if j == i + 1 {
      SwitchRefills(run[i], main, run[j]);
    } else {
      WaitsWithFullSlice(run, events, main, t, i, j - 1);
      OtherSliceKept(run[j - 1], main, events[j - 1], run[j], t);
    }
  }

  // In a turn that starts with a full slice, each tick takes one unit.
  lemma {:induction false} TurnGoesOn(run: seq<State>, events: seq<Event>, main: nat, t: nat, j: nat, x: nat)
    requires IsRun(run, events, main) && j <= x < |run| && CurrentOf(run[j]) == t
    requires t in run[j].slice && run[j].slice[t] == 10
    requires (forall y :: j <= y < x ==> !events[y].Exit?) && Ticks(events[j..x]) <= 9
    ensures CurrentOf(run[x]) == t && t in run[x].slice && run[x].slice[t] == 10 - Ticks(events[j..x])
    decreases x
  {
    hide *;
    RunLengths(run, events, main);
    RunOk(run, events, main, x);
    if j == x {
      NoTicks(events[j..x]);
    } else {
      var e := events[x - 1];
      OneMore(events, j, x);
      TurnGoesOn(run, events, main, t, j, x - 1);
      RunStep(run, events, main, x - 1);
      if e.Tick? {
        TickSpends(run[x - 1], main, run[x]);
      } else {
        ArrivalsKeepCurrent(run[x - 1], main, e, run[x]);
      }
    }
  }

  // A full turn: once a tick has taken t off the processor, its next turn lasts exactly
  // ten ticks, unless it exits. It stays current through nine ticks, and the tenth hands
  // over when another thread is queued.
  lemma TurnLastsTenTicks(run: seq<State>, events: seq<Event>, main: nat, t: nat, i: nat, j: nat, x: nat)
    requires IsRun(run, events, main) && i < j <= x < |run|
    requires events[i].Tick? && CurrentOf(run[i]) == t && CurrentOf(run[i + 1]) != t
    requires (forall y :: i < y < j ==> CurrentOf(run[y]) != t) && CurrentOf(run[j]) == t
    requires (forall y :: j <= y < x ==> !events[y].Exit?) && Ticks(events[j..x]) <= 9
    ensures CurrentOf(run[x]) == t
    ensures Ticks(events[j..x]) == 9 && x < |events| && events[x].Tick? && |run[x].ring| >= 2 ==> CurrentOf(run[x + 1]) != t
  {
    WaitsWithFullSlice(run, events, main, t, i, j);
    TurnGoesOn(run, events, main, t, j, x);
    if Ticks(events[j..x]) == 9 && x < |events| && events[x].Tick? && |run[x].ring| >= 2 {
      RunKeepsOk(run, events, main, x);
      CurrentOfIs(run[x], main);
      assert Follows(run[x], events[x], run[x + 1], main);
      LastTickHandsOver(run[x], main, run[x + 1]);
    }
  }

  // The main thread's first turn likewise.
  lemma FirstTurnLastsTenTicks(run: seq<State>, events: seq<Event>, main: nat, x: nat)
    requires IsRun(run, events, main) && run[0] == Initial(main) && x < |run|
    requires (forall y :: 0 <= y < x ==> !events[y].Exit?) && Ticks(events[0..x]) <= 9
    ensures CurrentOf(run[x]) == main
    ensures Ticks(events[0..x]) == 9 && x < |events| && events[x].Tick? && |run[x].ring| >= 2 ==> CurrentOf(run[x + 1]) != main
  {
    TurnGoesOn(run, events, main, main, 0, x);
    if Ticks(events[0..x]) == 9 && x < |events| && events[x].Tick? && |run[x].ring| >= 2 {
      RunKeepsOk(run, events, main, x);
      CurrentOfIs(run[x], main);
      assert Follows(run[x], events[x], run[x + 1], main);
      LastTickHandsOver(run[x], main, run[x + 1]);
    }
  }

  // A started thread is queued last: after all others in the list's order, which stays.
  lemma StartGoesLast(s: State, main: nat, t: nat)
    requires Ok(s, main) && t in s.state
    ensures t !in s.ring ==> StartStep(s, t).ring == s.ring + [t] && AtDistance(StartStep(s, t), t, |s.ring| - s.pos)
    ensures t in s.ring ==> StartStep(s, t).ring == s.ring
    ensures StartStep(s, t).pos == s.pos
  {
  }
}
