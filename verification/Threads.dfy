// Scheduler and context switch together: what the scheduler's steps do to the stacks
// of all threads (sched.c, thread.c, cpu_switch_context.asm, thread_trampoline.asm).
module Threads {
  import opened Context
  import opened SchedSpec
  import opened Sched

  // The scheduler's state, the machine, what each thread was created with, and the
  // threads whose stack was laid out and that have not run since.
  datatype System = System(s: SchedSpec.State, m: Machine, entry: map<nat, nat>, arg: map<nat, nat>, unrun: set<nat>)

  // The current thread computes, or one of the scheduler's events happens; a creation
  // comes with the thread's entry point and argument.
  datatype Event = Run | Op(e: SchedSpec.Event, entry: nat, arg: nat)

  ghost predicate Step(l: Context.Layout, trampoline: nat, main: nat, x: System, e: Event, x': System) {
    match e
    case Run => Context.Step(l, trampoline, x.m, Compute, x'.m) && x' == x.(m := x'.m)
    case Op(op, entry, arg) =>
      && Follows(x.s, op, x'.s, main) && x'.s.pos < |x'.s.ring|
      && match op
         case Tick => Switches(l, trampoline, x, x')
         case Exit => Switches(l, trampoline, x, x')
         case Create(t, _) =>
           && x'.entry == x.entry[t := entry] && x'.arg == x.arg[t := arg] && x'.unrun == x.unrun + {t}
           && Context.Step(l, trampoline, x.m, Setup(t, entry, arg), x'.m)
         case Start(t) => Starts(l, trampoline, x, t, x')
  }

  // The processor switches stacks exactly when the current thread changes.
  ghost predicate Switches(l: Context.Layout, trampoline: nat, x: System, x': System)
    requires x'.s.pos < |x'.s.ring|
  {
    var next := x'.s.Current();
    && x'.entry == x.entry && x'.arg == x.arg && x'.unrun == x.unrun - {next}
    && if next == x.m.current then x'.m == x.m else Context.Step(l, trampoline, x.m, SwitchTo(next), x'.m)
  }

  // A terminated thread's stack is laid out anew from what it was created with.
  ghost predicate Starts(l: Context.Layout, trampoline: nat, x: System, t: nat, x': System)
    requires t in x.s.state
  {
    && x'.entry == x.entry && x'.arg == x.arg
    && if x.s.state[t].Terminated? then
         && t in x.entry && t in x.arg && x'.unrun == x.unrun + {t}
         && Context.Step(l, trampoline, x.m, Setup(t, x.entry[t], x.arg[t]), x'.m)
       else x'.unrun == x.unrun && x'.m == x.m
  }

  ghost predicate Waits(l: Context.Layout, m: Machine, t: nat) {
    exists a: nat, s: Saved, ret: nat :: Parked(l, m, t, a, s, ret)
  }

  // Thread t waits for its first run.
  ghost predicate WaitsUnrun(l: Context.Layout, trampoline: nat, x: System, t: nat) {
    && IsThread(l, t) && t in x.entry && t in x.arg && l.hi[t] >= 56
    && Parked(l, x.m, t, l.hi[t] - 56, Saved(0, 0, 0, 0, x.arg[t], x.entry[t]), trampoline)
  }

  // The scheduler and the machine agree on the current thread; every other thread that
  // has not terminated is parked on its own stack, and one that has not run yet waits
  // with exactly what it was created with.
  ghost predicate SystemOk(l: Context.Layout, trampoline: nat, main: nat, x: System) {
    && Ok(x.s, main) && x.m.current == x.s.Current()
    && OthersWait(l, x.m, x.s.state)
    && UnrunWait(l, trampoline, x)
  }

  ghost predicate OthersWait(l: Context.Layout, m: Machine, state: map<nat, ThreadState>) {
    forall t :: t in state && !state[t].Terminated? && t != m.current ==> Waits(l, m, t)
  }

  ghost predicate UnrunWait(l: Context.Layout, trampoline: nat, x: System) {
    && x.m.current !in x.unrun
    && forall t :: t in x.unrun ==> t in x.s.state && !x.s.state[t].Terminated? && WaitsUnrun(l, trampoline, x, t)
  }

  lemma WaitsStays(l: Context.Layout, trampoline: nat, m: Machine, e: Context.Event, m': Machine, t: nat)
    requires LayoutOk(l) && Context.Step(l, trampoline, m, e, m') && Waits(l, m, t)
    requires m.current != t && m'.current != t && !(e.Setup? && e.t == t)
    ensures Waits(l, m', t)
  {
    hide Parked, LayoutOk, Context.Step;
    var a: nat, s: Saved, ret: nat :| Parked(l, m, t, a, s, ret);
    ParkedStays(l, trampoline, m, e, m', t, a, s, ret);
  }

  lemma UnrunStays(l: Context.Layout, trampoline: nat, x: System, e: Context.Event, x': System, t: nat)
    requires LayoutOk(l) && Context.Step(l, trampoline, x.m, e, x'.m) && WaitsUnrun(l, trampoline, x, t)
    requires x.m.current != t && x'.m.current != t && !(e.Setup? && e.t == t)
    requires t in x'.entry && t in x'.arg && x'.entry[t] == x.entry[t] && x'.arg[t] == x.arg[t]
    ensures WaitsUnrun(l, trampoline, x', t)
  {
    hide Parked, LayoutOk, Context.Step;
    ParkedStays(l, trampoline, x.m, e, x'.m, t, l.hi[t] - 56, Saved(0, 0, 0, 0, x.arg[t], x.entry[t]), trampoline);
  }

  // Every step keeps all threads' stacks ready to be resumed.
  lemma StepKeepsSystem(l: Context.Layout, trampoline: nat, main: nat, x: System, e: Event, x': System)
    requires LayoutOk(l) && SystemOk(l, trampoline, main, x) && Step(l, trampoline, main, x, e, x')
    ensures SystemOk(l, trampoline, main, x')
  {
    match e
    case Run => ComputeKeeps(l, trampoline, main, x, x');
    case Op(op, entry, arg) =>
      StepKeepsOk(x.s, main, op);
      match op {
        case Tick =>
          TickStates(x.s, main);
          SwitchKeeps(l, trampoline, main, x, x');
        case Exit =>
          ExitStates(x.s, main);
          SwitchKeeps(l, trampoline, main, x, x');
        case Create(t, _) => CreateKeeps(l, trampoline, main, x, t, op, entry, arg, x');
        case Start(t) => StartKeeps(l, trampoline, main, x, t, x');
      }
  }

  // One step of the machine: threads that waited wait on, the one left now waits, and
  // so does one whose stack was laid out.
  lemma OthersStay(l: Context.Layout, trampoline: nat, m: Machine, e: Context.Event, m': Machine,
                   state: map<nat, ThreadState>, state': map<nat, ThreadState>)
    requires LayoutOk(l) && Context.Step(l, trampoline, m, e, m') && OthersWait(l, m, state)
    requires forall t :: t in state' && !state'[t].Terminated? && t != m.current && !(e.Setup? && t == e.t) ==>
      t in state && !state[t].Terminated?
    ensures OthersWait(l, m', state')
  {
    SameCurrent(l, trampoline, m, e, m');
    hide LayoutOk, Context.Step, Waits;
    forall t | t in state' && !state'[t].Terminated? && t != m'.current
      ensures Waits(l, m', t)
    {
      if t == m.current {
        LeavingWaits(l, trampoline, m, m'.current, m');
      } else if e.Setup? && e.t == t {
        SetupWaits(l, trampoline, m, t, e.entry, e.arg, m');
      } else {
        WaitsStays(l, trampoline, m, e, m', t);
      }
    }
  }

  // Who waits for a first run after a machine step: those that did, with the same entry
  // point and argument, and the thread whose stack was laid out; none of them runs.
  ghost predicate UnrunKept(x: System, e: Context.Event, x': System) {
    && x'.m.current !in x'.unrun
    && forall t :: t in x'.unrun ==> UnrunKeptAt(x, e, x', t)
  }

  ghost predicate UnrunKeptAt(x: System, e: Context.Event, x': System, t: nat) {
    && t in x'.s.state && !x'.s.state[t].Terminated? && t in x'.entry && t in x'.arg
    && if e.Setup? && t == e.t then x'.entry[t] == e.entry && x'.arg[t] == e.arg
       else t in x.unrun && t in x.entry && t in x.arg && x'.entry[t] == x.entry[t] && x'.arg[t] == x.arg[t]
  }

  lemma UnrunStay(l: Context.Layout, trampoline: nat, x: System, e: Context.Event, x': System)
    requires LayoutOk(l) && Context.Step(l, trampoline, x.m, e, x'.m) && UnrunWait(l, trampoline, x) && UnrunKept(x, e, x')
    ensures UnrunWait(l, trampoline, x')
  {
    hide LayoutOk, Context.Step, WaitsUnrun, Parked;
    SameCurrent(l, trampoline, x.m, e, x'.m);
    forall t | t in x'.unrun
      ensures WaitsUnrun(l, trampoline, x', t)
    {
      if e.Setup? && e.t == t {
        SetupWaits(l, trampoline, x.m, t, e.entry, e.arg, x'.m);
        NowUnrun(l, trampoline, x', t);
      } else {
        UnrunStays(l, trampoline, x, e, x', t);
      }
    }
  }

  lemma ComputeKeeps(l: Context.Layout, trampoline: nat, main: nat, x: System, x': System)
    requires LayoutOk(l) && SystemOk(l, trampoline, main, x)
    requires Context.Step(l, trampoline, x.m, Compute, x'.m) && x' == x.(m := x'.m)
    ensures SystemOk(l, trampoline, main, x')
  {
    SameCurrent(l, trampoline, x.m, Compute, x'.m);
    UnrunAreKnown(l, trampoline, x);
    hide LayoutOk, Context.Step, Ok, OthersWait, UnrunWait;
    OthersStay(l, trampoline, x.m, Compute, x'.m, x.s.state, x.s.state);
    UnrunStay(l, trampoline, x, Compute, x');
  }

  lemma UnrunAreKnown(l: Context.Layout, trampoline: nat, x: System)
    requires UnrunWait(l, trampoline, x)
    ensures forall t :: t in x.unrun ==> t in x.entry && t in x.arg && t in x.s.state && !x.s.state[t].Terminated?
    ensures x.m.current !in x.unrun
  {
  }

  lemma SameCurrent(l: Context.Layout, trampoline: nat, m: Machine, e: Context.Event, m': Machine)
    requires Context.Step(l, trampoline, m, e, m')
    ensures m'.current == if e.SwitchTo? then e.t else m.current
    ensures !e.Compute? ==> e.t != m.current && IsThread(l, e.t)
  {
  }

  lemma PosIsInRing(s: SchedSpec.State, main: nat)
    requires Ok(s, main)
    ensures s.pos < |s.ring|
  {
  }

  // A switch leaves every state as it was, other than that of an exiting thread.
  lemma SwitchKeeps(l: Context.Layout, trampoline: nat, main: nat, x: System, x': System)
    requires LayoutOk(l) && SystemOk(l, trampoline, main, x) && Ok(x'.s, main) && Switches(l, trampoline, x, x')
    requires x'.s.state.Keys == x.s.state.Keys
    requires forall t :: t in x.s.state && t != x.m.current ==> x'.s.state[t] == x.s.state[t]
    ensures SystemOk(l, trampoline, main, x')
  {
    hide *;
    SystemParts(l, trampoline, main, x);
    PosIsInRing(x'.s, main);
    SwitchParts(l, trampoline, x, x');
    var next := x'.s.Current();
    if next == x.m.current {
      SameMachine(l, trampoline, x, x');
    } else {
      SameCurrent(l, trampoline, x.m, SwitchTo(next), x'.m);
      OthersStay(l, trampoline, x.m, SwitchTo(next), x'.m, x.s.state, x'.s.state);
      SwitchKeepsUnrun(x, next, x');
      UnrunStay(l, trampoline, x, SwitchTo(next), x');
    }
    SystemIs(l, trampoline, main, x');
  }

  lemma SystemParts(l: Context.Layout, trampoline: nat, main: nat, x: System)
    requires SystemOk(l, trampoline, main, x)
    ensures Ok(x.s, main) && x.s.pos < |x.s.ring| && x.m.current == x.s.Current()
    ensures OthersWait(l, x.m, x.s.state) && UnrunWait(l, trampoline, x) && x.m.current !in x.unrun
    ensures forall t :: t in x.unrun ==> t in x.entry && t in x.arg && t in x.s.state && !x.s.state[t].Terminated?
  {
  }

  lemma SystemIs(l: Context.Layout, trampoline: nat, main: nat, x: System)
    requires Ok(x.s, main) && x.s.pos < |x.s.ring| && x.m.current == x.s.Current()
    requires OthersWait(l, x.m, x.s.state) && UnrunWait(l, trampoline, x)
    ensures SystemOk(l, trampoline, main, x)
  {
  }

  lemma SwitchParts(l: Context.Layout, trampoline: nat, x: System, x': System)
    requires x'.s.pos < |x'.s.ring| && Switches(l, trampoline, x, x')
    ensures var next := x'.s.Current();
      && x'.entry == x.entry && x'.arg == x.arg && x'.unrun == x.unrun - {next}
      && (next == x.m.current ==> x'.m == x.m)
      && (next != x.m.current ==> Context.Step(l, trampoline, x.m, SwitchTo(next), x'.m))
  {
  }

  // With the machine unchanged, no thread's state changed but the current one's.
  lemma SameMachine(l: Context.Layout, trampoline: nat, x: System, x': System)
    requires x'.m == x.m && x'.entry == x.entry && x'.arg == x.arg && x'.unrun <= x.unrun
    requires OthersWait(l, x.m, x.s.state) && UnrunWait(l, trampoline, x)
    requires forall t :: t in x'.s.state && !x'.s.state[t].Terminated? && t != x.m.current ==>
      t in x.s.state && !x.s.state[t].Terminated?
    requires forall t :: t in x'.unrun ==> t in x'.s.state && !x'.s.state[t].Terminated?
    ensures OthersWait(l, x'.m, x'.s.state) && UnrunWait(l, trampoline, x')
  {
    hide Waits, Parked;
  }

  lemma SwitchKeepsUnrun(x: System, next: nat, x': System)
    requires x'.m.current == next && x'.entry == x.entry && x'.arg == x.arg && x'.unrun == x.unrun - {next}
    requires x.m.current !in x.unrun && x'.s.state.Keys == x.s.state.Keys
    requires forall t :: t in x.s.state && t != x.m.current ==> x'.s.state[t] == x.s.state[t]
    requires forall t :: t in x.unrun ==> t in x.entry && t in x.arg && t in x.s.state && !x.s.state[t].Terminated?
    ensures UnrunKept(x, SwitchTo(next), x')
  {
  }

  lemma SetupKeepsUnrun(x: System, t: nat, x': System)
    requires x'.m.current == x.m.current && t != x.m.current && x.m.current !in x.unrun && x'.unrun == x.unrun + {t}
    requires t in x'.entry && t in x'.arg && t in x'.s.state && !x'.s.state[t].Terminated?
    requires x'.s.state.Keys == x.s.state.Keys + {t}
    requires forall u :: u in x.s.state && u != t ==> x'.s.state[u] == x.s.state[u]
    requires forall u :: u in x.entry && u in x.arg && u != t ==>
      u in x'.entry && u in x'.arg && x'.entry[u] == x.entry[u] && x'.arg[u] == x.arg[u]
    requires forall u :: u in x.unrun ==> u in x.entry && u in x.arg && u in x.s.state && !x.s.state[u].Terminated?
    ensures UnrunKept(x, Setup(t, x'.entry[t], x'.arg[t]), x')
  {
  }

  lemma LeavingWaits(l: Context.Layout, trampoline: nat, m: Machine, u: nat, m': Machine)
    requires LayoutOk(l) && Context.Step(l, trampoline, m, SwitchTo(u), m')
    ensures Waits(l, m', m.current)
  {
    LeavingParks(l, trampoline, m, u, m');
  }

  lemma SetupWaits(l: Context.Layout, trampoline: nat, m: Machine, t: nat, entry: nat, arg: nat, m': Machine)
    requires LayoutOk(l) && Context.Step(l, trampoline, m, Setup(t, entry, arg), m')
    ensures IsThread(l, t) && l.hi[t] >= 56 && Waits(l, m', t)
    ensures Parked(l, m', t, l.hi[t] - 56, Saved(0, 0, 0, 0, arg, entry), trampoline)
  {
    SetupParks(l, trampoline, m, t, entry, arg, m');
  }

  lemma TickStates(s: SchedSpec.State, main: nat)
    requires Ok(s, main)
    ensures s.Current() in s.state && s.Current() in s.slice && TickStep(s).state == s.state
  {
    CurrentIsKnown(s, main);
  }

  lemma ExitStates(s: SchedSpec.State, main: nat)
    requires Ok(s, main) && s.Current() != main
    ensures s.Current() in s.state && s.Current() in s.slice
    ensures ExitStep(s).state == s.state[s.Current() := Terminated]
  {
    CurrentIsKnown(s, main);
  }

  // Laying out the stack of a thread that is not current leaves every other thread
  // waiting and makes this one wait for its first run.
  lemma SetupKeeps(l: Context.Layout, trampoline: nat, main: nat, x: System, t: nat, x': System)
    requires LayoutOk(l) && SystemOk(l, trampoline, main, x) && Ok(x'.s, main)
    requires t in x'.entry && t in x'.arg && Context.Step(l, trampoline, x.m, Setup(t, x'.entry[t], x'.arg[t]), x'.m)
    requires x'.s.Current() == x.s.Current() && x'.unrun == x.unrun + {t}
    requires t in x'.s.state && !x'.s.state[t].Terminated? && x'.s.state.Keys == x.s.state.Keys + {t}
    requires forall u :: u in x.s.state && u != t ==> x'.s.state[u] == x.s.state[u]
    requires forall u :: u in x.entry && u in x.arg && u != t ==>
      u in x'.entry && u in x'.arg && x'.entry[u] == x.entry[u] && x'.arg[u] == x.arg[u]
    ensures SystemOk(l, trampoline, main, x')
  {
    hide *;
    var e := Setup(t, x'.entry[t], x'.arg[t]);
    SystemParts(l, trampoline, main, x);
    PosIsInRing(x'.s, main);
    SameCurrent(l, trampoline, x.m, e, x'.m);
    OthersStay(l, trampoline, x.m, e, x'.m, x.s.state, x'.s.state);
    SetupKeepsUnrun(x, t, x');
    UnrunStay(l, trampoline, x, e, x');
    SystemIs(l, trampoline, main, x');
  }

  lemma NowUnrun(l: Context.Layout, trampoline: nat, x: System, t: nat)
    requires IsThread(l, t) && t in x.entry && t in x.arg && l.hi[t] >= 56
    requires Parked(l, x.m, t, l.hi[t] - 56, Saved(0, 0, 0, 0, x.arg[t], x.entry[t]), trampoline)
    ensures WaitsUnrun(l, trampoline, x, t)
  {
  }

  lemma CreateKeeps(l: Context.Layout, trampoline: nat, main: nat, x: System, t: nat, op: SchedSpec.Event, entry: nat, arg: nat,
                    x': System)
    requires LayoutOk(l) && SystemOk(l, trampoline, main, x) && Ok(x'.s, main)
    requires op.Create? && op.t == t && Follows(x.s, op, x'.s, main)
    requires x'.entry == x.entry[t := entry] && x'.arg == x.arg[t := arg] && x'.unrun == x.unrun + {t}
    requires Context.Step(l, trampoline, x.m, Setup(t, entry, arg), x'.m)
    ensures SystemOk(l, trampoline, main, x')
  {
    hide *;
    SystemParts(l, trampoline, main, x);
    PosIsInRing(x'.s, main);
    CreateParts(x.s, op, x'.s, main);
    SetupKeeps(l, trampoline, main, x, t, x');
  }

  lemma CreateParts(s: SchedSpec.State, op: SchedSpec.Event, s': SchedSpec.State, main: nat)
    requires op.Create? && Follows(s, op, s', main)
    ensures op.t !in s.state && s'.state == s.state[op.t := New] && !New.Terminated?
    ensures s.pos < |s.ring| && s'.pos < |s'.ring| && s'.Current() == s.Current()
  {
  }

  lemma StartKeeps(l: Context.Layout, trampoline: nat, main: nat, x: System, t: nat, x': System)
    requires LayoutOk(l) && SystemOk(l, trampoline, main, x) && Ok(x'.s, main)
    requires t in x.s.state && Follows(x.s, SchedSpec.Start(t), x'.s, main) && Starts(l, trampoline, x, t, x')
    ensures SystemOk(l, trampoline, main, x')
  {
    hide *;
    SystemParts(l, trampoline, main, x);
    PosIsInRing(x'.s, main);
    StartParts(l, trampoline, main, x, t, x');
    StartStates(x.s, t);
    if x.s.state[t].Terminated? {
      SetupKeeps(l, trampoline, main, x, t, x');
    } else {
      SameMachine(l, trampoline, x, x');
      SystemIs(l, trampoline, main, x');
    }
  }

  lemma StartParts(l: Context.Layout, trampoline: nat, main: nat, x: System, t: nat, x': System)
    requires t in x.s.state && Follows(x.s, SchedSpec.Start(t), x'.s, main) && Starts(l, trampoline, x, t, x')
    ensures x'.s == StartStep(x.s, t) && x'.entry == x.entry && x'.arg == x.arg && !Ready.Terminated?
    ensures x.s.state[t].Terminated? ==> t in x.entry && t in x.arg && x'.unrun == x.unrun + {t}
    ensures x.s.state[t].Terminated? ==> Context.Step(l, trampoline, x.m, Setup(t, x.entry[t], x.arg[t]), x'.m)
    ensures !x.s.state[t].Terminated? ==> x'.unrun == x.unrun && x'.m == x.m
  {
    hide Context.Step, StartStep;
  }

  lemma StartStates(s: SchedSpec.State, t: nat)
    requires t in s.state && s.pos < |s.ring|
    ensures var s' := StartStep(s, t);
      s'.state == s.state[t := Ready] && s'.pos < |s'.ring| && s'.Current() == s.Current()
  {
  }

  ghost predicate IsRun(l: Context.Layout, trampoline: nat, main: nat, run: seq<System>, events: seq<Event>) {
    && |run| == |events| + 1 && SystemOk(l, trampoline, main, run[0])
    && forall i :: 0 <= i < |events| ==> Step(l, trampoline, main, run[i], events[i], run[i + 1])
  }

  // In every state of every run, every thread the scheduler could switch to is parked
  // on its own stack.
  lemma {:induction false} RunKeepsSystem(l: Context.Layout, trampoline: nat, main: nat, run: seq<System>, events: seq<Event>, i: nat)
    requires LayoutOk(l) && IsRun(l, trampoline, main, run, events) && i < |run|
    ensures SystemOk(l, trampoline, main, run[i])
  {
    if i > 0 {
      RunKeepsSystem(l, trampoline, main, run, events, i - 1);
      StepKeepsSystem(l, trampoline, main, run[i - 1], events[i - 1], run[i]);
    }
  }

  // The system after sched_init.
  lemma SystemStarts(l: Context.Layout, trampoline: nat, main: nat, m: Machine)
    requires m.current == main
    ensures SystemOk(l, trampoline, main, System(Initial(main), m, map[], map[], {}))
  {
    InitialIsOk(main);
  }

  // Whatever happened since a thread was created or restarted, when the scheduler first
  // switches to it the trampoline calls thread_entry_wrapper with exactly the entry
  // point and the argument the thread was created with.
  lemma FirstRunEntersWrapper(l: Context.Layout, trampoline: nat, wrapper: nat, main: nat, run: seq<System>, events: seq<Event>,
                              i: nat, t: nat)
    requires LayoutOk(l) && IsRun(l, trampoline, main, run, events) && i < |events|
    requires t in run[i].unrun && run[i + 1].m.current == t
    ensures t in run[i].entry && t in run[i].arg
    ensures var r := run[i + 1].m.regs;
      && r.rip == trampoline && r.rsp >= 8
      && var called := Entered(r, wrapper);
         called.rip == wrapper && called.rdi == run[i].entry[t] && called.rsi == run[i].arg[t]
  {
    hide *;
    StepOfRun(l, trampoline, main, run, events, i);
    RunKeepsSystem(l, trampoline, main, run, events, i);
    UnrunWaits(l, trampoline, main, run[i], t);
    SwitchTaken(l, trampoline, main, run[i], events[i], run[i + 1]);
    WaitingEnters(l, trampoline, wrapper, run[i], t, run[i + 1]);
  }

  lemma StepOfRun(l: Context.Layout, trampoline: nat, main: nat, run: seq<System>, events: seq<Event>, i: nat)
    requires IsRun(l, trampoline, main, run, events) && i < |events|
    ensures |run| == |events| + 1 && Step(l, trampoline, main, run[i], events[i], run[i + 1])
  {
  }

  lemma UnrunWaits(l: Context.Layout, trampoline: nat, main: nat, x: System, t: nat)
    requires SystemOk(l, trampoline, main, x) && t in x.unrun
    ensures WaitsUnrun(l, trampoline, x, t) && t in x.entry && t in x.arg && t != x.m.current
  {
  }

  lemma WaitingEnters(l: Context.Layout, trampoline: nat, wrapper: nat, x: System, t: nat, x': System)
    requires LayoutOk(l) && WaitsUnrun(l, trampoline, x, t) && Context.Step(l, trampoline, x.m, SwitchTo(t), x'.m)
    requires t in x.entry && t in x.arg
    ensures var r := x'.m.regs;
      && r.rip == trampoline && r.rsp >= 8
      && var called := Entered(r, wrapper);
         called.rip == wrapper && called.rdi == x.entry[t] && called.rsi == x.arg[t]
  {
    hide LayoutOk, Context.Step, Parked;
    ResumingRestores(l, trampoline, x.m, t, x'.m, l.hi[t] - 56, Saved(0, 0, 0, 0, x.arg[t], x.entry[t]), trampoline);
  }

  // The current thread changes only by a switch.
  lemma SwitchTaken(l: Context.Layout, trampoline: nat, main: nat, x: System, e: Event, x': System)
    requires LayoutOk(l) && SystemOk(l, trampoline, main, x) && Step(l, trampoline, main, x, e, x')
    requires x'.m.current != x.m.current
    ensures Context.Step(l, trampoline, x.m, SwitchTo(x'.m.current), x'.m)
  {
    hide Ok, WaitsUnrun, Waits, LayoutOk;
    match e
    case Run => SameCurrent(l, trampoline, x.m, Compute, x'.m);
    case Op(op, entry, arg) =>
      match op {
        case Tick => SwitchIsTaken(l, trampoline, x, x');
        case Exit => SwitchIsTaken(l, trampoline, x, x');
        case Create(t, _) => SameCurrent(l, trampoline, x.m, Setup(t, entry, arg), x'.m);
        case Start(t) => StartsSameCurrent(l, trampoline, x, t, x');
      }
  }

  lemma StartsSameCurrent(l: Context.Layout, trampoline: nat, x: System, t: nat, x': System)
    requires t in x.s.state && Starts(l, trampoline, x, t, x')
    ensures x'.m.current == x.m.current
  {
    if x.s.state[t].Terminated? {
      SameCurrent(l, trampoline, x.m, Setup(t, x.entry[t], x.arg[t]), x'.m);
    }
  }

  lemma SwitchIsTaken(l: Context.Layout, trampoline: nat, x: System, x': System)
    requires x'.s.pos < |x'.s.ring| && Switches(l, trampoline, x, x') && x'.m.current != x.m.current
    ensures Context.Step(l, trampoline, x.m, SwitchTo(x'.m.current), x'.m)
  {
    SameCurrent(l, trampoline, x.m, SwitchTo(x'.s.Current()), x'.m);
  }

  // ---- The scheduler's code makes these steps ----

  ghost function SystemOf(k: Sched, unrun: set<nat>): System
    reads k, k.cpu
  {
    System(k.S(), Machine(k.cpu.mem, k.cpu.R(), k.current), k.entry, k.arg, unrun)
  }

  // Every known thread has its place in memory, its saved stack pointer first in its
  // structure, and the current one runs on its own stack with room for a switch.
  ghost predicate Placed(l: Context.Layout, x: System, base: map<nat, nat>) {
    && (forall t :: t in x.s.state ==> PlacedAt(l, base, t))
    && x.m.current in x.s.state
    && l.lo[x.m.current] + 48 <= x.m.regs.rsp && x.m.regs.rsp + 8 <= l.hi[x.m.current]
  }

  predicate PlacedAt(l: Context.Layout, base: map<nat, nat>, t: nat) {
    IsThread(l, t) && l.field[t] == t && (t in base ==> l.hi[t] == base[t] + MAX_STACK_SIZE)
  }

  // What sched_on_tick and thread_terminate promise about the processor.
  ghost predicate SwitchedIfMoved(x: System, x': System) {
    && (x'.m.current == x.m.current ==> x'.m == x.m)
    && (x'.m.current != x.m.current ==>
          Switched(x.m.mem, x.m.regs, x.m.current, x'.m.current, x'.m.mem, x'.m.regs))
  }

  lemma MovedIsSwitch(l: Context.Layout, trampoline: nat, x: System, base: map<nat, nat>, x': System)
    requires Placed(l, x, base) && SwitchedIfMoved(x, x')
    requires x'.s.pos < |x'.s.ring| && x'.m.current == x'.s.Current() && x'.m.current in x.s.state
    requires x'.entry == x.entry && x'.arg == x.arg && x'.unrun == x.unrun - {x'.m.current}
    ensures Switches(l, trampoline, x, x')
  {
    hide Switched, Context.Step;
    assert PlacedAt(l, base, x.m.current) && PlacedAt(l, base, x'.m.current);
    if x'.m.current != x.m.current {
      SwitchIsStep(l, trampoline, x.m, x'.m.current, x'.m);
    }
  }

  // What a valid scheduler is, as a system.
  lemma SchedParts(k: Sched, unrun: set<nat>)
    requires k.Valid()
    ensures var x := SystemOf(k, unrun);
      && Ok(x.s, k.main) && x.s.pos < |x.s.ring| && x.m.current == x.s.Current() == k.current
      && x.s == k.S() && x.m == Machine(k.cpu.mem, k.cpu.R(), k.current) && x.entry == k.entry && x.arg == k.arg
      && x.unrun == unrun && x.s.state == k.state && x.m.regs.rsp == k.cpu.rsp
  {
  }

  lemma RoomToSwitch(l: Context.Layout, x: System, base: map<nat, nat>)
    requires Placed(l, x, base)
    ensures x.m.regs.rsp >= 48
  {
  }

  lemma TickIsStep(l: Context.Layout, trampoline: nat, main: nat, x: System, base: map<nat, nat>, x': System)
    requires Ok(x.s, main) && x.s.pos < |x.s.ring| && x.s.Current() in x.s.state && x.s.Current() in x.s.slice
    requires Placed(l, x, base) && SwitchedIfMoved(x, x') && Ok(x'.s, main) && x'.s == TickStep(x.s)
    requires x'.s.pos < |x'.s.ring| && x'.m.current == x'.s.Current()
    requires x'.entry == x.entry && x'.arg == x.arg && x'.unrun == x.unrun - {x'.m.current}
    ensures Step(l, trampoline, main, x, Op(SchedSpec.Tick, 0, 0), x')
  {
    hide *;
    CurrentIsKnown(x'.s, main);
    TickStates(x.s, main);
    MovedIsSwitch(l, trampoline, x, base, x');
    TickFollows(x.s, main, x'.s);
    StepIsSwitch(l, trampoline, main, x, SchedSpec.Tick, x');
  }

  lemma TickFollows(s: SchedSpec.State, main: nat, s': SchedSpec.State)
    requires s.pos < |s.ring| && s.Current() in s.state && s.Current() in s.slice && s' == TickStep(s)
    ensures Follows(s, SchedSpec.Tick, s', main)
  {
    hide TickStep;
  }

  lemma ExitFollows(s: SchedSpec.State, main: nat, s': SchedSpec.State)
    requires s.pos < |s.ring| && s.Current() in s.state && s.Current() in s.slice && s' == ExitStep(s) && s.Current() != main
    ensures Follows(s, SchedSpec.Exit, s', main)
  {
    hide ExitStep;
  }

  lemma StepIsSwitch(l: Context.Layout, trampoline: nat, main: nat, x: System, op: SchedSpec.Event, x': System)
    requires (op.Tick? || op.Exit?) && Follows(x.s, op, x'.s, main) && x'.s.pos < |x'.s.ring| && Switches(l, trampoline, x, x')
    ensures Step(l, trampoline, main, x, Op(op, 0, 0), x')
  {
    hide Follows, Switches, Context.Step;
  }

  lemma ExitIsStep(l: Context.Layout, trampoline: nat, main: nat, x: System, base: map<nat, nat>, x': System)
    requires Ok(x.s, main) && x.s.pos < |x.s.ring| && x.s.Current() in x.s.state && x.s.Current() in x.s.slice
    requires x.s.Current() != main
    requires Placed(l, x, base) && SwitchedIfMoved(x, x') && Ok(x'.s, main) && x'.s == ExitStep(x.s)
    requires x'.s.pos < |x'.s.ring| && x'.m.current == x'.s.Current()
    requires x'.entry == x.entry && x'.arg == x.arg && x'.unrun == x.unrun - {x'.m.current}
    ensures Step(l, trampoline, main, x, Op(SchedSpec.Exit, 0, 0), x')
  {
    hide *;
    CurrentIsKnown(x'.s, main);
    ExitStates(x.s, main);
    MovedIsSwitch(l, trampoline, x, base, x');
    ExitFollows(x.s, main, x'.s);
    StepIsSwitch(l, trampoline, main, x, SchedSpec.Exit, x');
  }

  // sched_on_tick is a tick of the joint runs.
  method OnTickSteps(k: Sched, l: Context.Layout, ghost unrun: set<nat>) returns (ghost unrun': set<nat>)
    requires k.Valid() && Placed(l, SystemOf(k, unrun), k.stackBase)
    modifies k`current, k`ring, k`pos, k`slice, k.links, k.cpu
    ensures k.Valid()
    ensures Step(l, k.trampoline, k.main, old(SystemOf(k, unrun)), Op(SchedSpec.Tick, 0, 0), SystemOf(k, unrun'))
  {
    hide *;
    ghost var x := SystemOf(k, unrun);
    SchedParts(k, unrun);
    RoomToSwitch(l, x, k.stackBase);
    CurrentIsKnown(x.s, k.main);
    k.OnTick();
    unrun' := unrun - {k.current};
    SchedParts(k, unrun');
    MovedIs(x, SystemOf(k, unrun'));
    TickIsStep(l, k.trampoline, k.main, x, k.stackBase, SystemOf(k, unrun'));
  }

  // thread_terminate by the current thread is an exit of the joint runs.
  method ExitSteps(k: Sched, l: Context.Layout, ghost unrun: set<nat>) returns (ghost unrun': set<nat>)
    requires k.Valid() && k.current != k.main && Placed(l, SystemOf(k, unrun), k.stackBase)
    modifies k`current, k`ring, k`pos, k`state, k.links, k.cpu
    ensures k.Valid()
    ensures Step(l, k.trampoline, k.main, old(SystemOf(k, unrun)), Op(SchedSpec.Exit, 0, 0), SystemOf(k, unrun'))
  {
    hide *;
    ghost var x := SystemOf(k, unrun);
    SchedParts(k, unrun);
    RoomToSwitch(l, x, k.stackBase);
    CurrentIsKnown(x.s, k.main);
    k.Exit();
    unrun' := unrun - {k.current};
    SchedParts(k, unrun');
    MovedIs(x, SystemOf(k, unrun'));
    ExitIsStep(l, k.trampoline, k.main, x, k.stackBase, SystemOf(k, unrun'));
  }

  lemma MovedIs(x: System, x': System)
    requires x'.m.current == x.m.current ==> x'.m == x.m
    requires x'.m.current != x.m.current ==>
      Switched(x.m.mem, x.m.regs, x.m.current, x'.m.current, x'.m.mem, x'.m.regs)
    ensures SwitchedIfMoved(x, x')
  {
  }

  lemma RegsAre(cpu: Cpu)
    ensures cpu.R() == Regs(cpu.saved, cpu.rsp, cpu.rip, cpu.rdi, cpu.rsi)
  {
  }

  lemma PreparedIs(k: Sched, m: Words, t: nat)
    requires t in k.stackBase && t in k.entry && t in k.arg
    ensures k.Prepared(m, t) == PreparedMemory(m, t, k.stackBase[t], k.trampoline, k.entry[t], k.arg[t])
  {
  }

  // The set-up step of a thread that is not current.
  lemma SetupSteps(l: Context.Layout, trampoline: nat, x: System, base: map<nat, nat>, t: nat, b: nat, entry: nat, arg: nat, m': Machine)
    requires Placed(l, x, base) && IsThread(l, t) && l.field[t] == t && l.hi[t] == b + MAX_STACK_SIZE && t != x.m.current
    requires m' == x.m.(mem := PreparedMemory(x.m.mem, t, b, trampoline, entry, arg))
    ensures Context.Step(l, trampoline, x.m, Setup(t, entry, arg), m')
  {
    hide Context.Step, PreparedMemory;
    assert PlacedAt(l, base, x.m.current);
    SetupIsStep(l, trampoline, x.m, t, b, entry, arg);
  }

  // thread_create is a creation of the joint runs, or changes nothing.
  method CreateSteps(k: Sched, l: Context.Layout, ghost unrun: set<nat>, named: bool, t: nat, base: nat, entryPoint: nat,
                     argument: nat, slice: nat)
    returns (r: nat, freed: nat, ghost unrun': set<nat>)
    requires k.Valid() && Placed(l, SystemOf(k, unrun), k.stackBase) && slice <= DEFAULT_TIME_SLICE
    requires t != 0 ==> t !in k.state && t != k.queue
    requires t != 0 && base != 0 ==> IsThread(l, t) && l.field[t] == t && l.hi[t] == base + MAX_STACK_SIZE
    modifies k`state, k`slice, k`stackBase, k`entry, k`arg, k.links, k.cpu`mem
    ensures k.Valid()
    ensures r == 0 ==> SystemOf(k, unrun') == old(SystemOf(k, unrun))
    ensures r != 0 ==> Step(l, k.trampoline, k.main, old(SystemOf(k, unrun)),
                            Op(SchedSpec.Create(t, slice), entryPoint, argument), SystemOf(k, unrun'))
  {
    hide *;
    ghost var x := SystemOf(k, unrun);
    SchedParts(k, unrun);
    CurrentIsKnown(x.s, k.main);
    ghost var base0 := k.stackBase;
    RegsAre(k.cpu);
    r, freed := k.Create(named, t, base, entryPoint, argument, slice);
    RegsAre(k.cpu);
    unrun' := unrun;
    if r != 0 {
      PreparedIs(k, x.m.mem, t);
      unrun' := unrun + {t};
      SetupSteps(l, k.trampoline, x, base0, t, base, entryPoint, argument, Machine(k.cpu.mem, k.cpu.R(), k.current));
      SchedParts(k, unrun');
      CreateIsStep(l, k.trampoline, k.main, x, t, slice, entryPoint, argument, SystemOf(k, unrun'));
    } else {
      SchedParts(k, unrun');
    }
  }

  lemma CreateIsStep(l: Context.Layout, trampoline: nat, main: nat, x: System, t: nat, slice: nat, entry: nat, arg: nat, x': System)
    requires x.s.pos < |x.s.ring| && x.s.Current() in x.s.state && x.s.Current() in x.s.slice
    requires t !in x.s.state && slice <= DEFAULT_TIME_SLICE && x'.s == SchedSpec.Step(x.s, SchedSpec.Create(t, slice))
    requires x'.entry == x.entry[t := entry] && x'.arg == x.arg[t := arg] && x'.unrun == x.unrun + {t}
    requires Context.Step(l, trampoline, x.m, Setup(t, entry, arg), x'.m)
    ensures Step(l, trampoline, main, x, Op(SchedSpec.Create(t, slice), entry, arg), x')
  {
    hide Context.Step;
  }

  // thread_start is a start of the joint runs.
  method StartSteps(k: Sched, l: Context.Layout, ghost unrun: set<nat>, t: nat) returns (ghost unrun': set<nat>)
    requires k.Valid() && Placed(l, SystemOf(k, unrun), k.stackBase) && t in k.state
    modifies k`state, k`ring, k.links, k.cpu`mem
    ensures k.Valid()
    ensures Step(l, k.trampoline, k.main, old(SystemOf(k, unrun)), Op(SchedSpec.Start(t), 0, 0), SystemOf(k, unrun'))
  {
    hide *;
    ghost var x := SystemOf(k, unrun);
    SchedParts(k, unrun);
    CurrentIsKnown(x.s, k.main);
    RecordParts(k, t);
    ghost var again := k.state[t].Terminated?;
    RegsAre(k.cpu);
    k.Start(t);
    RegsAre(k.cpu);
    unrun' := if again then unrun + {t} else unrun;
    SchedParts(k, unrun');
    if again {
      PreparedIs(k, x.m.mem, t);
      PlacedIs(l, x, k.stackBase, t);
      SetupSteps(l, k.trampoline, x, k.stackBase, t, k.stackBase[t], k.entry[t], k.arg[t], SystemOf(k, unrun').m);
    }
    StartIsStep(l, k.trampoline, k.main, x, t, SystemOf(k, unrun'));
  }

  // A terminated thread is not current and has a stack, an entry point and an argument.
  lemma RecordParts(k: Sched, t: nat)
    requires k.Valid() && t in k.state
    ensures k.state[t].Terminated? ==> t != k.current && t in k.stackBase && t in k.entry && t in k.arg
  {
    if k.state[t].Terminated? {
      TerminatedIsNotMain(k.S(), k.main, t);
    }
  }

  lemma PlacedIs(l: Context.Layout, x: System, base: map<nat, nat>, t: nat)
    requires Placed(l, x, base) && t in x.s.state && t in base
    ensures IsThread(l, t) && l.field[t] == t && l.hi[t] == base[t] + MAX_STACK_SIZE
  {
    assert PlacedAt(l, base, t);
  }

  lemma StartIsStep(l: Context.Layout, trampoline: nat, main: nat, x: System, t: nat, x': System)
    requires x.s.pos < |x.s.ring| && x.s.Current() in x.s.state && x.s.Current() in x.s.slice
    requires t in x.s.state && x'.s == StartStep(x.s, t) && x'.entry == x.entry && x'.arg == x.arg
    requires if x.s.state[t].Terminated? then
        t in x.entry && t in x.arg && x'.unrun == x.unrun + {t}
        && Context.Step(l, trampoline, x.m, Setup(t, x.entry[t], x.arg[t]), x'.m)
      else x'.unrun == x.unrun && x'.m == x.m
    ensures Step(l, trampoline, main, x, Op(SchedSpec.Start(t), 0, 0), x')
  {
    hide Context.Step;
    StartStates(x.s, t);
  }
}
