// The scheduler and thread operations of src/kernel/sched/sched.c and
// src/kernel/thread/thread.c over the intrusive ready queue and the processor.
module Sched {
  import opened Wrappers
  import opened Lists
  import opened Context
  import opened SchedSpec

  // What switching from one thread to another does to the processor and memory. A
  // thread's saved stack pointer is the first word of its structure.
  ghost predicate Switched(m: Words, r: Regs, old_: nat, next: nat, m': Words, r': Regs) {
    r.rsp >= 48
    && var call := r.(rdi := old_, rsi := m(next));
    m' == SwitchMemory(m, call) && r' == SwitchRegs(m, call)
  }

  // A new thread's list node points at itself.
  ghost predicate NodesOk(next: map<nat, nat>, state: map<nat, ThreadState>) {
    forall t :: t in state && state[t].New? ==> t in next && next[t] == t
  }

  // Every queued thread is known and has been started.
  ghost predicate MembersOk(ring: seq<nat>, state: map<nat, ThreadState>) {
    forall t :: t in ring ==> t in state && !state[t].New?
  }

  // Every thread but the main one has a stack, an entry point and an argument.
  ghost predicate HasRecords(state: map<nat, ThreadState>, main: nat, stackBase: map<nat, nat>, entry: map<nat, nat>,
                             arg: map<nat, nat>) {
    forall t :: t in state && t != main ==> t in stackBase && t in entry && t in arg
  }

  lemma RecordCreated(state: map<nat, ThreadState>, next: map<nat, nat>, ring: seq<nat>, main: nat, base: map<nat, nat>,
                      entry: map<nat, nat>, arg: map<nat, nat>, t: nat, b: nat, e: nat, a: nat)
    requires HasRecords(state, main, base, entry, arg) && NodesOk(next, state) && MembersOk(ring, state) && t !in state
    ensures HasRecords(state[t := New], main, base[t := b], entry[t := e], arg[t := a])
    ensures NodesOk(next[t := t], state[t := New]) && MembersOk(ring, state[t := New]) && t !in ring
  {
  }

  // A known thread becomes ready; if it was terminated its node was reset first.
  lemma RecordStarted(state: map<nat, ThreadState>, next: map<nat, nat>, ring: seq<nat>, main: nat, base: map<nat, nat>,
                      entry: map<nat, nat>, arg: map<nat, nat>, t: nat)
    requires HasRecords(state, main, base, entry, arg) && NodesOk(next, state) && MembersOk(ring, state) && t in state
    ensures HasRecords(state[t := Ready], main, base, entry, arg)
    ensures NodesOk(next, state[t := Ready]) && NodesOk(next[t := t], state[t := Ready])
    ensures MembersOk(ring, state[t := Ready]) && MembersOk(ring + [t], state[t := Ready])
    ensures state[t].New? ==> t in next && next[t] == t
    ensures t != main ==> t in base && t in entry && t in arg
  {
  }

  // A queued thread terminates.
  lemma RecordTerminated(state: map<nat, ThreadState>, next: map<nat, nat>, ring: seq<nat>, main: nat, base: map<nat, nat>,
                         entry: map<nat, nat>, arg: map<nat, nat>, t: nat)
    requires HasRecords(state, main, base, entry, arg) && NodesOk(next, state) && MembersOk(ring, state) && t in state
    ensures HasRecords(state[t := Terminated], main, base, entry, arg)
    ensures NodesOk(next, state[t := Terminated]) && MembersOk(ring, state[t := Terminated])
  {
  }

  // The memory after thread_setup_stack and the store of the thread's stack pointer.
  function PreparedMemory(m: Words, t: nat, base: nat, trampoline: nat, entry: nat, arg: nat): Words {
    Write(SetupMemory(m, base + MAX_STACK_SIZE, trampoline, entry, arg), t, base + MAX_STACK_SIZE - 56)
  }

  class Sched {
    const links: ListMemory
    const cpu: Cpu
    const queue: nat
    const main: nat
    const trampoline: nat
    var current: nat
    var state: map<nat, ThreadState>
    var slice: map<nat, nat>
    var stackBase: map<nat, nat>
    var entry: map<nat, nat>
    var arg: map<nat, nat>
    ghost var ring: seq<nat>
    ghost var pos: nat

    ghost function S(): SchedSpec.State
      reads this
    {
      State(ring, pos, slice, state)
    }

    ghost predicate QueueOk()
      reads this, links
    {
      && links.Holds(queue, ring) && queue !in state
      && pos < |ring| && ring[pos] == current
      && NodesOk(links.next, state)
      && MembersOk(ring, state)
    }

    ghost predicate RecordsOk()
      reads this`state, this`stackBase, this`entry, this`arg
    {
      HasRecords(state, main, stackBase, entry, arg)
    }

    ghost predicate Valid()
      reads this, links
    {
      SchedSpec.Ok(S(), main) && QueueOk() && RecordsOk()
    }

    // sched_init
    constructor (links: ListMemory, cpu: Cpu, queue: nat, main: nat, trampoline: nat)
      requires queue != main
      modifies links
      ensures Valid() && S() == Initial(main) && this.links == links && this.cpu == cpu
    {
      this.links, this.cpu, this.queue, this.main, this.trampoline := links, cpu, queue, main, trampoline;
      current := main;
      state, slice := map[main := Running], map[main := DEFAULT_TIME_SLICE];
      stackBase, entry, arg := map[], map[], map[];
      ring, pos := [main], 0;
      new;
      links.InitListHead(queue);
      ghost var next0, prev0 := links.next, links.prev;
      links.InitListHead(main);
      OtherListKept(next0, prev0, links.next, links.prev, {main}, queue, []);
      links.AddTail(main, queue, []);
      InitialIsOk(main);
      assert [] + [main] == [main];
    }

    // The choice schedule() makes; a terminated current thread leaves the queue.
    method PickNext() returns (next: nat)
      requires QueueOk() && (state[current].Terminated? ==> |ring| >= 2)
      modifies this`ring, this`pos, links
      ensures S() == SchedSpec.Schedule(old(S()))
      ensures pos < |ring| && next == ring[pos] && next != queue
      ensures links.Holds(queue, ring) && NodesOk(links.next, state)
      ensures forall t :: t in ring ==> t in old(ring)
    {
      hide IsList, SameOutside, Nodes, NodesOk, Distinct;
      assert current in ring;
      NextOfCurrent(links.next, links.prev, queue, ring, pos);
      next := links.next[current];
      if state[current].Terminated? {
        ghost var ring0, pos0, next0 := ring, pos, links.next;
        links.Del(current, queue, ring, pos);
        ring := Without(ring, pos);
        AfterRemoval(ring0, pos0);
        NodesKept(next0, links.next, state, queue, ring0);
        FirstOfQueue(links.next, links.prev, queue, ring);
        if next == queue {
          next := links.next[next];
        }
        pos := if pos + 1 < |ring0| then pos else 0;
      } else {
        FirstOfQueue(links.next, links.prev, queue, ring);
        if next == queue {
          next := links.next[next];
        }
        pos := if pos + 1 < |ring| then pos + 1 else 0;
      }
    }

    // schedule(), called on a stack with room for the saved registers. The early
    // returns for an empty and for a one-element queue change nothing.
    method Schedule()
      requires QueueOk() && cpu.rsp >= 48 && (state[current].Terminated? ==> |ring| >= 2)
      modifies this`current, this`ring, this`pos, links, cpu
      ensures QueueOk() && S() == SchedSpec.Schedule(old(S()))
      ensures current == old(current) ==> unchanged(cpu)
      ensures current != old(current) ==>
        Switched(old(cpu.mem), old(cpu.R()), old(current), current, cpu.mem, cpu.R())
    {
      hide IsList, NodesOk, SwitchMemory, SwitchRegs;
      var empty := links.IsEmpty(queue, ring);
      if empty { return; }
      var oldThread := current;
      if !state[oldThread].Terminated? {
        var singular := links.IsSingular(queue, ring);
        if singular { return; }
      }
      var next := PickNext();
      if next == queue { return; }
      if oldThread != next {
        current := next;
        cpu.rdi, cpu.rsi := oldThread, cpu.mem(next);
        cpu.SwitchContext();
      }
    }

    // sched_on_tick, on the interrupted thread's stack.
    method OnTick()
      requires Valid() && cpu.rsp >= 48
      modifies this`current, this`ring, this`pos, this`slice, links, cpu
      ensures Valid() && old(S().Current()) == old(current) && S() == SchedSpec.TickStep(old(S()))
      ensures current == old(current) ==> unchanged(cpu)
      ensures current != old(current) ==>
        Switched(old(cpu.mem), old(cpu.R()), old(current), current, cpu.mem, cpu.R())
    {
      hide IsList, NodesOk, SwitchMemory, SwitchRegs, SchedSpec.Ok, SchedSpec.Schedule;
      CurrentIsKnown(S(), main);
      StepKeepsOk(S(), main, Tick);
      if slice[current] > 0 {
        slice := slice[current := slice[current] - 1];
      }
      if slice[current] == 0 {
        OverwriteTwice(old(slice), current, 0, DEFAULT_TIME_SLICE);
        slice := slice[current := DEFAULT_TIME_SLICE];
        Schedule();
      }
    }

    // The end of thread_entry_wrapper: thread_terminate(get_current_thread()).
    method Exit()
      requires Valid() && cpu.rsp >= 48 && current != main
      modifies this`current, this`ring, this`pos, this`state, links, cpu
      ensures Valid() && old(S().Current()) == old(current) && S() == SchedSpec.ExitStep(old(S()))
      ensures current != old(current)
      ensures Switched(old(cpu.mem), old(cpu.R()), old(current), current, cpu.mem, cpu.R())
    {
      hide IsList, SwitchMemory, SwitchRegs, SchedSpec.Ok, Switched, NodesOk, MembersOk, HasRecords, SchedSpec.Schedule;
      CurrentIsKnown(S(), main);
      StepKeepsOk(S(), main, SchedSpec.Exit);
      NotAlone(S(), main);
      RecordTerminated(state, links.next, ring, main, stackBase, entry, arg, current);
      state := state[current := Terminated];
      Schedule();
      ExitMovesOn(old(S()), main);
    }

    // INIT_LIST_HEAD of a thread's node, outside the queue.
    method InitNode(t: nat)
      requires links.Holds(queue, ring) && t != queue && t !in ring
      modifies links
      ensures links.Holds(queue, ring) && links.next == old(links.next)[t := t]
    {
      hide IsList;
      ghost var next0, prev0 := links.next, links.prev;
      links.InitListHead(t);
      OutsiderIsApart(queue, ring, t);
      OtherListKept(next0, prev0, links.next, links.prev, {t}, queue, ring);
    }

    // thread_start. A terminated thread gets a fresh stack and list node first.
    method Start(t: nat)
      requires Valid() && t in state
      modifies this`state, this`ring, links, cpu`mem
      ensures Valid() && S() == SchedSpec.StartStep(old(S()), t)
      ensures cpu.mem == if old(state)[t].Terminated? then Prepared(old(cpu.mem), t) else old(cpu.mem)
    {
      hide IsList, SchedSpec.Ok, Distinct, Prepared, ListMemory.Holds, HasRecords, MembersOk, NodesOk;
      StepKeepsOk(S(), main, SchedSpec.Start(t));
      MembersAreKnown(S(), main);
      RecordStarted(state, links.next, ring, main, stackBase, entry, arg, t);
      ghost var ring0 := ring;
      if state[t].Terminated? {
        TerminatedIsNotMain(S(), main, t);
        PrepareStack(t);
        InitNode(t);
      }
      state := state[t := Ready];
      if t in ring {
        QueuedIsLinked(links, queue, ring, t);
      }
      if links.next[t] == t {
        OutsiderIsApart(queue, ring, t);
        Enqueue(t);
      }
    }

    method Enqueue(t: nat)
      requires links.Holds(queue, ring) && t !in Ring(queue, ring) && queue !in state && NodesOk(links.next, state)
      requires t in state && !state[t].New? && MembersOk(ring, state)
      modifies this`ring, links
      ensures links.Holds(queue, ring) && ring == old(ring) + [t] && NodesOk(links.next, state)
    {
      hide IsList;
      ghost var next0 := links.next;
      links.AddTail(t, queue, ring);
      ring := ring + [t];
      NodesKept(next0, links.next, state, queue, ring);
    }

    // The memory after thread_setup_stack and the store of the thread's stack pointer.
    ghost function Prepared(m: Words, t: nat): Words
      reads this`stackBase, this`entry, this`arg
    {
      if t in stackBase && t in entry && t in arg then
        PreparedMemory(m, t, stackBase[t], trampoline, entry[t], arg[t])
      else m
    }

    method PrepareStack(t: nat)
      requires t in stackBase && t in entry && t in arg
      modifies cpu`mem
      ensures cpu.mem == Prepared(old(cpu.mem), t)
    {
      hide SetupMemory, Write;
      var sp := cpu.SetupStack(stackBase[t], trampoline, entry[t], arg[t]);
      cpu.mem := Write(cpu.mem, t, sp);
    }

    // thread_create. t and base are what the two allocations return, 0 for NULL; freed is
    // what is given back to the heap, 0 for nothing. time_slice keeps whatever the
    // allocated memory holds.
    method Create(named: bool, t: nat, base: nat, entryPoint: nat, argument: nat, initialSlice: nat)
      returns (r: nat, freed: nat)
      requires Valid() && (t != 0 ==> t !in state && t != queue) && initialSlice <= DEFAULT_TIME_SLICE
      modifies this`state, this`slice, this`stackBase, this`entry, this`arg, links, cpu`mem
      ensures Valid() && r == if named && entryPoint != 0 && t != 0 && base != 0 then t else 0
      ensures freed == if named && entryPoint != 0 && base == 0 then t else 0
      ensures r == 0 ==> S() == old(S()) && cpu.mem == old(cpu.mem)
      ensures r == 0 ==> stackBase == old(stackBase) && entry == old(entry) && arg == old(arg)
      ensures r != 0 ==> S() == SchedSpec.Step(old(S()), SchedSpec.Create(t, initialSlice))
      ensures r != 0 ==> stackBase == old(stackBase)[t := base] && entry == old(entry)[t := entryPoint]
      ensures r != 0 ==> arg == old(arg)[t := argument] && cpu.mem == Prepared(old(cpu.mem), t)
    {
      if !named || entryPoint == 0 { return 0, 0; }
      if t == 0 { return 0, 0; }
      if base == 0 { return 0, t; }
      hide *;
      Record(t, base, entryPoint, argument, initialSlice);
      r, freed := t, 0;
    }

    // The part of thread_create that fills in the new structure.
    method Record(t: nat, base: nat, entryPoint: nat, argument: nat, initialSlice: nat)
      requires Valid() && t !in state && t != queue && initialSlice <= DEFAULT_TIME_SLICE
      modifies this`state, this`slice, this`stackBase, this`entry, this`arg, links, cpu`mem
      ensures Valid() && S() == SchedSpec.Step(old(S()), SchedSpec.Create(t, initialSlice))
      ensures stackBase == old(stackBase)[t := base] && entry == old(entry)[t := entryPoint]
      ensures arg == old(arg)[t := argument] && cpu.mem == Prepared(old(cpu.mem), t)
    {
      hide IsList, SchedSpec.Ok, Distinct, ListMemory.Holds, Prepared, HasRecords, MembersOk, NodesOk;
      StepKeepsOk(S(), main, SchedSpec.Create(t, initialSlice));
      RecordCreated(state, links.next, ring, main, stackBase, entry, arg, t, base, entryPoint, argument);
      stackBase, entry, arg := stackBase[t := base], entry[t := entryPoint], arg[t := argument];
      PrepareStack(t);
      state, slice := state[t := New], slice[t := initialSlice];
      InitNode(t);
    }
  }

  lemma NotAlone(s: SchedSpec.State, main: nat)
    requires SchedSpec.Ok(s, main) && s.Current() != main
    ensures |s.ring| >= 2
  {
    var j :| 0 <= j < |s.ring| && s.ring[j] == main;
    assert j != s.pos;
  }

  lemma ExitMovesOn(s: SchedSpec.State, main: nat)
    requires SchedSpec.Ok(s, main) && s.Current() != main
    ensures var s' := ExitStep(s); s'.pos < |s'.ring| && s'.Current() != s.Current()
  {
    NotAlone(s, main);
    AfterRemoval(s.ring, s.pos);
  }

  lemma MembersAreKnown(s: SchedSpec.State, main: nat)
    requires SchedSpec.Ok(s, main)
    ensures forall t :: t in s.ring <==> t in s.state && Queued(s.state[t])
    ensures main in s.ring
  {
  }

  lemma TerminatedIsNotMain(s: SchedSpec.State, main: nat, t: nat)
    requires SchedSpec.Ok(s, main) && t in s.state && s.state[t].Terminated?
    ensures t != main && t !in s.ring
  {
  }

  lemma OutsiderIsApart(head: nat, s: seq<nat>, t: nat)
    requires t != head && t !in s
    ensures {t} !! Nodes(head, s) && t !in Ring(head, s)
  {
  }

  // A queued thread's node points at another one.
  lemma QueuedIsLinked(links: ListMemory, head: nat, s: seq<nat>, t: nat)
    requires links.Holds(head, s) && t in s
    ensures t in links.next && links.next[t] != t
  {
    var k :| 0 <= k < |s| && s[k] == t;
    NextOfCurrent(links.next, links.prev, head, s, k);
    assert head != t;
  }

  // New threads are in no list, so a change inside the queue leaves their nodes alone.
  lemma NodesKept(next: map<nat, nat>, next': map<nat, nat>, state: map<nat, ThreadState>, head: nat, ring: seq<nat>)
    requires NodesOk(next, state) && SameOutside(next, next', Nodes(head, ring)) && head !in state
    requires MembersOk(ring, state)
    ensures NodesOk(next', state)
  {
  }

  // The link after the element at position k.
  lemma NextOfCurrent(next: map<nat, nat>, prev: map<nat, nat>, head: nat, s: seq<nat>, k: nat)
    requires IsList(next, prev, head, s) && k < |s|
    ensures s[k] in next && next[s[k]] == if k + 1 < |s| then s[k + 1] else head
    ensures Distinct(s) && head !in s && forall i :: 0 <= i < |s| && i != k ==> s[i] != s[k]
  {
    NextIs(next, prev, head, s, k + 1);
    AfterInRing(head, s, k + 1);
    assert Ring(head, s)[k + 1] == s[k];
    assert forall i :: 0 <= i < |s| ==> s[i] == Ring(head, s)[i + 1];
  }

  lemma FirstOfQueue(next: map<nat, nat>, prev: map<nat, nat>, head: nat, s: seq<nat>)
    requires IsList(next, prev, head, s)
    ensures head in next && next[head] == if |s| > 0 then s[0] else head
  {
    NextIs(next, prev, head, s, 0);
    AfterInRing(head, s, 0);
  }

  // The element after a removed one, or the first, is where the ring goes on.
  lemma AfterRemoval(s: seq<nat>, k: nat)
    requires k < |s| && |s| >= 2 && Distinct(s)
    ensures |Without(s, k)| == |s| - 1
    ensures k + 1 < |s| ==> Without(s, k)[k] == s[k + 1]
    ensures forall t :: t in Without(s, k) ==> t in s && t != s[k]
    ensures s[0] != s[k] || k == 0
    ensures Without(s, k)[0] == if k == 0 then s[1] else s[0]
  {
    WithoutIs(s, k);
  }

  // The scheduler's switch is the switch step of the context model, with every
  // thread's saved stack pointer at the thread's own address.
  lemma SwitchIsStep(l: Context.Layout, trampoline: nat, m: Machine, next: nat, m': Machine)
    requires IsThread(l, m.current) && IsThread(l, next) && next != m.current && m'.current == next
    requires l.field[m.current] == m.current && l.field[next] == next
    requires l.lo[m.current] + 48 <= m.regs.rsp && m.regs.rsp + 8 <= l.hi[m.current]
    requires Switched(m.mem, m.regs, m.current, next, m'.mem, m'.regs)
    ensures Context.Step(l, trampoline, m, SwitchTo(next), m')
  {
  }

  // Laying out a thread's stack is the set-up step of the context model.
  lemma SetupIsStep(l: Context.Layout, trampoline: nat, m: Machine, t: nat, base: nat, entry: nat, arg: nat)
    requires IsThread(l, m.current) && IsThread(l, t) && t != m.current
    requires l.field[t] == t && l.hi[t] == base + MAX_STACK_SIZE
    ensures Context.Step(l, trampoline, m, Setup(t, entry, arg), m.(mem := PreparedMemory(m.mem, t, base, trampoline, entry, arg)))
  {
  }
}
