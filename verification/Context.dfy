// The context switch of src/arch/x86_64/asm/cpu_switch_context.asm, the first entry of
// a thread through thread_trampoline.asm, and the stack src/kernel/thread/thread.c lays
// out for it.
module Context {
  const MAX_STACK_SIZE: nat := 0x2000

  // Memory by 64-bit words at their byte addresses.
  type Words = nat -> nat

  function Read(m: Words, a: nat): nat {
    m(a)
  }

  function Write(m: Words, a: nat, v: nat): Words {
    (x: nat) => if x == a then v else m(x)
  }

  // The registers a call preserves.
  datatype Saved = Saved(rbp: nat, rbx: nat, r12: nat, r13: nat, r14: nat, r15: nat)

  datatype Regs = Regs(saved: Saved, rsp: nat, rip: nat, rdi: nat, rsi: nat)

  // The seven words a parked thread keeps at its stack pointer.
  function FrameRegs(m: Words, a: nat): Saved {
    Saved(Read(m, a + 40), Read(m, a + 32), Read(m, a + 24), Read(m, a + 16), Read(m, a + 8), Read(m, a))
  }

  function FrameReturn(m: Words, a: nat): nat {
    Read(m, a + 48)
  }

  ghost predicate HoldsFrame(m: Words, a: nat, s: Saved, ret: nat) {
    FrameRegs(m, a) == s && FrameReturn(m, a) == ret
  }

  // No word outside [lo, hi) changed.
  ghost predicate SameBeyond(m: Words, m': Words, lo: nat, hi: nat) {
    forall x: nat :: !(lo <= x < hi) ==> m'(x) == m(x)
  }

  // Word by word: r15 at the stack pointer, then r14, r13, r12, rbx, rbp and the return
  // address, in the order the pops take them.
  lemma FrameWords(m: Words, a: nat, s: Saved, ret: nat)
    ensures HoldsFrame(m, a, s, ret) <==> (
      && m(a) == s.r15 && m(a + 8) == s.r14 && m(a + 16) == s.r13 && m(a + 24) == s.r12
      && m(a + 32) == s.rbx && m(a + 40) == s.rbp && m(a + 48) == ret)
  {
  }

  // Memory after the six pushes.
  function PushedMemory(m: Words, r: Regs): Words
    requires r.rsp >= 48
  {
    var m1 := Write(m, r.rsp - 8, r.saved.rbp);
    var m2 := Write(m1, r.rsp - 16, r.saved.rbx);
    var m3 := Write(m2, r.rsp - 24, r.saved.r12);
    var m4 := Write(m3, r.rsp - 32, r.saved.r13);
    var m5 := Write(m4, r.rsp - 40, r.saved.r14);
    Write(m5, r.rsp - 48, r.saved.r15)
  }

  lemma PushesHoldFrame(m: Words, r: Regs)
    requires r.rsp >= 48
    ensures HoldsFrame(PushedMemory(m, r), r.rsp - 48, r.saved, Read(m, r.rsp))
    ensures SameBeyond(m, PushedMemory(m, r), r.rsp - 48, r.rsp)
  {
  }

  // The registers once thread_trampoline has called the wrapper.
  function Entered(r: Regs, wrapper: nat): Regs
    requires r.rsp >= 8
  {
    Regs(r.saved, r.rsp - 8, wrapper, r.saved.r15, r.saved.r14)
  }

  // Then the stack pointer is stored at rdi.
  function SwitchMemory(m: Words, r: Regs): Words
    requires r.rsp >= 48
  {
    Write(PushedMemory(m, r), r.rdi, r.rsp - 48)
  }

  function SwitchRegs(m: Words, r: Regs): Regs
    requires r.rsp >= 48
  {
    var m' := SwitchMemory(m, r);
    Regs(FrameRegs(m', r.rsi), r.rsi + 56, FrameReturn(m', r.rsi), r.rdi, r.rsi)
  }

  // thread_setup_stack: the frame the first switch to a thread pops.
  function SetupMemory(m: Words, top: nat, trampoline: nat, entry: nat, arg: nat): Words
    requires top >= 56
  {
    var m1 := Write(m, top - 8, trampoline);
    var m2 := Write(m1, top - 16, 0);
    var m3 := Write(m2, top - 24, 0);
    var m4 := Write(m3, top - 32, 0);
    var m5 := Write(m4, top - 40, 0);
    var m6 := Write(m5, top - 48, arg);
    Write(m6, top - 56, entry)
  }

  class Cpu {
    var saved: Saved
    var rsp: nat
    var rip: nat
    var rdi: nat
    var rsi: nat
    var mem: Words

    constructor (r: Regs, mem: Words)
      ensures R() == r && this.mem == mem
    {
      saved, rsp, rip, rdi, rsi := r.saved, r.rsp, r.rip, r.rdi, r.rsi;
      this.mem := mem;
    }

    ghost function R(): Regs
      reads this
    {
      Regs(saved, rsp, rip, rdi, rsi)
    }

    method Push(v: nat)
      requires rsp >= 8
      modifies this`rsp, this`mem
      ensures rsp == old(rsp) - 8 && mem == Write(old(mem), rsp, v)
    {
      rsp := rsp - 8;
      mem := Write(mem, rsp, v);
    }

    method Pop() returns (v: nat)
      modifies this`rsp
      ensures v == Read(mem, old(rsp)) && rsp == old(rsp) + 8
    {
      v := Read(mem, rsp);
      rsp := rsp + 8;
    }

    // The six pushes.
    method SaveRegisters()
      requires rsp >= 48
      modifies this`rsp, this`mem
      ensures HoldsFrame(mem, rsp, old(saved), Read(old(mem), old(rsp))) && SameBeyond(old(mem), mem, rsp, old(rsp))
      ensures rsp == old(rsp) - 48 && mem == PushedMemory(old(mem), old(R()))
    {
      hide Write, Read, HoldsFrame, SameBeyond;
      PushesHoldFrame(mem, R());
      Push(saved.rbp);
      Push(saved.rbx);
      Push(saved.r12);
      Push(saved.r13);
      Push(saved.r14);
      Push(saved.r15);
    }

    // The six pops and the return.
    method RestoreRegisters()
      modifies this`rsp, this`saved, this`rip
      ensures saved == FrameRegs(mem, old(rsp)) && rsp == old(rsp) + 56 && rip == FrameReturn(mem, old(rsp))
    {
      hide Read;
      var r15 := Pop();
      var r14 := Pop();
      var r13 := Pop();
      var r12 := Pop();
      var rbx := Pop();
      var rbp := Pop();
      saved := Saved(rbp, rbx, r12, r13, r14, r15);
      rip := Pop();
    }

    // Entered by a call: the return address is on top of the current stack.
    method SwitchContext()
      requires rsp >= 48
      modifies this
      ensures R() == SwitchRegs(old(mem), old(R()))
      ensures mem == SwitchMemory(old(mem), old(R()))
    {
      hide PushedMemory, Write, FrameRegs, FrameReturn;
      SaveRegisters();
      mem := Write(mem, rdi, rsp);
      rsp := rsi;
      RestoreRegisters();
    }

    // thread_trampoline: the arguments of thread_entry_wrapper come from r15 and r14.
    method Trampoline(wrapper: nat, next: nat)
      requires rsp >= 8
      modifies this
      ensures R() == Entered(old(R()), wrapper) && mem(rsp) == next
      ensures forall x: nat :: x != rsp ==> mem(x) == old(mem)(x)
    {
      rdi := saved.r15;
      rsi := saved.r14;
      Push(next);
      rip := wrapper;
    }

    // thread_setup_stack; returns the new thread's stack pointer.
    method SetupStack(base: nat, trampoline: nat, entry: nat, arg: nat) returns (sp: nat)
      modifies this`mem
      ensures sp == base + MAX_STACK_SIZE - 56
      ensures HoldsFrame(mem, sp, Saved(0, 0, 0, 0, arg, entry), trampoline)
      ensures SameBeyond(old(mem), mem, sp, base + MAX_STACK_SIZE)
      ensures mem == SetupMemory(old(mem), base + MAX_STACK_SIZE, trampoline, entry, arg)
    {
      hide HoldsFrame, SameBeyond, Write;
      ghost var top, m := base + MAX_STACK_SIZE, mem;
      SetupHoldsFrame(m, top, trampoline, entry, arg);
      sp := base + MAX_STACK_SIZE - 8;
      mem := Write(mem, sp, trampoline);
      sp := sp - 8;
      mem := Write(mem, sp, 0);
      sp := sp - 8;
      mem := Write(mem, sp, 0);
      sp := sp - 8;
      mem := Write(mem, sp, 0);
      sp := sp - 8;
      mem := Write(mem, sp, 0);
      sp := sp - 8;
      mem := Write(mem, sp, arg);
      sp := sp - 8;
      mem := Write(mem, sp, entry);
      assert sp == top - 56 && mem == SetupMemory(m, top, trampoline, entry, arg);
    }
  }

  lemma SetupHoldsFrame(m: Words, top: nat, trampoline: nat, entry: nat, arg: nat)
    requires top >= 56
    ensures HoldsFrame(SetupMemory(m, top, trampoline, entry, arg), top - 56, Saved(0, 0, 0, 0, arg, entry), trampoline)
    ensures SameBeyond(m, SetupMemory(m, top, trampoline, entry, arg), top - 56, top)
  {
  }

  lemma SwitchSavesFrame(m: Words, r: Regs)
    requires r.rsp >= 48 && !(r.rsp - 48 <= r.rdi < r.rsp + 8)
    ensures HoldsFrame(SwitchMemory(m, r), r.rsp - 48, r.saved, m(r.rsp))
    ensures SwitchMemory(m, r)(r.rdi) == r.rsp - 48
    ensures forall x: nat :: !(r.rsp - 48 <= x < r.rsp) && x != r.rdi ==> SwitchMemory(m, r)(x) == m(x)
  {
  }

  // Each thread's stack [lo, hi) and the address of its saved stack pointer.
  datatype Layout = Layout(lo: map<nat, nat>, hi: map<nat, nat>, field: map<nat, nat>)

  predicate IsThread(l: Layout, t: nat) {
    t in l.lo && t in l.hi && t in l.field
  }

  // x belongs to thread t: a word of its stack or its saved stack pointer.
  predicate BelongsTo(l: Layout, t: nat, x: nat)
    requires IsThread(l, t)
  {
    l.lo[t] <= x < l.hi[t] || x == l.field[t]
  }

  ghost predicate LayoutOk(l: Layout) {
    && (forall t :: IsThread(l, t) ==> l.lo[t] + 56 <= l.hi[t] && !(l.lo[t] <= l.field[t] < l.hi[t]))
    && (forall t, u, x :: IsThread(l, t) && IsThread(l, u) && t != u && BelongsTo(l, t, x) ==> !BelongsTo(l, u, x))
  }

  datatype Machine = Machine(mem: Words, regs: Regs, current: nat)

  // What can happen next: the running thread computes, switches to another thread, or
  // lays out another thread's stack (on creation, or when restarting a finished one).
  datatype Event = Compute | SwitchTo(t: nat) | Setup(t: nat, entry: nat, arg: nat)

  ghost predicate OthersUntouched(l: Layout, m: Machine, m': Machine) {
    forall u, x :: IsThread(l, u) && u != m.current && BelongsTo(l, u, x) ==> m'.mem(x) == m.mem(x)
  }

  ghost predicate Step(l: Layout, trampoline: nat, m: Machine, e: Event, m': Machine) {
    && IsThread(l, m.current)
    && match e
       case Compute => m'.current == m.current && OthersUntouched(l, m, m')
       case SwitchTo(t) =>
         && IsThread(l, t) && t != m.current && m'.current == t
         && l.lo[m.current] + 48 <= m.regs.rsp && m.regs.rsp + 8 <= l.hi[m.current]
         && var r := m.regs.(rdi := l.field[m.current], rsi := m.mem(l.field[t]));
         m'.mem == SwitchMemory(m.mem, r) && m'.regs == SwitchRegs(m.mem, r)
       case Setup(t, entry, arg) =>
         && IsThread(l, t) && t != m.current && m'.current == m.current && l.hi[t] >= 56
         && m'.mem == Write(SetupMemory(m.mem, l.hi[t], trampoline, entry, arg), l.field[t], l.hi[t] - 56)
  }

  // Thread t is parked at a: its saved registers and return address wait on its stack.
  ghost predicate Parked(l: Layout, m: Machine, t: nat, a: nat, s: Saved, ret: nat) {
    IsThread(l, t) && m.mem(l.field[t]) == a && HoldsFrame(m.mem, a, s, ret) && l.lo[t] <= a && a + 56 <= l.hi[t]
  }

  lemma FrameKept(l: Layout, m: Words, m': Words, t: nat, a: nat, s: Saved, ret: nat)
    requires IsThread(l, t) && l.lo[t] <= a && a + 56 <= l.hi[t] && HoldsFrame(m, a, s, ret)
    requires forall x :: BelongsTo(l, t, x) ==> m'(x) == m(x)
    ensures HoldsFrame(m', a, s, ret) && m'(l.field[t]) == m(l.field[t])
  {
    assert BelongsTo(l, t, a) && BelongsTo(l, t, a + 8) && BelongsTo(l, t, a + 16) && BelongsTo(l, t, a + 24);
    assert BelongsTo(l, t, a + 32) && BelongsTo(l, t, a + 40) && BelongsTo(l, t, a + 48) && BelongsTo(l, t, l.field[t]);
  }

  // A step that neither runs, resumes nor lays out t leaves t parked as it was.
  lemma ParkedStays(l: Layout, trampoline: nat, m: Machine, e: Event, m': Machine, t: nat, a: nat, s: Saved, ret: nat)
    requires LayoutOk(l) && Step(l, trampoline, m, e, m') && Parked(l, m, t, a, s, ret)
    requires m.current != t && m'.current != t && !(e.Setup? && e.t == t)
    ensures Parked(l, m', t, a, s, ret)
  {
    hide HoldsFrame;
    forall x | BelongsTo(l, t, x)
      ensures m'.mem(x) == m.mem(x)
    {
      assert !BelongsTo(l, m.current, x);
      match e
      case Compute =>
      case SwitchTo(u) =>
        SwitchTouchesOwn(l, m, u, x);
      case Setup(u, entry, arg) =>
        assert !BelongsTo(l, u, x);
        SetupHoldsFrame(m.mem, l.hi[u], trampoline, entry, arg);
    }
    FrameKept(l, m.mem, m'.mem, t, a, s, ret);
  }

  // Switching away writes only the leaving thread's stack and its saved pointer.
  lemma SwitchTouchesOwn(l: Layout, m: Machine, u: nat, x: nat)
    requires IsThread(l, m.current) && IsThread(l, u) && !BelongsTo(l, m.current, x)
    requires l.lo[m.current] + 48 <= m.regs.rsp && m.regs.rsp + 8 <= l.hi[m.current]
    ensures SwitchMemory(m.mem, m.regs.(rdi := l.field[m.current], rsi := m.mem(l.field[u])))(x) == m.mem(x)
  {
  }

  lemma LeavingParks(l: Layout, trampoline: nat, m: Machine, u: nat, m': Machine)
    requires LayoutOk(l) && Step(l, trampoline, m, SwitchTo(u), m')
    ensures Parked(l, m', m.current, m.regs.rsp - 48, m.regs.saved, m.mem(m.regs.rsp))
  {
    hide PushedMemory, HoldsFrame;
    SwitchSavesFrame(m.mem, m.regs.(rdi := l.field[m.current], rsi := m.mem(l.field[u])));
  }

  // Resuming gives back exactly the registers, stack pointer and return address parked.
  lemma ResumingRestores(l: Layout, trampoline: nat, m: Machine, t: nat, m': Machine, a: nat, s: Saved, ret: nat)
    requires LayoutOk(l) && Step(l, trampoline, m, SwitchTo(t), m') && Parked(l, m, t, a, s, ret)
    ensures m'.regs.saved == s && m'.regs.rsp == a + 56 && m'.regs.rip == ret
  {
    hide SwitchMemory;
    forall x | BelongsTo(l, t, x)
      ensures m'.mem(x) == m.mem(x)
    {
      assert !BelongsTo(l, m.current, x);
      SwitchTouchesOwn(l, m, t, x);
    }
    FrameKept(l, m.mem, m'.mem, t, a, s, ret);
  }

  ghost predicate IsRun(l: Layout, trampoline: nat, run: seq<Machine>, events: seq<Event>) {
    |run| == |events| + 1 && forall i :: 0 <= i < |events| ==> Step(l, trampoline, run[i], events[i], run[i + 1])
  }

  // In run[first..last] t neither runs nor has its stack laid out.
  ghost predicate StaysAway(run: seq<Machine>, events: seq<Event>, t: nat, first: nat, last: nat)
    requires |run| == |events| + 1 && last < |run|
  {
    && (forall i :: first <= i <= last ==> run[i].current != t)
    && (forall i :: first <= i < last ==> !(events[i].Setup? && events[i].t == t))
  }

  lemma {:induction false} ParkedThroughout(l: Layout, trampoline: nat, run: seq<Machine>, events: seq<Event>, t: nat,
                                            first: nat, last: nat, a: nat, s: Saved, ret: nat)
    requires LayoutOk(l) && IsRun(l, trampoline, run, events) && first <= last < |run|
    requires StaysAway(run, events, t, first, last) && Parked(l, run[first], t, a, s, ret)
    ensures Parked(l, run[last], t, a, s, ret)
    decreases last
  {
    hide LayoutOk, Step, Parked;
    if first < last {
      ParkedThroughout(l, trampoline, run, events, t, first, last - 1, a, s, ret);
      assert Step(l, trampoline, run[last - 1], events[last - 1], run[last]);
      ParkedStays(l, trampoline, run[last - 1], events[last - 1], run[last], t, a, s, ret);
    }
  }

  lemma ResumedBySwitch(l: Layout, trampoline: nat, m: Machine, e: Event, m': Machine)
    requires Step(l, trampoline, m, e, m') && m.current != m'.current
    ensures e == SwitchTo(m'.current)
  {
  }

  lemma StepAt(l: Layout, trampoline: nat, run: seq<Machine>, events: seq<Event>, i: nat)
    requires IsRun(l, trampoline, run, events) && i < |events|
    ensures |run| == |events| + 1 && Step(l, trampoline, run[i], events[i], run[i + 1])
    ensures events[i].SwitchTo? ==> run[i].regs.rsp >= 48
    ensures events[i].Setup? ==> events[i].t in l.hi && l.hi[events[i].t] >= 56
  {
  }

  lemma AwayAt(run: seq<Machine>, events: seq<Event>, t: nat, first: nat, last: nat)
    requires |run| == |events| + 1 && first <= last < |run| && StaysAway(run, events, t, first, last)
    ensures run[last].current != t
  {
  }

  // A thread that is switched away from and later switched back to, with any steps of
  // the other threads in between, finds its callee-saved registers, its stack pointer
  // and its return address as it left them.
  lemma SwitchAwayAndBack(l: Layout, trampoline: nat, run: seq<Machine>, events: seq<Event>, t: nat)
    requires LayoutOk(l) && IsRun(l, trampoline, run, events) && |events| >= 2
    requires run[0].current == t && events[0].SwitchTo?
    requires StaysAway(run, events, t, 1, |events| - 1) && run[|events|].current == t
    ensures var end := run[|events|].regs;
      && end.saved == run[0].regs.saved
      && end.rsp == run[0].regs.rsp + 8
      && end.rip == run[0].mem(run[0].regs.rsp)
  {
    hide *;
    var n := |events|;
    StepAt(l, trampoline, run, events, 0);
    var r := run[0].regs;
    StepAt(l, trampoline, run, events, n - 1);
    AwayAt(run, events, t, 1, n - 1);
    LeavingParks(l, trampoline, run[0], events[0].t, run[1]);
    var ret := run[0].mem(r.rsp);
    ParkedThroughout(l, trampoline, run, events, t, 1, n - 1, r.rsp - 48, r.saved, ret);
    ResumedBySwitch(l, trampoline, run[n - 1], events[n - 1], run[n]);
    ResumingRestores(l, trampoline, run[n - 1], t, run[n], r.rsp - 48, r.saved, ret);
  }

  // The first switch to a fresh thread lands on the trampoline with its entry point in
  // r15 and its argument in r14, on an empty stack.
  lemma FirstSwitchEnters(l: Layout, trampoline: nat, run: seq<Machine>, events: seq<Event>, t: nat, entry: nat, arg: nat)
    requires LayoutOk(l) && IsRun(l, trampoline, run, events) && |events| >= 2
    requires events[0] == Setup(t, entry, arg)
    requires StaysAway(run, events, t, 1, |events| - 1) && run[|events|].current == t
    ensures t in l.hi
    ensures var end := run[|events|].regs;
      && end.saved == Saved(0, 0, 0, 0, arg, entry) && end.rip == trampoline && end.rsp == l.hi[t]
  {
    hide *;
    var n := |events|;
    StepAt(l, trampoline, run, events, 0);
    StepAt(l, trampoline, run, events, n - 1);
    AwayAt(run, events, t, 1, n - 1);
    SetupParks(l, trampoline, run[0], t, entry, arg, run[1]);
    var s := Saved(0, 0, 0, 0, arg, entry);
    ParkedThroughout(l, trampoline, run, events, t, 1, n - 1, l.hi[t] - 56, s, trampoline);
    ResumedBySwitch(l, trampoline, run[n - 1], events[n - 1], run[n]);
    ResumingRestores(l, trampoline, run[n - 1], t, run[n], l.hi[t] - 56, s, trampoline);
  }

  lemma SetupParks(l: Layout, trampoline: nat, m: Machine, t: nat, entry: nat, arg: nat, m': Machine)
    requires LayoutOk(l) && Step(l, trampoline, m, Setup(t, entry, arg), m')
    ensures Parked(l, m', t, l.hi[t] - 56, Saved(0, 0, 0, 0, arg, entry), trampoline)
  {
    hide SetupMemory;
    SetupHoldsFrame(m.mem, l.hi[t], trampoline, entry, arg);
  }
}
