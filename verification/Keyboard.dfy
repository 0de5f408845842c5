// The keyboard event queue of src/drivers/keyboard.c: scancodes become characters in a
// pool of 128 events that moves between a free and a pending list.
module Keyboard {
  import opened Wrappers
  import opened Lists

  const KBD_BUFFER_SIZE: nat := 128

  const NONE: char := '\0'
  const ESC: char := '\U{1B}'
  const BACKSPACE: char := '\U{08}'

  function Unmodified(): (s: string)
    ensures |s| == 58
  {
    [NONE, ESC] + "1234567890-=" + [BACKSPACE] + "\tqwertyuiop[]\n"
    + [NONE] + "asdfghjkl;'`" + [NONE] + "\\zxcvbnm,./" + [NONE] + "*" + [NONE] + " "
  }

  function Shifted(): (s: string)
    ensures |s| == 58
  {
    [NONE, ESC] + "!\"#$%&/()=?^" + [BACKSPACE] + "\tQWERTYUIOP{}\n"
    + [NONE] + "ASDFGHJKL+*~" + [NONE] + ">ZXCVBNM;:_" + [NONE] + "*" + [NONE] + " "
  }

  predicate ShiftDown(code: nat) { code == 0x2A || code == 0x36 }
  predicate ShiftUp(code: nat) { code == 0xAA || code == 0xB6 }
  predicate CapsLock(code: nat) { code == 0x3A }

  // The decoder's state and the characters waiting.
  datatype State = State(shift: bool, caps: bool, down: seq<bool>, pending: string)

  predicate Ok(s: State) {
    |s.down| == 256 && |s.pending| <= KBD_BUFFER_SIZE
  }

  function CharOf(code: nat, shift: bool, caps: bool): char {
    if code >= 58 then NONE else if shift != caps then Shifted()[code] else Unmodified()[code]
  }

  // keyboard_process_scancode
  function Process(s: State, code: nat): (r: State)
    requires Ok(s) && code < 256
    ensures Ok(r)
  {
    if ShiftDown(code) then s.(shift := true)
    else if ShiftUp(code) then s.(shift := false)
    else if CapsLock(code) then s.(caps := !s.caps)
    else if code >= 0x80 then s.(down := s.down[code - 0x80 := false])
    else if s.down[code] then s
    else
      var c := CharOf(code, s.shift, s.caps);
      s.(down := s.down[code := true],
         pending := if c != NONE && |s.pending| < KBD_BUFFER_SIZE then s.pending + [c] else s.pending)
  }

  // One turn of keyboard_getchar's loop.
  function Poll(s: State): (State, Option<char>) {
    if s.pending == "" then (s, None) else (s.(pending := s.pending[1..]), Some(s.pending[0]))
  }

  function CharsOf(chars: map<nat, char>, nodes: seq<nat>): (s: string)
    requires forall x :: x in nodes ==> x in chars
    ensures |s| == |nodes|
  {
    seq(|nodes|, i requires 0 <= i < |nodes| => chars[nodes[i]])
  }

  // Writing the character of a node outside the pending list and appending it.
  lemma QueuedChars(chars: map<nat, char>, pending: seq<nat>, node: nat, c: char)
    requires (forall x :: x in pending ==> x in chars) && node !in pending
    ensures forall x :: x in pending + [node] ==> x in chars[node := c]
    ensures CharsOf(chars[node := c], pending + [node]) == CharsOf(chars, pending) + [c]
  {
    forall i | 0 <= i < |pending|
      ensures chars[node := c][pending[i]] == chars[pending[i]]
    {
      assert pending[i] in pending;
    }
  }

  lemma TakenChars(chars: map<nat, char>, pending: seq<nat>)
    requires (forall x :: x in pending ==> x in chars) && pending != []
    ensures forall x :: x in pending[1..] ==> x in chars
    ensures CharsOf(chars, pending)[1..] == CharsOf(chars, pending[1..]) && CharsOf(chars, pending)[0] == chars[pending[0]]
  {
  }

  function Initial(): State {
    State(false, false, seq(256, _ => false), "")
  }

  // Two lists in one memory with no node in common.
  ghost predicate TwoLists(links: ListMemory, a: nat, s: seq<nat>, b: nat, t: seq<nat>)
    reads links
  {
    links.Holds(a, s) && links.Holds(b, t) && Nodes(a, s) !! Nodes(b, t)
  }

  // The first node of one list becomes the last of the other.
  method MoveFirst(links: ListMemory, a: nat, b: nat, ghost s: seq<nat>, ghost t: seq<nat>) returns (node: nat)
    requires TwoLists(links, a, s, b, t) && s != []
    modifies links
    ensures TwoLists(links, a, s[1..], b, t + [s[0]]) && node == s[0]
  {
    hide IsList, SameOutside;
    NextIs(links.next, links.prev, a, s, 0);
    AfterInRing(a, s, 0);
    node := links.next[a];
    ghost var next0, prev0 := links.next, links.prev;
    links.Del(node, a, s, 0);
    assert Without(s, 0) == s[1..];
    OtherListKept(next0, prev0, links.next, links.prev, Nodes(a, s), b, t);
    ghost var next1, prev1 := links.next, links.prev;
    FirstLeaves(next0, prev0, a, s, b, t);
    links.AddTail(node, b, t);
    OtherListKept(next1, prev1, links.next, links.prev, Nodes(b, t + [node]), a, s[1..]);
  }

  lemma FirstLeaves(next: map<nat, nat>, prev: map<nat, nat>, a: nat, s: seq<nat>, b: nat, t: seq<nat>)
    requires IsList(next, prev, a, s) && s != [] && Nodes(a, s) !! Nodes(b, t)
    ensures s[0] !in Ring(b, t) && Nodes(a, s[1..]) !! Nodes(b, t + [s[0]])
  {
    var r := Ring(a, s);
    assert s[0] == r[1] && s[0] in Nodes(a, s);
    forall x | x in Nodes(a, s[1..])
      ensures x in Nodes(a, s) && x != s[0]
    {
      var i :| 0 <= i < |Ring(a, s[1..])| && Ring(a, s[1..])[i] == x;
      assert x == r[if i == 0 then 0 else i + 1];
    }
    forall x | x in Nodes(b, t + [s[0]])
      ensures x == s[0] || x in Nodes(b, t)
    {
      var i :| 0 <= i < |Ring(b, t + [s[0]])| && Ring(b, t + [s[0]])[i] == x;
      assert i <= |t| ==> x == Ring(b, t)[i];
    }
  }

  // list_add_tail of the pool events in order.
  method FillFreeList(links: ListMemory, freeHead: nat, pendingHead: nat, pool: seq<nat>)
    requires TwoLists(links, freeHead, [], pendingHead, [])
    requires Distinct(pool) && freeHead !in pool && pendingHead !in pool && freeHead != pendingHead
    modifies links
    ensures TwoLists(links, freeHead, pool, pendingHead, [])
  {
    for i := 0 to |pool|
      invariant TwoLists(links, freeHead, pool[..i], pendingHead, [])
    {
      hide IsList, SameOutside;
      ghost var next0, prev0 := links.next, links.prev;
      assert pool[..i] + [pool[i]] == pool[..i + 1];
      PoolNodeIsNew(freeHead, pendingHead, pool, i);
      links.AddTail(pool[i], freeHead, pool[..i]);
      OtherListKept(next0, prev0, links.next, links.prev, Nodes(freeHead, pool[..i + 1]), pendingHead, []);
    }
    assert pool[..|pool|] == pool;
  }

  lemma PoolNodeIsNew(freeHead: nat, pendingHead: nat, pool: seq<nat>, i: nat)
    requires Distinct(pool) && freeHead !in pool && pendingHead !in pool && i < |pool| && freeHead != pendingHead
    ensures pool[i] !in Ring(freeHead, pool[..i])
    ensures Nodes(freeHead, pool[..i + 1]) !! Nodes(pendingHead, [])
  {
    assert pool[i] in pool;
    forall x | x in pool[..i]
      ensures x != pool[i]
    {
      var j :| 0 <= j < i && pool[j] == x;
    }
    var longer := pool[..i + 1];
    forall x | x in longer
      ensures x != pendingHead
    {
      assert x in pool;
    }
  }

  class Keyboard {
    const links: ListMemory
    const freeHead: nat
    const pendingHead: nat
    const down: array<bool>
    var shift: bool
    var caps: bool
    var chars: map<nat, char>
    ghost const pool: seq<nat>
    ghost var free: seq<nat>
    ghost var pending: seq<nat>

    // The pool's events are partitioned between the two lists.
    ghost predicate Valid()
      reads this, links, down
    {
      && down.Length == 256
      && TwoLists(links, freeHead, free, pendingHead, pending)
      && |free| + |pending| == KBD_BUFFER_SIZE
      && (forall x :: x in pool <==> x in free || x in pending)
      && (forall x :: x in free || x in pending ==> x in chars)
    }

    ghost function Pending(): string
      reads this
      requires forall x :: x in pending ==> x in chars
    {
      CharsOf(chars, pending)
    }

    ghost function S(): (s: State)
      reads this, links, down
      requires Valid()
      ensures Ok(s)
    {
      State(shift, caps, down[..], Pending())
    }

    // keyboard_init: both lists empty, then every pool event added to the free list.
    constructor (links: ListMemory, freeHead: nat, pendingHead: nat, pool: seq<nat>, chars: map<nat, char>)
      requires |pool| == KBD_BUFFER_SIZE && Distinct(pool) && freeHead != pendingHead
      requires freeHead !in pool && pendingHead !in pool && forall x :: x in pool ==> x in chars
      modifies links
      ensures Valid() && fresh(down) && this.links == links && this.pool == pool
      ensures S() == Initial()
    {
      this.links, this.freeHead, this.pendingHead := links, freeHead, pendingHead;
      this.down := new bool[256](_ => false);
      this.shift, this.caps, this.chars := false, false, chars;
      this.pool, this.free, this.pending := pool, pool, [];
      new;
      links.InitListHead(freeHead);
      ghost var next0, prev0 := links.next, links.prev;
      links.InitListHead(pendingHead);
      OtherListKept(next0, prev0, links.next, links.prev, {pendingHead}, freeHead, []);
      FillFreeList(links, freeHead, pendingHead, pool);
      assert down[..] == seq(256, _ => false);
      assert Pending() == [];
    }

    method ProcessScancode(code: nat)
      requires Valid() && code < 256
      modifies this, links, down
      ensures Valid() && S() == Process(old(S()), code)
    {
      if ShiftDown(code) { shift := true; return; }
      if ShiftUp(code) { shift := false; return; }
      if CapsLock(code) { caps := !caps; return; }
      if code >= 0x80 {
        down[code - 0x80] := false;
        return;
      }
      if down[code] { return; }
      down[code] := true;
      if code < 58 {
        var c := if shift != caps then Shifted()[code] else Unmodified()[code];
        if c != NONE {
          Queue(c);
        }
      }
    }

    // Takes a free event, if there is one, and appends it to the pending list.
    method Queue(c: char)
      requires Valid()
      modifies this`chars, this`free, this`pending, links
      ensures Valid()
      ensures S() == old(S()).(pending := if |old(S()).pending| < KBD_BUFFER_SIZE then old(S()).pending + [c] else old(S()).pending)
    {
      hide IsList, Nodes;
      var empty := links.IsEmpty(freeHead, free);
      if !empty {
        FirstIsApart(freeHead, free, pendingHead, pending);
        QueuedChars(chars, pending, free[0], c);
        var node := MoveFirst(links, freeHead, pendingHead, free, pending);
        chars := chars[node := c];
        free, pending := free[1..], pending + [node];
      }
    }

    // keyboard_getchar, one turn: a character if one is pending.
    method GetChar() returns (r: Option<char>)
      requires Valid()
      modifies this`free, this`pending, links
      ensures Valid() && (S(), r) == Poll(old(S()))
    {
      hide IsList, Nodes;
      var empty := links.IsEmpty(pendingHead, pending);
      if empty { return None; }
      ApartSymmetric(freeHead, free, pendingHead, pending);
      TakenChars(chars, pending);
      assert pending[0] in pending;
      var node := MoveFirst(links, pendingHead, freeHead, pending, free);
      ApartSymmetric(pendingHead, pending[1..], freeHead, free + [node]);
      free, pending := free + [node], pending[1..];
      r := Some(chars[node]);
    }
  }

  lemma FirstIsApart(a: nat, s: seq<nat>, b: nat, t: seq<nat>)
    requires Nodes(a, s) !! Nodes(b, t) && s != []
    ensures s[0] !in t && s[0] in s
  {
    assert s[0] == Ring(a, s)[1];
    assert s[0] in Nodes(a, s);
    forall x | x in t
      ensures x in Nodes(b, t)
    {
      var j :| 0 <= j < |t| && t[j] == x;
      assert Ring(b, t)[j + 1] == x;
    }
  }

  lemma ApartSymmetric(a: nat, s: seq<nat>, b: nat, t: seq<nat>)
    requires Nodes(a, s) !! Nodes(b, t)
    ensures Nodes(b, t) !! Nodes(a, s)
  {
  }

  // ---- What the decoder does, in terms of the scancodes alone ----

  // Shift is down when the last shift code was a press.
  predicate ShiftAfter(codes: seq<nat>) {
    if codes == [] then false
    else var last := codes[|codes| - 1];
      ShiftDown(last) || (!ShiftUp(last) && ShiftAfter(codes[..|codes| - 1]))
  }

  function CapsPresses(codes: seq<nat>): nat {
    if codes == [] then 0
    else CapsPresses(codes[..|codes| - 1]) + if CapsLock(codes[|codes| - 1]) then 1 else 0
  }

  // A key is held when its last code was the press and not the release.
  predicate HeldAfter(codes: seq<nat>, key: nat) {
    if codes == [] then false
    else var last := codes[|codes| - 1];
      last == key || (last != key + 0x80 && HeldAfter(codes[..|codes| - 1], key))
  }

  predicate OrdinaryKey(code: nat) {
    code < 0x80 && !ShiftDown(code) && !CapsLock(code)
  }

  // The character a new code stands for after the given ones: that of a key-down edge.
  function Decoded(codes: seq<nat>, code: nat): char {
    if OrdinaryKey(code) && !HeldAfter(codes, code) then CharOf(code, ShiftAfter(codes), CapsPresses(codes) % 2 == 1)
    else NONE
  }

  datatype Event = Scan(code: nat) | GetChar

  predicate EventOk(e: Event) { e.Scan? ==> e.code < 256 }

  function Codes(es: seq<Event>): seq<nat> {
    if es == [] then []
    else Codes(es[..|es| - 1]) + if es[|es| - 1].Scan? then [es[|es| - 1].code] else []
  }

  // A plain queue: the characters accepted so far and how many of them were taken.
  datatype Log = Log(accepted: string, taken: nat)

  function LogOf(es: seq<Event>): Log {
    if es == [] then Log("", 0)
    else LogTurn(LogOf(es[..|es| - 1]), Codes(es[..|es| - 1]), es[|es| - 1])
  }

  // One event: a scancode is processed, or one character is asked for.
  function Turn(s: State, out: string, e: Event): (State, string)
    requires Ok(s) && EventOk(e)
    ensures Ok(Turn(s, out, e).0)
  {
    match e
    case Scan(code) => (Process(s, code), out)
    case GetChar => (Poll(s).0, if Poll(s).1.Some? then out + [Poll(s).1.value] else out)
  }

  function LogTurn(log: Log, codes: seq<nat>, e: Event): Log {
    match e
    case Scan(code) =>
      var c := Decoded(codes, code);
      if c != NONE && |log.accepted| - log.taken < KBD_BUFFER_SIZE then log.(accepted := log.accepted + [c]) else log
    case GetChar => if log.taken < |log.accepted| then log.(taken := log.taken + 1) else log
  }

  // The driver's state and everything it has returned, after the events.
  function After(es: seq<Event>): (State, string)
    requires forall i :: 0 <= i < |es| ==> EventOk(es[i])
    ensures Ok(After(es).0)
  {
    if es == [] then (Initial(), "")
    else
      assert EventOk(es[|es| - 1]);
      var (s, out) := After(es[..|es| - 1]);
      Turn(s, out, es[|es| - 1])
  }

  lemma {:induction false} DecoderState(es: seq<Event>)
    requires forall i :: 0 <= i < |es| ==> EventOk(es[i])
    ensures Tracks(After(es).0, Codes(es))
  {
    if es != [] {
      var before := es[..|es| - 1];
      DecoderState(before);
      if es[|es| - 1].Scan? {
        assert EventOk(es[|es| - 1]);
        assert Codes(es) == Codes(before) + [es[|es| - 1].code];
        DecodeStep(After(before).0, Codes(before), es[|es| - 1].code);
      } else {
        assert Codes(es) == Codes(before);
      }
    }
  }

  ghost predicate Tracks(s: State, codes: seq<nat>)
    requires Ok(s)
  {
    && s.shift == ShiftAfter(codes) && s.caps == (CapsPresses(codes) % 2 == 1)
    && forall key: nat :: OrdinaryKey(key) ==> s.down[key] == HeldAfter(codes, key)
  }

  lemma DecodeStep(s: State, codes: seq<nat>, code: nat)
    requires Ok(s) && code < 256 && Tracks(s, codes)
    ensures Tracks(Process(s, code), codes + [code])
  {
    hide Process, ShiftAfter, CapsPresses, HeldAfter, OrdinaryKey;
    ModifiersStep(s, codes, code);
    forall key: nat | OrdinaryKey(key)
      ensures key < 256 && Process(s, code).down[key] == HeldAfter(codes + [code], key)
    {
      OrdinaryIsSmall(key);
      KeyStep(s, code, key);
      HeldStep(codes, code, key);
    }
  }

  lemma OrdinaryIsSmall(key: nat)
    requires OrdinaryKey(key)
    ensures key < 0x80
  {
  }

  lemma ModifiersStep(s: State, codes: seq<nat>, code: nat)
    requires Ok(s) && code < 256 && s.shift == ShiftAfter(codes) && s.caps == (CapsPresses(codes) % 2 == 1)
    ensures Process(s, code).shift == ShiftAfter(codes + [code])
    ensures Process(s, code).caps == (CapsPresses(codes + [code]) % 2 == 1)
  {
    hide CharOf;
    var all := codes + [code];
    assert all[..|all| - 1] == codes;
  }

  // The code is the key's press, its release, or leaves it as it was.
  lemma KeyStep(s: State, code: nat, key: nat)
    requires Ok(s) && code < 256 && OrdinaryKey(key)
    ensures Process(s, code).down[key] == (code == key || (code != key + 0x80 && s.down[key]))
  {
    hide CharOf;
  }

  lemma HeldStep(codes: seq<nat>, code: nat, key: nat)
    ensures HeldAfter(codes + [code], key) == (code == key || (code != key + 0x80 && HeldAfter(codes, key)))
  {
    var all := codes + [code];
    assert all[..|all| - 1] == codes;
  }

  // What was returned followed by what is pending is what was accepted, in order.
  predicate Faithful(s: State, out: string, log: Log) {
    out + s.pending == log.accepted && |out| == log.taken <= |log.accepted| && |s.pending| <= KBD_BUFFER_SIZE
  }

  // Over every interleaving, what was returned followed by what is pending is, in
  // order, what the key-down edges that found room decoded to.
  lemma {:induction false} QueueIsFaithful(es: seq<Event>)
    requires forall i :: 0 <= i < |es| ==> EventOk(es[i])
    ensures Faithful(After(es).0, After(es).1, LogOf(es))
  {
    if es != [] {
      var before, last := es[..|es| - 1], es[|es| - 1];
      assert EventOk(last);
      QueueIsFaithful(before);
      DecoderState(before);
      hide Decoded, Tracks, Codes, Turn, LogTurn, Faithful;
      FaithfulStep(After(before).0, After(before).1, LogOf(before), Codes(before), last);
    }
  }

  lemma FaithfulStep(s: State, out: string, log: Log, codes: seq<nat>, e: Event)
    requires Ok(s) && EventOk(e) && Tracks(s, codes) && Faithful(s, out, log)
    ensures var (s', out') := Turn(s, out, e); Faithful(s', out', LogTurn(log, codes, e))
  {
    if e.Scan? {
      hide Decoded, Tracks, Process;
      ProcessDecodes(s, codes, e.code);
      var c := Decoded(codes, e.code);
      assert out + (s.pending + [c]) == out + s.pending + [c];
    } else if s.pending != "" {
      assert out + [s.pending[0]] + s.pending[1..] == out + s.pending;
    }
  }

  lemma ProcessDecodes(s: State, codes: seq<nat>, code: nat)
    requires Ok(s) && code < 256
    requires Tracks(s, codes)
    ensures Process(s, code).pending ==
      if Decoded(codes, code) != NONE && |s.pending| < KBD_BUFFER_SIZE then s.pending + [Decoded(codes, code)] else s.pending
  {
  }

  // ---- The decoding, key by key ----

  // The letter keys: the row of Q starts at scancode 16, that of A at 30, that of Z at 44.
  function Letter(code: nat): (c: char) {
    if 16 <= code < 26 then "qwertyuiop"[code - 16]
    else if 30 <= code < 39 then "asdfghjkl"[code - 30]
    else if 44 <= code < 51 then "zxcvbnm"[code - 44]
    else NONE
  }

  // A letter key gives the capital when exactly one of shift and caps lock is on, and the
  // small letter otherwise.
  lemma LetterCase(code: nat, shift: bool, caps: bool)
    requires Letter(code) != NONE
    ensures CharOf(code, shift, caps) == if shift == caps then Letter(code) else Letter(code) - 'a' + 'A'
  {
    if shift == caps {
      SmallLetters(code);
    } else {
      CapitalLetters(code);
    }
  }

  lemma SmallLetters(code: nat)
    requires Letter(code) != NONE
    ensures code < 58 && Unmodified()[code] == Letter(code)
  {
  }

  lemma CapitalLetters(code: nat)
    requires Letter(code) != NONE
    ensures code < 58 && Shifted()[code] == Letter(code) - 'a' + 'A'
  {
  }

  // The keys in the row of the digits, without and with exactly one of shift and caps
  // lock, and the control characters.
  lemma DigitKeys(code: nat, shift: bool, caps: bool)
    requires 2 <= code < 14
    ensures CharOf(code, shift, caps) == if shift == caps then "1234567890-="[code - 2] else "!\"#$%&/()=?^"[code - 2]
  {
  }

  lemma ControlKeys(shift: bool, caps: bool)
    ensures CharOf(1, shift, caps) == '\U{1B}' && CharOf(14, shift, caps) == '\U{08}' && CharOf(15, shift, caps) == '\t'
    ensures CharOf(28, shift, caps) == '\n' && CharOf(55, shift, caps) == '*' && CharOf(57, shift, caps) == ' '
    ensures forall code: nat :: code in {0, 29, 42, 54, 56} || code >= 58 ==> CharOf(code, shift, caps) == NONE
  {
  }

  // The signs to the right of the letters.
  lemma SignKeys(shift: bool, caps: bool)
    ensures CharOf(26, shift, caps) == if shift == caps then '[' else '{'
    ensures CharOf(27, shift, caps) == if shift == caps then ']' else '}'
    ensures CharOf(39, shift, caps) == if shift == caps then ';' else '+'
    ensures CharOf(40, shift, caps) == if shift == caps then '\'' else '*'
    ensures CharOf(41, shift, caps) == if shift == caps then '`' else '~'
    ensures CharOf(43, shift, caps) == if shift == caps then '\\' else '>'
    ensures CharOf(51, shift, caps) == if shift == caps then ',' else ';'
    ensures CharOf(52, shift, caps) == if shift == caps then '.' else ':'
    ensures CharOf(53, shift, caps) == if shift == caps then '/' else '_'
  {
  }

  // Left and right shift are 2A and 36, released with the top bit set; caps lock is 3A,
  // whose release and every other release is no character.
  lemma SpecialCodes(codes: seq<nat>, code: nat)
    requires code < 256
    ensures ShiftAfter(codes + [code]) == (code == 0x2A || code == 0x36 || (code != 0xAA && code != 0xB6 && ShiftAfter(codes)))
    ensures CapsPresses(codes + [code]) == CapsPresses(codes) + if code == 0x3A then 1 else 0
    ensures code >= 0x80 || code in {0x2A, 0x36, 0x3A} ==> Decoded(codes, code) == NONE
  {
    var all := codes + [code];
    assert all[..|all| - 1] == codes;
  }

  // Every other press is decoded unless the key is still held from an earlier one.
  lemma PressIsDecoded(codes: seq<nat>, code: nat)
    requires code < 0x80 && code !in {0x2A, 0x36, 0x3A}
    ensures Decoded(codes, code) ==
      if HeldAfter(codes, code) then NONE else CharOf(code, ShiftAfter(codes), CapsPresses(codes) % 2 == 1)
  {
  }
}
