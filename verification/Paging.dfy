// Four-level page tables as the processor reads them (section 4.5, 4-level paging,
// of the Intel SDM Volume 3A), and what one table write does to every walk.
module Paging {
  import opened Words

  type Table = t: seq<word> | |t| == 512 witness seq(512, _ => 0)

  // Physical memory, one 512-entry table per frame number.
  type Memory = map<nat, Table>

  function EmptyTable(): (t: Table)
    ensures forall i :: 0 <= i < 512 ==> t[i] == 0
  {
    seq(512, _ => 0)
  }

  const PHYS_LIMIT: nat := 0x10_0000_0000_0000

  predicate Present(e: nat) { Bit(e, 0) }
  predicate Writable(e: nat) { Bit(e, 1) }
  predicate User(e: nat) { Bit(e, 2) }
  predicate Large(e: nat) { Bit(e, 7) }
  predicate NoExecute(e: nat) { Bit(e, 63) }
  function FrameOf(e: nat): nat { e / 4096 % 0x100_0000_0000 }

  // Access rights accumulated along a walk.
  datatype Perm = Perm(w: bool, u: bool, nx: bool)

  const FULL_ACCESS: Perm := Perm(true, true, false)

  function Restrict(p: Perm, e: nat): Perm {
    Perm(p.w && Writable(e), p.u && User(e), p.nx || NoExecute(e))
  }

  // The outcome of a walk: the entry that maps the address and its level (1 for a
  // 4 KiB page, 2 for 2 MiB, 3 for 1 GiB), with the rights of the tables above it.
  datatype Walk = Fault(path: Perm) | Hit(level: nat, entry: word, path: Perm) {
    function Rights(): Perm
      requires Hit?
    {
      Restrict(path, entry)
    }

    // The physical address this walk gives va.
    function Target(va: nat): nat
      requires Hit?
    {
      if level <= 1 then FrameOf(entry) * 4096 + va % 4096
      else if level == 2 then FrameOf(entry) / 512 * 0x20_0000 + va % 0x20_0000
      else FrameOf(entry) / 0x4_0000 * 0x4000_0000 + va % 0x4000_0000
    }

    predicate IsLarge() { Hit? && level > 1 }
  }

  // The bytes one entry of a level-n table covers.
  function Span(level: nat): (s: nat)
    requires level <= 5
    ensures s > 0
  {
    if level == 0 then 8 else if level == 1 then 0x1000 else if level == 2 then 0x20_0000
    else if level == 3 then 0x4000_0000 else if level == 4 then 0x80_0000_0000
    else 0x1_0000_0000_0000
  }

  // PT_INDEX, PD_INDEX, PDPT_INDEX and PML4_INDEX for levels 1 to 4.
  function Index(level: nat, va: nat): (i: nat)
    requires 1 <= level <= 4
    ensures i < 512
  {
    va / Span(level) % 512
  }

  // The translated address bits above those a level-n table decides.
  function Prefix(level: nat, va: nat): nat
    requires level <= 4
  {
    va % 0x1_0000_0000_0000 / Span(level + 1)
  }

  // The page number: bits 47 to 12.
  function Vpn(va: nat): nat {
    Prefix(0, va)
  }

  predicate Canonical(va: nat) {
    va < 0x8000_0000_0000 || 0xFFFF_8000_0000_0000 <= va < WORD_LIMIT
  }

  function WalkFrom(mem: Memory, t: nat, level: nat, va: nat, path: Perm): Walk
    requires 1 <= level <= 4
    decreases level
  {
    if t !in mem then Fault(path)
    else
      var e := mem[t][Index(level, va)];
      if !Present(e) || (level == 4 && Large(e)) then Fault(path)
      else if level == 1 || Large(e) then Hit(level, e, path)
      else WalkFrom(mem, FrameOf(e), level - 1, va, Restrict(path, e))
  }

  function Translate(mem: Memory, root: nat, va: nat): Walk {
    WalkFrom(mem, root, 4, va, FULL_ACCESS)
  }

  // What each allocated frame is used for. A page table has a unique position: its
  // level and the address prefix it serves.
  datatype Owner = TableAt(level: nat, prefix: nat) | HeapPage(va: nat) | Held | Boot

  predicate EntryOk(e: nat, level: nat, slot: nat, owner: map<nat, Owner>) {
    Present(e) && level > 1 ==>
      && (Large(e) ==> level == 2)
      && (!Large(e) ==>
        && e < PHYS_LIMIT && Writable(e) && (level == 2 ==> User(e))
        && FrameOf(e) in owner && owner[FrameOf(e)] == TableAt(level - 1, slot))
  }

  ghost predicate TableOk(mem: Memory, owner: map<nat, Owner>, t: nat)
    requires t in owner && owner[t].TableAt?
  {
    && t in mem
    && 1 <= owner[t].level <= 4
    && forall i :: 0 <= i < 512 ==> EntryOk(mem[t][i], owner[t].level, owner[t].prefix * 512 + i, owner)
  }

  ghost predicate WellFormed(mem: Memory, owner: map<nat, Owner>) {
    forall t :: t in owner && owner[t].TableAt? ==> TableOk(mem, owner, t)
  }

  predicate IsTable(owner: map<nat, Owner>, t: nat) {
    t in owner && owner[t].TableAt?
  }

  // Table t is where a walk of va is at the given level.
  predicate Serves(owner: map<nat, Owner>, t: nat, level: nat, va: nat)
    requires level <= 4
  {
    t in owner && owner[t] == TableAt(level, Prefix(level, va))
  }

  // Dividing by s and then by 512, with s and 512 * s dividing 2^48.
  lemma SplitAddress(va: nat, s: nat, q: nat, r: nat, above: nat)
    requires s > 0 && va == q * (s * 512 * above) + r
    ensures va / s % 512 == r / s % 512
    ensures r / s == r / (s * 512) * 512 + r / s % 512
  {
    var y := r / s;
    assert va / s == q * (512 * above) + y by {
      assert va == (q * (512 * above)) * s + r;
      DivMultiple(q * (512 * above), s, r);
    }
    ModMultiple(q * above, y);
    assert q * (512 * above) == 512 * (q * above);
    DivTwice(r, s);
  }

  lemma DivMultiple(k: nat, s: nat, r: nat)
    requires s > 0
    ensures (k * s + r) / s == k + r / s
  {
    var d := r / s;
    assert (k * s + r) == (k + d) * s + r % s;
    DivUnique(k * s + r, s, k + d, r % s);
  }

  lemma DivUnique(x: nat, s: nat, d: nat, m: nat)
    requires s > 0 && x == d * s + m && m < s
    ensures x / s == d
  {
    var e, k := x / s, x % s;
    assert e * s + k == d * s + m;
    assert (e - d) * s == m - k;
    if e > d {
      MulAtLeast(e - d, s);
    } else if e < d {
      MulAtLeast(d - e, s);
    }
  }

  lemma MulAtLeast(k: nat, s: nat)
    requires k >= 1
    ensures k * s >= s
  {
  }

  lemma ModMultiple(k: nat, y: nat)
    ensures (512 * k + y) % 512 == y % 512
  {
  }

  lemma Regroup(z: nat, w: nat, s: nat, m: nat)
    requires w < 512 && m < s
    ensures (z * 512 + w) * s + m == z * (s * 512) + (w * s + m) && w * s + m < s * 512
  {
    MulDistributes(z * 512, w, s);
    MulSwaps(z, 512, s);
    MulDistributes(511 - w, w, s);
    MulDistributes(511, 1, s);
  }

  lemma MulDistributes(x: nat, y: nat, s: nat)
    ensures (x + y) * s == x * s + y * s
  {
  }

  lemma MulSwaps(x: nat, y: nat, s: nat)
    ensures (x * y) * s == x * (s * y)
  {
  }

  lemma DivTwice(r: nat, s: nat)
    requires s > 0
    ensures r / (s * 512) == r / s / 512
  {
    var y := r / s;
    var z := y / 512;
    var m := (y % 512) * s + r % s;
    Regroup(z, y % 512, s, r % s);
    DivUnique(r, s * 512, z, m);
  }

  // Index decomposition: the next prefix is this prefix followed by the index.
  lemma PrefixStep(level: nat, va: nat)
    requires 1 <= level <= 4
    ensures Prefix(level - 1, va) == Prefix(level, va) * 512 + Index(level, va)
  {
    var q, r := va / 0x1_0000_0000_0000, va % 0x1_0000_0000_0000;
    assert va == q * 0x1_0000_0000_0000 + r;
    if level == 4 {
      SplitAddress(va, 0x80_0000_0000, q, r, 1);
    } else if level == 3 {
      SplitAddress(va, 0x4000_0000, q, r, 512);
    } else if level == 2 {
      SplitAddress(va, 0x20_0000, q, r, 0x4_0000);
    } else {
      SplitAddress(va, 0x1000, q, r, 0x800_0000);
    }
  }

  // Two addresses with the same four indices are the same page.
  lemma SameIndicesSamePage(a: nat, b: nat)
    requires forall level :: 1 <= level <= 4 ==> Index(level, a) == Index(level, b)
    ensures Vpn(a) == Vpn(b)
    ensures Canonical(a) && Canonical(b) ==> a / 4096 == b / 4096
  {
    SamePrefixes(a, b, 0);
    if Canonical(a) && Canonical(b) {
      CanonicalPage(a, b);
    }
  }

  lemma {:induction false} SamePrefixes(a: nat, b: nat, level: nat)
    requires level <= 4 && forall l :: 1 <= l <= 4 ==> Index(l, a) == Index(l, b)
    ensures Prefix(level, a) == Prefix(level, b)
    decreases 4 - level
  {
    if level < 4 {
      SamePrefixes(a, b, level + 1);
      PrefixStep(level + 1, a);
      PrefixStep(level + 1, b);
    }
  }

  lemma LowPage(a: nat)
    requires Canonical(a)
    ensures a / 4096 == Vpn(a) + if a < 0x8000_0000_0000 then 0 else 0xF_FFF0_0000_0000
    ensures Vpn(a) < 0x8_0000_0000 <==> a < 0x8000_0000_0000
  {
  }

  lemma CanonicalPage(a: nat, b: nat)
    requires Canonical(a) && Canonical(b) && Vpn(a) == Vpn(b)
    ensures a / 4096 == b / 4096
  {
    LowPage(a);
    LowPage(b);
  }

  // mem and mem' hold the same tables, except that entry i of table t may differ.
  ghost predicate AgreeExcept(mem: Memory, mem': Memory, owner: map<nat, Owner>, t: nat, i: nat) {
    forall x :: IsTable(owner, x) && x in mem ==>
      x in mem' && forall j :: 0 <= j < 512 && !(x == t && j == i) ==> mem'[x][j] == mem[x][j]
  }

  // A write to entry i of table t changes no walk that does not pass through that
  // entry: one at a level below t, in another table, or at another address slot.
  lemma {:induction false} WalkUnaffected(mem: Memory, mem': Memory, owner: map<nat, Owner>, t: nat, i: nat,
                                          x: nat, level: nat, va: nat, path: Perm)
    requires WellFormed(mem, owner) && AgreeExcept(mem, mem', owner, t, i)
    requires 1 <= level <= 4 && Serves(owner, x, level, va)
    requires IsTable(owner, t) && 1 <= owner[t].level <= 4
    requires level < owner[t].level || (level == owner[t].level && x != t)
      || Prefix(owner[t].level - 1, va) != owner[t].prefix * 512 + i
    ensures WalkFrom(mem', x, level, va, path) == WalkFrom(mem, x, level, va, path)
    decreases level
  {
    var idx := Index(level, va);
    PrefixStep(level, va);
    assert TableOk(mem, owner, x);
    assert !(x == t && idx == i);
    var e := mem[x][idx];
    assert mem'[x][idx] == e;
    assert EntryOk(e, level, owner[x].prefix * 512 + idx, owner);
    if Present(e) && !Large(e) && level > 1 {
      WalkUnaffected(mem, mem', owner, t, i, FrameOf(e), level - 1, va, Restrict(path, e));
    }
  }

  // Linking an empty table under an absent entry: every walk that went through the
  // entry still faults, now one level further down.
  ghost predicate SameWalk(a: Walk, b: Walk, keepUser: bool) {
    a == b || (!keepUser && a.Fault? && b.Fault?)
  }

  // No address is translated differently (with keepUser, not even the rights differ).
  ghost predicate SameWalks(mem: Memory, mem': Memory, root: nat, keepUser: bool) {
    forall v: nat :: SameWalk(Translate(mem, root, v), Translate(mem', root, v), keepUser)
  }

  // Every address in va's slot of the level now walks to w; no other walk changed.
  ghost predicate Remaps(mem: Memory, mem': Memory, root: nat, level: nat, va: nat, w: Walk)
    requires 1 <= level <= 4
  {
    forall v: nat :: Translate(mem', root, v) ==
      if Prefix(level - 1, v) == Prefix(level - 1, va) then w else Translate(mem, root, v)
  }

  lemma SameWalksCompose(m0: Memory, m1: Memory, m2: Memory, root: nat, keepUser: bool)
    requires SameWalks(m0, m1, root, keepUser) && SameWalks(m1, m2, root, keepUser)
    ensures SameWalks(m0, m2, root, keepUser)
  {
    forall v: nat
      ensures SameWalk(Translate(m0, root, v), Translate(m2, root, v), keepUser)
    {
      assert SameWalk(Translate(m0, root, v), Translate(m1, root, v), keepUser);
      assert SameWalk(Translate(m1, root, v), Translate(m2, root, v), keepUser);
    }
  }

  lemma SameWalksThenRemaps(m0: Memory, m1: Memory, m2: Memory, root: nat, level: nat, va: nat, w: Walk)
    requires 1 <= level <= 4 && SameWalks(m0, m1, root, true) && Remaps(m1, m2, root, level, va, w)
    ensures Remaps(m0, m2, root, level, va, w)
  {
    forall v: nat
      ensures Translate(m2, root, v) ==
        if Prefix(level - 1, v) == Prefix(level - 1, va) then w else Translate(m0, root, v)
    {
      assert SameWalk(Translate(m0, root, v), Translate(m1, root, v), true);
    }
  }

  lemma SameWalksWeaken(m0: Memory, m1: Memory, root: nat, keepUser: bool)
    requires SameWalks(m0, m1, root, true)
    ensures SameWalks(m0, m1, root, keepUser)
  {
    forall v: nat
      ensures SameWalk(Translate(m0, root, v), Translate(m1, root, v), keepUser)
    {
      assert SameWalk(Translate(m0, root, v), Translate(m1, root, v), true);
    }
  }

  lemma SameWalkAt(mem: Memory, mem': Memory, root: nat, keepUser: bool, v: nat)
    requires SameWalks(mem, mem', root, keepUser)
    ensures Translate(mem, root, v).IsLarge() == Translate(mem', root, v).IsLarge()
    ensures keepUser ==> Translate(mem, root, v) == Translate(mem', root, v)
  {
    assert SameWalk(Translate(mem, root, v), Translate(mem', root, v), keepUser);
  }

  function LinkEntry(f: nat, tableFlags: nat): nat { f * 4096 + tableFlags }

  function LinkTable(mem: Memory, t: nat, i: nat, f: nat, tableFlags: nat): Memory
    requires t in mem && i < 512 && f < 0x100_0000_0000 && tableFlags < 8
  {
    var zeroed := mem[f := EmptyTable()];
    zeroed[t := zeroed[t][i := LinkEntry(f, tableFlags)]]
  }

  lemma LinkEntryBits(f: nat, user: bool)
    requires f < 0x100_0000_0000
    ensures var e := LinkEntry(f, if user then 7 else 3);
      Present(e) && Writable(e) && User(e) == user && !Large(e) && !NoExecute(e) && FrameOf(e) == f && e < PHYS_LIMIT
  {
    var low := if user then 7 else 3;
    TableFlagBits(user);
    LinkBit(f, low, 0);
    LinkBit(f, low, 1);
    LinkBit(f, low, 2);
    LinkBit(f, low, 7);
    TableEntryIsExecutable(LinkEntry(f, low));
  }

  lemma TableFlagBits(user: bool)
    ensures var low := if user then 7 else 3; Bit(low, 0) && Bit(low, 1) && Bit(low, 2) == user && !Bit(low, 7)
  {
    SmallHasNoHighBit(if user then 7 else 3, 3, 7);
  }

  lemma LinkBit(f: nat, low: nat, i: nat)
    requires low < 8 && i < 12
    ensures Bit(LinkEntry(f, low), i) == Bit(low, i)
  {
    WordLimitIsPow2();
    SplitBit(low, f, 12, i);
  }

  lemma TableEntryIsExecutable(e: nat)
    requires e < PHYS_LIMIT
    ensures !NoExecute(e)
  {
    WordLimitIsPow2();
    SmallHasNoHighBit(e, 52, 63);
  }

  lemma LinkKeepsWellFormed(mem: Memory, owner: map<nat, Owner>, t: nat, i: nat, f: nat, user: bool)
    requires WellFormed(mem, owner) && IsTable(owner, t) && 1 < owner[t].level && i < 512
    requires f !in owner && f < 0x100_0000_0000 && (owner[t].level == 2 ==> user)
    ensures WellFormed(LinkTable(mem, t, i, f, if user then 7 else 3),
                       owner[f := TableAt(owner[t].level - 1, owner[t].prefix * 512 + i)])
  {
    assert TableOk(mem, owner, t);
    var mem' := LinkTable(mem, t, i, f, if user then 7 else 3);
    var owner' := owner[f := TableAt(owner[t].level - 1, owner[t].prefix * 512 + i)];
    forall x | IsTable(owner', x)
      ensures TableOk(mem', owner', x)
    {
      if x != f {
        assert TableOk(mem, owner, x);
      }
      forall j | 0 <= j < 512
        ensures EntryOk(mem'[x][j], owner'[x].level, owner'[x].prefix * 512 + j, owner')
      {
        if x != f {
          assert EntryOk(mem[x][j], owner[x].level, owner[x].prefix * 512 + j, owner);
        }
        LinkedEntryOk(mem, owner, t, i, f, user, x, j);
      }
    }
  }

  lemma LinkedEntryOk(mem: Memory, owner: map<nat, Owner>, t: nat, i: nat, f: nat, user: bool, x: nat, j: nat)
    requires IsTable(owner, t) && t in mem && 1 < owner[t].level <= 4 && i < 512 && j < 512
    requires f !in owner && f < 0x100_0000_0000 && (owner[t].level == 2 ==> user)
    requires x == f || (IsTable(owner, x) && x in mem)
    requires x != f ==> EntryOk(mem[x][j], owner[x].level, owner[x].prefix * 512 + j, owner)
    ensures var mem' := LinkTable(mem, t, i, f, if user then 7 else 3);
      var owner' := owner[f := TableAt(owner[t].level - 1, owner[t].prefix * 512 + i)];
      EntryOk(mem'[x][j], owner'[x].level, owner'[x].prefix * 512 + j, owner')
  {
    if x == f {
      assert EmptyTable()[j] == 0;
      assert !Present(0);
    } else if x == t && j == i {
      LinkEntryBits(f, user);
    }
  }

  lemma {:induction false} WalkLinked(mem: Memory, owner: map<nat, Owner>, t: nat, i: nat, f: nat, user: bool,
                                      x: nat, level: nat, va: nat, path: Perm)
    requires WellFormed(mem, owner) && IsTable(owner, t) && 1 < owner[t].level && i < 512
    requires f !in owner && f < 0x100_0000_0000 && !Present(mem[t][i])
    requires 1 <= level <= 4 && Serves(owner, x, level, va)
    ensures SameWalk(WalkFrom(mem, x, level, va, path),
                     WalkFrom(LinkTable(mem, t, i, f, if user then 7 else 3), x, level, va, path), user)
    decreases level
  {
    var mem' := LinkTable(mem, t, i, f, if user then 7 else 3);
    var idx := Index(level, va);
    PrefixStep(level, va);
    LinkEntryBits(f, user);
    assert TableOk(mem, owner, t) && TableOk(mem, owner, x);
    var e := mem[x][idx];
    if x == t && idx == i {
      assert WalkFrom(mem, x, level, va, path) == Fault(path);
      var e' := mem'[x][idx];
      assert !Present(EmptyTable()[Index(level - 1, va)]);
      assert WalkFrom(mem', f, level - 1, va, Restrict(path, e')) == Fault(Restrict(path, e'));
    } else {
      assert mem'[x][idx] == e;
      assert EntryOk(e, level, owner[x].prefix * 512 + idx, owner);
      if Present(e) && !Large(e) && level > 1 {
        WalkLinked(mem, owner, t, i, f, user, FrameOf(e), level - 1, va, Restrict(path, e));
      }
    }
  }

  // Writing a leaf keeps the tree well formed: any 4 KiB leaf, or a 2 MiB one.
  lemma LeafKeepsWellFormed(mem: Memory, owner: map<nat, Owner>, t: nat, i: nat, e: word)
    requires WellFormed(mem, owner) && IsTable(owner, t) && i < 512
    requires owner[t].level == 1 || (owner[t].level == 2 && Large(e))
    ensures t in mem && WellFormed(mem[t := mem[t][i := e]], owner)
  {
    assert TableOk(mem, owner, t);
    var mem' := mem[t := mem[t][i := e]];
    forall x | IsTable(owner, x)
      ensures TableOk(mem', owner, x)
    {
      assert TableOk(mem, owner, x);
      forall j | 0 <= j < 512
        ensures EntryOk(mem'[x][j], owner[x].level, owner[x].prefix * 512 + j, owner)
      {
        assert EntryOk(mem[x][j], owner[x].level, owner[x].prefix * 512 + j, owner);
      }
    }
  }

  // In a well-formed tree the tables above a leaf never take rights away except
  // user access.
  lemma {:induction false} PathIsPermissive(mem: Memory, owner: map<nat, Owner>, x: nat, level: nat, va: nat, path: Perm)
    requires WellFormed(mem, owner) && 1 <= level <= 4 && Serves(owner, x, level, va)
    requires path.w && !path.nx
    ensures var r := WalkFrom(mem, x, level, va, path); r.path.w && !r.path.nx
    decreases level
  {
    var idx := Index(level, va);
    PrefixStep(level, va);
    assert TableOk(mem, owner, x);
    var e := mem[x][idx];
    assert EntryOk(e, level, owner[x].prefix * 512 + idx, owner);
    if Present(e) && !Large(e) && level > 1 {
      TableEntryIsExecutable(e);
      PathIsPermissive(mem, owner, FrameOf(e), level - 1, va, Restrict(path, e));
    }
  }

  // The entry e points at the table in frame next.
  predicate Links(e: nat, next: nat) {
    Present(e) && !Large(e) && FrameOf(e) == next
  }

  // A walk of va that is at table x on level l goes on to table t on the given level,
  // where it arrives with rights pathT.
  predicate Reaches(mem: Memory, x: nat, l: nat, va: nat, path: Perm, t: nat, level: nat, pathT: Perm)
    requires l <= 4
    decreases l
  {
    if l <= level || l == 0 then l == level && x == t && path == pathT
    else
      && x in mem
      && var e := mem[x][Index(l, va)];
      && Links(e, FrameOf(e))
      && Reaches(mem, FrameOf(e), l - 1, va, Restrict(path, e), t, level, pathT)
  }

  lemma {:induction false} ReachesWalk(mem: Memory, x: nat, l: nat, va: nat, path: Perm, t: nat, level: nat, pathT: Perm)
    requires 1 <= level <= l <= 4 && Reaches(mem, x, l, va, path, t, level, pathT)
    ensures WalkFrom(mem, x, l, va, path) == WalkFrom(mem, t, level, va, pathT)
    decreases l
  {
    if level < l {
      var e := mem[x][Index(l, va)];
      ReachesWalk(mem, FrameOf(e), l - 1, va, Restrict(path, e), t, level, pathT);
    }
  }

  lemma {:induction false} ReachesStep(mem: Memory, x: nat, l: nat, va: nat, path: Perm, t: nat, level: nat, pathT: Perm)
    requires 2 <= level <= l <= 4 && Reaches(mem, x, l, va, path, t, level, pathT)
    requires t in mem && Links(mem[t][Index(level, va)], FrameOf(mem[t][Index(level, va)]))
    ensures var e := mem[t][Index(level, va)];
      Reaches(mem, x, l, va, path, FrameOf(e), level - 1, Restrict(pathT, e))
    decreases l
  {
    if level < l {
      var e := mem[x][Index(l, va)];
      ReachesStep(mem, FrameOf(e), l - 1, va, Restrict(path, e), t, level, pathT);
    }
  }

  // Tables above the given level keep their present entries.
  ghost predicate KeepsAbove(mem: Memory, mem': Memory, owner: map<nat, Owner>, level: nat) {
    forall x :: IsTable(owner, x) && owner[x].level > level && x in mem ==> KeepsRow(mem, mem', x)
  }

  ghost predicate KeepsRow(mem: Memory, mem': Memory, x: nat)
    requires x in mem
  {
    x in mem' && forall j :: 0 <= j < 512 && Present(mem[x][j]) ==> mem'[x][j] == mem[x][j]
  }

  // Reaching a table depends only on the present entries above it and on the
  // address bits those tables look at.
  lemma {:induction false} ReachesKept(mem: Memory, mem': Memory, owner: map<nat, Owner>, x: nat, l: nat,
                                       va: nat, v: nat, path: Perm, t: nat, level: nat, pathT: Perm)
    requires 1 <= level <= l <= 4 && Reaches(mem, x, l, va, path, t, level, pathT)
    requires WellFormed(mem, owner) && Serves(owner, x, l, va) && KeepsAbove(mem, mem', owner, level)
    requires Prefix(level, v) == Prefix(level, va)
    ensures Reaches(mem', x, l, v, path, t, level, pathT)
    ensures Serves(owner, t, level, va)
    decreases l
  {
    if level < l {
      SamePrefixAbove(va, v, level, l - 1);
      SameStep(l, va, v);
      ChildServes(mem, owner, x, l, va);
      assert KeepsRow(mem, mem', x);
      var e := mem[x][Index(l, va)];
      assert mem'[x][Index(l, v)] == e;
      ReachesKept(mem, mem', owner, FrameOf(e), l - 1, va, v, Restrict(path, e), t, level, pathT);
    }
  }

  lemma SameStep(level: nat, a: nat, b: nat)
    requires 1 <= level <= 4 && Prefix(level - 1, a) == Prefix(level - 1, b)
    ensures Index(level, a) == Index(level, b) && Prefix(level, a) == Prefix(level, b)
  {
    PrefixStep(level, a);
    PrefixStep(level, b);
  }

  // The table an entry on the walk points at is the next table of the walk.
  lemma ChildServes(mem: Memory, owner: map<nat, Owner>, x: nat, level: nat, va: nat)
    requires WellFormed(mem, owner) && 1 <= level <= 4 && Serves(owner, x, level, va)
    ensures x in mem
    ensures var e := mem[x][Index(level, va)];
      Present(e) && level > 1 ==>
        if Large(e) then level == 2
        else e < PHYS_LIMIT && Writable(e) && (level == 2 ==> User(e)) && Serves(owner, FrameOf(e), level - 1, va)
  {
    PrefixStep(level, va);
    assert TableOk(mem, owner, x);
    assert EntryOk(mem[x][Index(level, va)], level, owner[x].prefix * 512 + Index(level, va), owner);
  }

  lemma {:induction false} SamePrefixAbove(a: nat, b: nat, level: nat, l: nat)
    requires level <= l <= 4 && Prefix(level, a) == Prefix(level, b)
    ensures Prefix(l, a) == Prefix(l, b)
    decreases l
  {
    if level < l {
      SamePrefixAbove(a, b, level, l - 1);
      PrefixStep(l, a);
      PrefixStep(l, b);
    }
  }

  // One leaf write: every address of the slot now walks to that entry, every other
  // address walks as before.
  lemma LeafWritten(mem: Memory, owner: map<nat, Owner>, root: nat, t: nat, level: nat, va: nat, path: Perm, e: word)
    requires WellFormed(mem, owner) && Serves(owner, root, 4, va)
    requires 1 <= level <= 2 && Reaches(mem, root, 4, va, FULL_ACCESS, t, level, path)
    requires level == 1 || Large(e)
    ensures t in mem && Serves(owner, t, level, va)
    ensures var mem' := mem[t := mem[t][Index(level, va) := e]];
      WellFormed(mem', owner) && Remaps(mem, mem', root, level, va, if Present(e) then Hit(level, e, path) else Fault(path))
  {
    ReachesKept(mem, mem, owner, root, 4, va, va, FULL_ACCESS, t, level, path);
    assert TableOk(mem, owner, t);
    var i := Index(level, va);
    LeafKeepsWellFormed(mem, owner, t, i, e);
    PrefixStep(level, va);
    var mem' := mem[t := mem[t][i := e]];
    forall v: nat
      ensures Translate(mem', root, v) ==
        if Prefix(level - 1, v) == Prefix(level - 1, va) then if Present(e) then Hit(level, e, path) else Fault(path)
        else Translate(mem, root, v)
    {
      RootServes(owner, root, va, v);
      if Prefix(level - 1, v) == Prefix(level - 1, va) {
        SamePrefixAbove(va, v, level - 1, level);
        PrefixStep(level, v);
        assert Index(level, v) == i;
        ReachesKept(mem, mem', owner, root, 4, va, v, FULL_ACCESS, t, level, path);
        ReachesWalk(mem', root, 4, v, FULL_ACCESS, t, level, path);
      } else {
        WalkUnaffected(mem, mem', owner, t, i, root, 4, v, FULL_ACCESS);
      }
    }
  }

  lemma RootServes(owner: map<nat, Owner>, root: nat, va: nat, v: nat)
    ensures Serves(owner, root, 4, va) <==> root in owner && owner[root] == TableAt(4, 0)
    ensures Serves(owner, root, 4, va) ==> Serves(owner, root, 4, v)
  {
  }

  lemma ReachesRoot(mem: Memory, root: nat, va: nat)
    ensures Reaches(mem, root, 4, va, FULL_ACCESS, root, 4, FULL_ACCESS)
  {
  }

  // A walk that reaches a 4 KiB table has that table's rights as its path.
  lemma PathAtTable(mem: Memory, root: nat, t: nat, va: nat, path: Perm)
    requires Reaches(mem, root, 4, va, FULL_ACCESS, t, 1, path)
    ensures Translate(mem, root, va).path == path
  {
    ReachesWalk(mem, root, 4, va, FULL_ACCESS, t, 1, path);
  }

  // Going further down a walk can only take user access away.
  lemma {:induction false} PathOnlyShrinks(mem: Memory, t: nat, level: nat, va: nat, path: Perm)
    requires 1 <= level <= 4
    ensures WalkFrom(mem, t, level, va, path).path.u ==> path.u
    decreases level
  {
    if t in mem {
      var e := mem[t][Index(level, va)];
      if Present(e) && !(level == 4 && Large(e)) && level > 1 && !Large(e) {
        PathOnlyShrinks(mem, FrameOf(e), level - 1, va, Restrict(path, e));
      }
    }
  }

  // All addresses of one page have one walk.
  lemma {:induction false} SamePageSameWalk(mem: Memory, t: nat, level: nat, a: nat, b: nat, path: Perm)
    requires 1 <= level <= 4 && Vpn(a) == Vpn(b)
    ensures WalkFrom(mem, t, level, a, path) == WalkFrom(mem, t, level, b, path)
    decreases level
  {
    SamePrefixAbove(a, b, 0, level - 1);
    SameStep(level, a, b);
    if t in mem {
      var e := mem[t][Index(level, a)];
      if Present(e) && !(level == 4 && Large(e)) && level > 1 && !Large(e) {
        SamePageSameWalk(mem, FrameOf(e), level - 1, a, b, Restrict(path, e));
      }
    }
  }

  lemma PathAt(mem: Memory, owner: map<nat, Owner>, root: nat, t: nat, level: nat, va: nat, path: Perm)
    requires WellFormed(mem, owner) && root in owner && owner[root] == TableAt(4, 0)
    requires 1 <= level <= 4 && Reaches(mem, root, 4, va, FULL_ACCESS, t, level, path)
    ensures path.w && !path.nx && (Translate(mem, root, va).path.u ==> path.u)
  {
    RootServes(owner, root, va, va);
    PathReached(mem, owner, root, 4, va, FULL_ACCESS, t, level, path);
    ReachesWalk(mem, root, 4, va, FULL_ACCESS, t, level, path);
    PathOnlyShrinks(mem, t, level, va, path);
  }

  // As PathAt, for every address in the slot the table serves.
  lemma PathAtSlot(mem: Memory, owner: map<nat, Owner>, root: nat, t: nat, level: nat, va: nat, path: Perm, v: nat)
    requires WellFormed(mem, owner) && root in owner && owner[root] == TableAt(4, 0)
    requires 1 <= level <= 4 && Reaches(mem, root, 4, va, FULL_ACCESS, t, level, path)
    requires Prefix(level - 1, v) == Prefix(level - 1, va)
    ensures path.w && !path.nx && (Translate(mem, root, v).path.u ==> path.u)
  {
    RootServes(owner, root, va, va);
    SameStep(level, v, va);
    ReachesKept(mem, mem, owner, root, 4, va, v, FULL_ACCESS, t, level, path);
    PathAt(mem, owner, root, t, level, v, path);
  }

  // Every entry of a page directory that links a table grants user access, so below
  // the directory no table takes any away.
  lemma PathAtDirectory(mem: Memory, owner: map<nat, Owner>, root: nat, t: nat, va: nat, path: Perm, v: nat)
    requires WellFormed(mem, owner) && root in owner && owner[root] == TableAt(4, 0)
    requires Reaches(mem, root, 4, va, FULL_ACCESS, t, 2, path) && Prefix(1, v) == Prefix(1, va)
    ensures path.w && !path.nx && Translate(mem, root, v).path.u == path.u
  {
    RootServes(owner, root, va, va);
    SameStep(2, v, va);
    PathAtSlot(mem, owner, root, t, 2, va, path, v);
    ReachesKept(mem, mem, owner, root, 4, va, v, FULL_ACCESS, t, 2, path);
    ReachesWalk(mem, root, 4, v, FULL_ACCESS, t, 2, path);
    ChildServes(mem, owner, t, 2, v);
    DirectoryKeepsUser(mem, t, v, path);
  }

  lemma DirectoryKeepsUser(mem: Memory, t: nat, v: nat, path: Perm)
    requires t in mem && (Present(mem[t][Index(2, v)]) && !Large(mem[t][Index(2, v)]) ==> User(mem[t][Index(2, v)]))
    ensures WalkFrom(mem, t, 2, v, path).path.u == path.u
  {
    var e := mem[t][Index(2, v)];
    if Present(e) && !Large(e) {
      assert WalkFrom(mem, t, 2, v, path) == WalkFrom(mem, FrameOf(e), 1, v, Restrict(path, e));
    }
  }

  lemma {:induction false} PathReached(mem: Memory, owner: map<nat, Owner>, x: nat, l: nat, va: nat, path: Perm,
                                       t: nat, level: nat, pathT: Perm)
    requires WellFormed(mem, owner) && 1 <= level <= l <= 4 && Serves(owner, x, l, va)
    requires Reaches(mem, x, l, va, path, t, level, pathT) && path.w && !path.nx
    ensures pathT.w && !pathT.nx
    decreases l
  {
    if level < l {
      ChildServes(mem, owner, x, l, va);
      var e := mem[x][Index(l, va)];
      TableEntryIsExecutable(e);
      PathReached(mem, owner, FrameOf(e), l - 1, va, Restrict(path, e), t, level, pathT);
    }
  }

  lemma CanonicalHalf(a: nat)
    requires Canonical(a)
    ensures a / 0x1_0000_0000_0000 == if a % 0x1_0000_0000_0000 < 0x8000_0000_0000 then 0 else 0xFFFF
  {
  }

  // Among canonical addresses a slot is one aligned block.
  lemma CanonicalSlot(level: nat, a: nat, b: nat)
    requires 1 <= level <= 2 && Canonical(a) && Canonical(b)
    ensures Prefix(level - 1, a) == Prefix(level - 1, b) <==> a / Span(level) == b / Span(level)
  {
    CanonicalHalf(a);
    CanonicalHalf(b);
    if level == 1 {
      PageOfHalf(a);
      PageOfHalf(b);
    } else {
      LargePageOfHalf(a);
      LargePageOfHalf(b);
    }
  }

  lemma PageOfHalf(a: nat)
    requires a < WORD_LIMIT
    ensures a / 0x1000 == a / 0x1_0000_0000_0000 * 0x10_0000_0000 + a % 0x1_0000_0000_0000 / 0x1000
    ensures a % 0x1_0000_0000_0000 < 0x8000_0000_0000 <==> a % 0x1_0000_0000_0000 / 0x1000 < 0x8_0000_0000
    ensures a % 0x1_0000_0000_0000 / 0x1000 < 0x10_0000_0000
  {
  }

  lemma LargePageOfHalf(a: nat)
    requires a < WORD_LIMIT
    ensures a / 0x20_0000 == a / 0x1_0000_0000_0000 * 0x800_0000 + a % 0x1_0000_0000_0000 / 0x20_0000
    ensures a % 0x1_0000_0000_0000 < 0x8000_0000_0000 <==> a % 0x1_0000_0000_0000 / 0x20_0000 < 0x400_0000
    ensures a % 0x1_0000_0000_0000 / 0x20_0000 < 0x800_0000
  {
  }
}
