// How many tables the walk of an address lacks, and what each table write does to that
// number for every address.
module MissingTables {
  import opened Words
  import opened Paging

  // The tables missing below table t for the walk of va to reach a leaf.
  function MissingFrom(mem: Memory, t: nat, level: nat, va: nat): (n: nat)
    requires 1 <= level <= 4
    ensures n < level
    decreases level
  {
    if level == 1 then 0
    else if t !in mem then level - 1
    else
      var e := mem[t][Index(level, va)];
      if !Present(e) then level - 1
      else if Large(e) then 0
      else MissingFrom(mem, FrameOf(e), level - 1, va)
  }

  function Missing(mem: Memory, root: nat, va: nat): (n: nat)
    ensures n <= 3
  {
    MissingFrom(mem, root, 4, va)
  }

  // The number of tables below the root that the walks of two addresses do not share.
  function Parting(a: nat, b: nat): (n: nat)
    ensures n <= 3
  {
    if Prefix(1, a) == Prefix(1, b) then 0
    else if Prefix(2, a) == Prefix(2, b) then 1
    else if Prefix(3, a) == Prefix(3, b) then 2
    else 3
  }

  lemma {:induction false} MissingReaches(mem: Memory, x: nat, l: nat, va: nat, path: Perm, t: nat, level: nat, pathT: Perm)
    requires 1 <= level <= l <= 4 && Reaches(mem, x, l, va, path, t, level, pathT)
    ensures MissingFrom(mem, x, l, va) == MissingFrom(mem, t, level, va)
    decreases l
  {
    if level < l {
      var e := mem[x][Index(l, va)];
      MissingReaches(mem, FrameOf(e), l - 1, va, Restrict(path, e), t, level, pathT);
    }
  }

  lemma {:induction false} MissingUnaffected(mem: Memory, mem': Memory, owner: map<nat, Owner>, t: nat, i: nat,
                                             x: nat, level: nat, va: nat)
    requires WellFormed(mem, owner) && AgreeExcept(mem, mem', owner, t, i)
    requires 1 <= level <= 4 && Serves(owner, x, level, va)
    requires IsTable(owner, t) && 1 <= owner[t].level <= 4
    requires Prefix(owner[t].level - 1, va) != owner[t].prefix * 512 + i
    ensures MissingFrom(mem', x, level, va) == MissingFrom(mem, x, level, va)
    decreases level
  {
    var idx := Index(level, va);
    PrefixStep(level, va);
    assert TableOk(mem, owner, x);
    assert !(x == t && idx == i);
    var e := mem[x][idx];
    assert mem'[x][idx] == e;
    assert EntryOk(e, level, owner[x].prefix * 512 + idx, owner);
    if Present(e) && !Large(e) && level > 1 {
      MissingUnaffected(mem, mem', owner, t, i, FrameOf(e), level - 1, va);
    }
  }

  lemma PrefixesShared(a: nat, b: nat, l: nat)
    requires l <= 3
    ensures Parting(a, b) <= l <==> Prefix(l + 1, a) == Prefix(l + 1, b)
  {
    hide Prefix;
    if Prefix(1, a) == Prefix(1, b) {
      SamePrefixAbove(a, b, 1, 2);
    }
    if Prefix(2, a) == Prefix(2, b) {
      SamePrefixAbove(a, b, 2, 3);
    }
    TopPrefix(a, b);
  }

  lemma TopPrefix(a: nat, b: nat)
    ensures Prefix(4, a) == Prefix(4, b)
  {
  }

  // Once the walk of va reaches a table on a level, every address lacks at most the
  // tables below the lowest one it shares with va.
  lemma MissingShared(mem: Memory, owner: map<nat, Owner>, root: nat, va: nat, t: nat, level: nat, path: Perm, v: nat)
    requires WellFormed(mem, owner) && Serves(owner, root, 4, va)
    requires 1 <= level <= 4 && Reaches(mem, root, 4, va, FULL_ACCESS, t, level, path)
    ensures Missing(mem, root, v) <= Max(Parting(va, v), level - 1)
  {
    hide Prefix, Parting, Reaches, WellFormed, MissingFrom;
    var l := Max(Parting(va, v), level - 1);
    PrefixesShared(va, v, l);
    var x, pathX := UpTo(mem, root, 4, va, FULL_ACCESS, t, level, path, l + 1);
    ReachesKept(mem, mem, owner, root, 4, va, v, FULL_ACCESS, x, l + 1, pathX);
    MissingReaches(mem, root, 4, v, FULL_ACCESS, x, l + 1, pathX);
  }

  function Max(a: nat, b: nat): nat {
    if a <= b then b else a
  }

  // The table a walk passes on a level above the one it reaches.
  lemma {:induction false} UpTo(mem: Memory, x: nat, l: nat, va: nat, path: Perm, t: nat, level: nat, pathT: Perm, above: nat)
    returns (y: nat, pathY: Perm)
    requires 1 <= level <= above <= l <= 4 && Reaches(mem, x, l, va, path, t, level, pathT)
    ensures Reaches(mem, x, l, va, path, y, above, pathY)
    decreases l
  {
    if above == l {
      y, pathY := x, path;
    } else {
      var e := mem[x][Index(l, va)];
      y, pathY := UpTo(mem, FrameOf(e), l - 1, va, Restrict(path, e), t, level, pathT, above);
    }
  }

  // Every address then lacks the tables it lacked and does not share with va down to the
  // level.
  ghost predicate Fewer(mem: Memory, mem': Memory, root: nat, va: nat, below: nat) {
    forall v: nat :: Missing(mem', root, v) == Min(Missing(mem, root, v), Max(Parting(va, v), below))
  }

  // The walk of va already reaches a table on a level: nothing is missing down to it.
  lemma NothingFewer(mem: Memory, owner: map<nat, Owner>, root: nat, va: nat, t: nat, level: nat, path: Perm)
    requires WellFormed(mem, owner) && Serves(owner, root, 4, va)
    requires 1 <= level <= 4 && Reaches(mem, root, 4, va, FULL_ACCESS, t, level, path)
    ensures Fewer(mem, mem, root, va, level - 1)
  {
    hide Reaches, WellFormed, Missing, Parting;
    forall v: nat
      ensures Missing(mem, root, v) == Min(Missing(mem, root, v), Max(Parting(va, v), level - 1))
    {
      MissingShared(mem, owner, root, va, t, level, path, v);
    }
  }

  // Linking a fresh table under the absent entry the walk of va reaches.
  lemma LinkFewer(mem: Memory, owner: map<nat, Owner>, root: nat, va: nat, t: nat, level: nat, path: Perm, f: nat, user: bool)
    requires WellFormed(mem, owner) && Serves(owner, root, 4, va) && 2 <= level <= 4
    requires Reaches(mem, root, 4, va, FULL_ACCESS, t, level, path)
    requires t in mem && !Present(mem[t][Index(level, va)]) && f !in owner && f < 0x100_0000_0000
    ensures Fewer(mem, LinkTable(mem, t, Index(level, va), f, if user then 7 else 3), root, va, level - 2)
    ensures Missing(mem, root, va) == level - 1
  {
    hide Reaches, WellFormed, Parting, Missing;
    MissingReaches(mem, root, 4, va, FULL_ACCESS, t, level, path);
    MissingIs(mem, root, va);
    forall v: nat
      ensures var mem' := LinkTable(mem, t, Index(level, va), f, if user then 7 else 3);
        Missing(mem', root, v) == Min(Missing(mem, root, v), Max(Parting(va, v), level - 2))
    {
      LinkFewerAt(mem, owner, root, va, t, level, path, f, user, v);
    }
  }

  lemma MissingIs(mem: Memory, root: nat, va: nat)
    ensures Missing(mem, root, va) == MissingFrom(mem, root, 4, va)
  {
  }

  lemma LinkFewerAt(mem: Memory, owner: map<nat, Owner>, root: nat, va: nat, t: nat, level: nat, path: Perm, f: nat, user: bool, v: nat)
    requires WellFormed(mem, owner) && Serves(owner, root, 4, va) && 2 <= level <= 4
    requires Reaches(mem, root, 4, va, FULL_ACCESS, t, level, path)
    requires t in mem && !Present(mem[t][Index(level, va)]) && f !in owner && f < 0x100_0000_0000
    ensures var mem' := LinkTable(mem, t, Index(level, va), f, if user then 7 else 3);
      Missing(mem', root, v) == Min(Missing(mem, root, v), Max(Parting(va, v), level - 2))
  {
    hide Reaches, WellFormed, Parting, MissingFrom, LinkTable, Prefix, Index;
    var i := Index(level, va);
    var mem' := LinkTable(mem, t, i, f, if user then 7 else 3);
    ReachesKept(mem, mem, owner, root, 4, va, va, FULL_ACCESS, t, level, path);
    LinkAgrees(mem, owner, t, i, f, user);
    PrefixStep(level, va);
    PrefixesShared(va, v, level - 2);
    RootServes(owner, root, va, v);
    if Prefix(level - 1, v) == Prefix(level - 1, va) {
      SameStep(level, v, va);
      KeepsPresent(mem, owner, t, i, f, user);
      ReachesKept(mem, mem, owner, root, 4, va, v, FULL_ACCESS, t, level, path);
      ReachesKept(mem, mem', owner, root, 4, va, v, FULL_ACCESS, t, level, path);
      MissingReaches(mem, root, 4, v, FULL_ACCESS, t, level, path);
      MissingReaches(mem', root, 4, v, FULL_ACCESS, t, level, path);
      LinkedTableIsEmpty(mem, t, level, v, f, user);
    } else {
      MissingShared(mem, owner, root, va, t, level, path, v);
      TableIsPlaced(owner, t, level, va);
      MissingUnaffected(mem, mem', owner, t, i, root, 4, v);
    }
  }

  lemma TableIsPlaced(owner: map<nat, Owner>, t: nat, level: nat, va: nat)
    requires 1 <= level <= 4 && Serves(owner, t, level, va)
    ensures IsTable(owner, t) && owner[t].level == level && owner[t].prefix == Prefix(level, va)
  {
  }

  lemma LinkAgrees(mem: Memory, owner: map<nat, Owner>, t: nat, i: nat, f: nat, user: bool)
    requires t in mem && i < 512 && f !in owner && f < 0x100_0000_0000
    ensures AgreeExcept(mem, LinkTable(mem, t, i, f, if user then 7 else 3), owner, t, i)
  {
  }

  lemma KeepsPresent(mem: Memory, owner: map<nat, Owner>, t: nat, i: nat, f: nat, user: bool)
    requires t in mem && t in owner && i < 512 && f !in owner && f < 0x100_0000_0000 && !Present(mem[t][i])
    ensures KeepsAbove(mem, LinkTable(mem, t, i, f, if user then 7 else 3), owner, 0)
  {
  }

  // Below an absent entry everything is missing; below a fresh table one table less.
  lemma LinkedTableIsEmpty(mem: Memory, t: nat, level: nat, v: nat, f: nat, user: bool)
    requires 2 <= level <= 4 && t in mem && !Present(mem[t][Index(level, v)]) && f < 0x100_0000_0000 && f != t
    ensures var mem' := LinkTable(mem, t, Index(level, v), f, if user then 7 else 3);
      MissingFrom(mem, t, level, v) == level - 1 && MissingFrom(mem', t, level, v) == level - 2
  {
    LinkEntryBits(f, user);
    hide FrameOf, Present, Large, Index, EmptyTable, LinkTable, LinkEntry;
    var mem' := LinkTable(mem, t, Index(level, v), f, if user then 7 else 3);
    LinkedAt(mem, t, Index(level, v), f, if user then 7 else 3);
    EmptyTableLacks(mem', f, level - 1, v);
  }

  lemma LinkedAt(mem: Memory, t: nat, i: nat, f: nat, tableFlags: nat)
    requires t in mem && i < 512 && f < 0x100_0000_0000 && tableFlags < 8 && f != t
    ensures var mem' := LinkTable(mem, t, i, f, tableFlags);
      t in mem' && mem'[t][i] == LinkEntry(f, tableFlags) && f in mem' && mem'[f] == EmptyTable()
  {
    hide EmptyTable, LinkEntry;
  }

  lemma EmptyTableLacks(mem: Memory, f: nat, level: nat, v: nat)
    requires 1 <= level <= 3 && f in mem && mem[f] == EmptyTable()
    ensures MissingFrom(mem, f, level, v) == level - 1
  {
    assert mem[f][Index(level, v)] == 0;
  }

  // Writing a leaf at the table the walk of va reaches: with a small page nothing changes,
  // with a large one the addresses of its block lack no table any more.
  lemma LeafFewer(mem: Memory, owner: map<nat, Owner>, root: nat, va: nat, t: nat, level: nat, path: Perm, e: word, v: nat)
    requires WellFormed(mem, owner) && Serves(owner, root, 4, va)
    requires 1 <= level <= 2 && Reaches(mem, root, 4, va, FULL_ACCESS, t, level, path)
    requires level == 2 ==> Present(e) && Large(e)
    ensures t in mem
    ensures Missing(mem[t := mem[t][Index(level, va) := e]], root, v) ==
      if level == 2 && Prefix(1, v) == Prefix(1, va) then 0 else Missing(mem, root, v)
  {
    hide WellFormed, Prefix, Reaches, Present, Large;
    ReachesKept(mem, mem, owner, root, 4, va, va, FULL_ACCESS, t, level, path);
    ChildServes(mem, owner, t, level, va);
    var i := Index(level, va);
    var mem' := mem[t := mem[t][i := e]];
    TableIsPlaced(owner, t, level, va);
    PrefixStep(level, va);
    RootServes(owner, root, va, v);
    if Prefix(level - 1, v) == Prefix(level - 1, va) {
      SameStep(level, v, va);
      LeafKeepsAbove(mem, owner, t, level, i, e);
      ReachesKept(mem, mem, owner, root, 4, va, v, FULL_ACCESS, t, level, path);
      ReachesKept(mem, mem', owner, root, 4, va, v, FULL_ACCESS, t, level, path);
      MissingReaches(mem, root, 4, v, FULL_ACCESS, t, level, path);
      MissingReaches(mem', root, 4, v, FULL_ACCESS, t, level, path);
    } else {
      assert AgreeExcept(mem, mem', owner, t, i);
      MissingUnaffected(mem, mem', owner, t, i, root, 4, v);
    }
  }

  lemma LeafKeepsAbove(mem: Memory, owner: map<nat, Owner>, t: nat, level: nat, i: nat, e: word)
    requires t in mem && i < 512 && IsTable(owner, t) && owner[t].level == level
    ensures KeepsAbove(mem, mem[t := mem[t][i := e]], owner, level)
  {
  }

  // Fewer, composed from level to level.
  lemma FewerCompose(m0: Memory, m1: Memory, m2: Memory, root: nat, va: nat, below: nat)
    requires Fewer(m0, m1, root, va, below + 1) && Fewer(m1, m2, root, va, below)
    ensures Fewer(m0, m2, root, va, below)
  {
    hide Missing, Parting;
    forall v: nat
      ensures Missing(m2, root, v) == Min(Missing(m0, root, v), Max(Parting(va, v), below))
    {
      assert Missing(m1, root, v) == Min(Missing(m0, root, v), Max(Parting(va, v), below + 1));
      assert Missing(m2, root, v) == Min(Missing(m1, root, v), Max(Parting(va, v), below));
    }
  }

  // ---- Ranges of addresses ----

  // The tables below the root that the walk of v shares with no address of [a, b).
  function Touched(a: nat, b: nat, v: nat): (n: nat)
    ensures n <= 3
  {
    if a >= b then 3 else if v < a then Parting(a, v) else if v < b then 0 else Parting(b - 1, v)
  }

  lemma PrefixMonotone(level: nat, a: nat, b: nat)
    requires level <= 4 && Canonical(a) && Canonical(b) && a <= b
    ensures Prefix(level, a) <= Prefix(level, b)
  {
    LowBitsMonotone(a, b);
    DivMonotone(a % 0x1_0000_0000_0000, b % 0x1_0000_0000_0000, Span(level + 1));
  }

  lemma LowBitsMonotone(a: nat, b: nat)
    requires Canonical(a) && Canonical(b) && a <= b
    ensures a % 0x1_0000_0000_0000 <= b % 0x1_0000_0000_0000
  {
    LowBits(a);
    LowBits(b);
  }

  lemma LowBits(a: nat)
    requires Canonical(a)
    ensures a % 0x1_0000_0000_0000 == if a < 0x8000_0000_0000 then a else a - 0xFFFF_0000_0000_0000
  {
  }

  lemma DivMonotone(x: nat, y: nat, s: nat)
    requires s > 0 && x <= y
    ensures x / s <= y / s
  {
    if y / s < x / s {
      DivGap(x, y, s);
    }
  }

  lemma DivGap(x: nat, y: nat, s: nat)
    requires s > 0 && y / s < x / s
    ensures y < x
  {
    var p, q := x / s, y / s;
    assert p * s <= x && y < q * s + s;
    MulGap(p, q, s);
  }

  lemma MulGap(p: nat, q: nat, s: nat)
    requires q < p
    ensures q * s + s <= p * s
  {
    MulDistributes(q, 1, s);
    MulDistributes(q + 1, p - q - 1, s);
  }

  // What lies between two addresses shares at least as much with each as they do.
  lemma PartingBetween(a: nat, b: nat, c: nat)
    requires Canonical(a) && Canonical(b) && Canonical(c) && a <= b <= c
    ensures Parting(b, c) <= Parting(a, c) && Parting(a, b) <= Parting(a, c)
    ensures Parting(a, c) == Parting(c, a) && Parting(b, c) == Parting(c, b)
  {
    hide Prefix, Canonical;
    forall l: nat | 1 <= l <= 3
      ensures Prefix(l, a) <= Prefix(l, b) <= Prefix(l, c)
    {
      PrefixMonotone(l, a, b);
      PrefixMonotone(l, b, c);
    }
    PrefixesNest(a, b);
    PrefixesNest(b, c);
    PrefixesNest(a, c);
  }

  lemma PrefixesNest(a: nat, b: nat)
    ensures Prefix(1, a) == Prefix(1, b) ==> Prefix(2, a) == Prefix(2, b)
    ensures Prefix(2, a) == Prefix(2, b) ==> Prefix(3, a) == Prefix(3, b)
  {
    hide Prefix;
    if Prefix(1, a) == Prefix(1, b) {
      SamePrefixAbove(a, b, 1, 2);
    }
    if Prefix(2, a) == Prefix(2, b) {
      SamePrefixAbove(a, b, 2, 3);
    }
  }

  // A block [c, d) whose addresses share all tables extends a touched range.
  lemma TouchedGrows(a: nat, c: nat, d: nat, v: nat)
    requires a <= c < d && Canonical(a) && Canonical(c) && Canonical(d - 1) && Canonical(v)
    requires Parting(c, d - 1) == 0 && Prefix(1, c) == Prefix(1, d - 1) && (a < c ==> Canonical(c - 1))
    ensures Touched(a, d, v) == if c <= v < d then 0 else Min(Touched(a, c, v), Parting(c, v))
  {
    hide Prefix, Canonical, Parting;
    SameParting(c, d - 1, v);
    if v < a {
      PartingBetween(v, a, c);
      PartingBetween(v, v, a);
    } else if v < c {
    } else if d <= v && a < c {
      PartingBetween(c - 1, c, v);
    }
  }

  lemma SameParting(a: nat, b: nat, v: nat)
    requires Prefix(1, a) == Prefix(1, b)
    ensures Parting(a, v) == Parting(b, v)
  {
    PrefixesNest(a, b);
    hide Prefix;
  }

  // After the walks of [a, b) have their tables: what every address lacks.
  ghost predicate LackingAfter(lack: nat -> nat, mem: Memory, root: nat, a: nat, b: nat) {
    forall v: nat :: Canonical(v) ==> Missing(mem, root, v) == Min(lack(v), Touched(a, b, v))
  }

  // The tables every address lacks, as a function.
  function Lacking(mem: Memory, root: nat): nat -> nat {
    (v: nat) => Missing(mem, root, v)
  }

  // The addresses of a page share all their tables.
  lemma OnePage(virt: nat, v: nat)
    requires virt % 4096 == 0 && virt <= v < virt + 4096 && Canonical(v) && Canonical(virt)
    ensures Parting(virt, v) == 0
  {
    SameBlockOfPage(virt, v);
    CanonicalSlot(2, v, virt);
  }

  lemma SameBlockOfPage(virt: nat, v: nat)
    requires virt % 4096 == 0 && virt <= v < virt + 4096
    ensures v / Span(2) == virt / Span(2)
  {
    var page := virt / 4096;
    assert virt == 4096 * page && 4096 * page <= v < 4096 * page + 4096;
    OnePageOneBlock(page, virt);
    OnePageOneBlock(page, v);
  }

  lemma OnePageOneBlock(page: nat, x: nat)
    requires 4096 * page <= x < 4096 * page + 4096
    ensures x / Span(2) == page / 512
  {
    assert page == page / 512 * 512 + page % 512;
    assert Span(2) == 0x20_0000;
    DivUnique(x, 0x20_0000, page / 512, x - page / 512 * 0x20_0000);
  }
}
