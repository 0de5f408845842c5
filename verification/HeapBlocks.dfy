// The kernel heap of src/kernel/memory/heap.c as block headers and a free list: what
// taking, splitting, releasing and growing do to them.
module HeapBlocks {
  import opened Wrappers
  import opened Lists

  const HEADER_SIZE: nat := 32

  datatype Block = Block(size: nat, isFree: bool)
  type Blocks = map<nat, Block>

  // Block headers by address, the free list in order, and the end of the heap.
  datatype State = State(blocks: Blocks, free: seq<nat>, end: nat)

  function BlockEnd(blocks: Blocks, b: nat): nat
    requires b in blocks
  {
    b + HEADER_SIZE + blocks[b].size
  }

  function Round16(size: nat): (r: nat)
    ensures size <= r < size + 16 && r % 16 == 0
  {
    (size + 15) / 16 * 16
  }

  ghost predicate BlockOk(blocks: Blocks, start: nat, end: nat, b: nat)
    requires b in blocks
  {
    && start <= b && BlockEnd(blocks, b) <= end
    && (BlockEnd(blocks, b) == end || BlockEnd(blocks, b) in blocks)
  }

  // The blocks tile [start, end): each ends where the next begins or at the end, the
  // first begins at start, and no two overlap.
  ghost predicate Tiled(blocks: Blocks, start: nat, end: nat) {
    && start <= end
    && (start == end || start in blocks)
    && (forall b :: b in blocks ==> BlockOk(blocks, start, end, b))
    && (forall b, c :: b in blocks && c in blocks && b < c ==> BlockEnd(blocks, b) <= c)
  }

  // Blocks start and end on 16-byte boundaries and hold at least 16 bytes.
  predicate AlignedBlock(blocks: Blocks, b: nat)
    requires b in blocks
  {
    b % 16 == 0 && blocks[b].size % 16 == 0 && blocks[b].size >= 16
  }

  ghost predicate Aligned(blocks: Blocks) {
    forall b :: b in blocks ==> AlignedBlock(blocks, b)
  }

  ghost predicate FreeAgrees(blocks: Blocks, free: seq<nat>) {
    && Distinct(free)
    && forall b :: b in free <==> b in blocks && blocks[b].isFree
  }

  ghost predicate HeapOk(s: State, start: nat) {
    s.end % 16 == 0 && Tiled(s.blocks, start, s.end) && Aligned(s.blocks) && FreeAgrees(s.blocks, s.free)
  }

  // The first block of the list, in list order, that holds size bytes.
  function FirstFit(blocks: Blocks, free: seq<nat>, size: nat): (r: Option<nat>)
    requires forall b :: b in free ==> b in blocks
    ensures r.None? <==> forall i :: 0 <= i < |free| ==> blocks[free[i]].size < size
    ensures r.Some? ==> r.value < |free| && blocks[free[r.value]].size >= size
    ensures r.Some? ==> forall i :: 0 <= i < r.value ==> blocks[free[i]].size < size
  {
    if free == [] then None
    else if blocks[free[0]].size >= size then Some(0)
    else match FirstFit(blocks, free[1..], size)
      case None => None
      case Some(i) => Some(i + 1)
  }

  lemma FirstFitIs(blocks: Blocks, free: seq<nat>, size: nat, i: nat)
    requires forall b :: b in free ==> b in blocks
    requires i <= |free| && forall j :: 0 <= j < i ==> free[j] in free && blocks[free[j]].size < size
    ensures i == |free| ==> FirstFit(blocks, free, size) == None
    ensures i < |free| && free[i] in free && blocks[free[i]].size >= size ==> FirstFit(blocks, free, size) == Some(i)
  {
  }

  // A block is worth splitting when what is left can hold a header and 16 bytes.
  predicate Splits(blocks: Blocks, b: nat, size: nat)
    requires b in blocks
  {
    blocks[b].size >= size + HEADER_SIZE + 16
  }

  function SplitBlocks(blocks: Blocks, b: nat, size: nat): Blocks
    requires b in blocks && Splits(blocks, b, size)
  {
    blocks[b + HEADER_SIZE + size := Block(blocks[b].size - size - HEADER_SIZE, true)][b := Block(size, false)]
  }

  // Taking the i-th free block for size bytes.
  function Take(s: State, i: nat, size: nat): State
    requires i < |s.free| && s.free[i] in s.blocks
  {
    var b := s.free[i];
    if Splits(s.blocks, b, size) then
      State(SplitBlocks(s.blocks, b, size), [b + HEADER_SIZE + size] + Without(s.free, i), s.end)
    else
      State(s.blocks[b := s.blocks[b].(isFree := false)], Without(s.free, i), s.end)
  }

  // Cutting a live block down to size bytes.
  function Shrink(s: State, b: nat, size: nat): State
    requires b in s.blocks
  {
    if Splits(s.blocks, b, size) then
      State(SplitBlocks(s.blocks, b, size), [b + HEADER_SIZE + size] + s.free, s.end)
    else s
  }

  function Release(s: State, b: nat): State
    requires b in s.blocks
  {
    if s.blocks[b].isFree then s else State(s.blocks[b := s.blocks[b].(isFree := true)], [b] + s.free, s.end)
  }

  // Appending one free block made of whole new bytes.
  function Expand(s: State, bytes: nat): State
    requires bytes >= HEADER_SIZE
  {
    State(s.blocks[s.end := Block(bytes - HEADER_SIZE, true)], s.free + [s.end], s.end + bytes)
  }

  lemma SplitKeepsTiling(blocks: Blocks, start: nat, end: nat, b: nat, size: nat)
    requires Tiled(blocks, start, end) && b in blocks && Splits(blocks, b, size)
    ensures Tiled(SplitBlocks(blocks, b, size), start, end)
    ensures b + HEADER_SIZE + size !in blocks
  {
    hide BlockOk, BlockEnd, SplitBlocks, Splits, HEADER_SIZE;
    var blocks' := SplitBlocks(blocks, b, size);
    RemainderIsNew(blocks, start, end, b, size);
    SplitMembers(blocks, b, size);
    forall c | c in blocks'
      ensures BlockOk(blocks', start, end, c)
    {
      SplitBlockOk(blocks, start, end, b, size, c);
    }
    forall c, d | c in blocks' && d in blocks' && c < d
      ensures BlockEnd(blocks', c) <= d
    {
      SplitPair(blocks, start, end, b, size, c, d);
    }
  }

  lemma SplitMembers(blocks: Blocks, b: nat, size: nat)
    requires b in blocks && Splits(blocks, b, size)
    ensures forall c :: c in SplitBlocks(blocks, b, size) <==> c in blocks || c == b + HEADER_SIZE + size
    ensures forall c :: c in blocks && c != b && c != b + HEADER_SIZE + size ==>
      SplitBlocks(blocks, b, size)[c] == blocks[c]
    ensures BlockEnd(SplitBlocks(blocks, b, size), b) == b + HEADER_SIZE + size
    ensures BlockEnd(SplitBlocks(blocks, b, size), b + HEADER_SIZE + size) == BlockEnd(blocks, b)
    ensures b < b + HEADER_SIZE + size < BlockEnd(blocks, b)
  {
  }

  lemma SameEnd(blocks: Blocks, blocks': Blocks, c: nat)
    requires c in blocks && c in blocks' && blocks'[c] == blocks[c]
    ensures BlockEnd(blocks', c) == BlockEnd(blocks, c)
  {
  }

  lemma SplitBlockOk(blocks: Blocks, start: nat, end: nat, b: nat, size: nat, c: nat)
    requires Tiled(blocks, start, end) && b in blocks && Splits(blocks, b, size) && c in SplitBlocks(blocks, b, size)
    ensures BlockOk(SplitBlocks(blocks, b, size), start, end, c)
  {
    hide *;
    var r, blocks' := b + HEADER_SIZE + size, SplitBlocks(blocks, b, size);
    RemainderIsNew(blocks, start, end, b, size);
    SplitMembers(blocks, b, size);
    BlockIsOk(blocks, start, end, if c == r then b else c);
    if c != r && c != b {
      SameEnd(blocks, blocks', c);
    }
    OkIsBlock(blocks', start, end, c);
  }

  lemma BlockIsOk(blocks: Blocks, start: nat, end: nat, b: nat)
    requires Tiled(blocks, start, end) && b in blocks
    ensures start <= b < BlockEnd(blocks, b) <= end
    ensures BlockEnd(blocks, b) == end || BlockEnd(blocks, b) in blocks
  {
    assert BlockOk(blocks, start, end, b);
  }

  lemma OkIsBlock(blocks: Blocks, start: nat, end: nat, b: nat)
    requires b in blocks && start <= b && BlockEnd(blocks, b) <= end
    requires BlockEnd(blocks, b) == end || BlockEnd(blocks, b) in blocks
    ensures BlockOk(blocks, start, end, b)
  {
  }

  // Of two different blocks one ends before the other begins.
  lemma Beside(blocks: Blocks, start: nat, end: nat, b: nat, c: nat)
    requires Tiled(blocks, start, end) && b in blocks && c in blocks && b != c
    ensures BlockEnd(blocks, b) <= c || BlockEnd(blocks, c) <= b
  {
  }

  lemma RemainderIsNew(blocks: Blocks, start: nat, end: nat, b: nat, size: nat)
    requires Tiled(blocks, start, end) && b in blocks && Splits(blocks, b, size)
    ensures b + HEADER_SIZE + size !in blocks
  {
  }

  lemma SplitPair(blocks: Blocks, start: nat, end: nat, b: nat, size: nat, c: nat, d: nat)
    requires Tiled(blocks, start, end) && b in blocks && Splits(blocks, b, size)
    requires c in SplitBlocks(blocks, b, size) && d in SplitBlocks(blocks, b, size) && c < d
    ensures BlockEnd(SplitBlocks(blocks, b, size), c) <= d
  {
    hide *;
    var r, blocks' := b + HEADER_SIZE + size, SplitBlocks(blocks, b, size);
    RemainderIsNew(blocks, start, end, b, size);
    SplitMembers(blocks, b, size);
    var was, next := if c == r then b else c, if d == r then b else d;
    BlockIsOk(blocks, start, end, was);
    BlockIsOk(blocks, start, end, next);
    if was != next {
      Beside(blocks, start, end, was, next);
    }
    if c != r && c != b {
      SameEnd(blocks, blocks', c);
    }
  }

  lemma SplitKeepsAligned(blocks: Blocks, b: nat, size: nat)
    requires Aligned(blocks) && b in blocks && Splits(blocks, b, size) && size % 16 == 0 && size >= 16
    ensures Aligned(SplitBlocks(blocks, b, size))
  {
    var r := b + HEADER_SIZE + size;
    var blocks' := SplitBlocks(blocks, b, size);
    assert AlignedBlock(blocks, b);
    Multiple16(b, size);
    Multiple16(blocks[b].size - size - HEADER_SIZE, size);
    forall c | c in blocks'
      ensures AlignedBlock(blocks', c)
    {
      assert c in blocks ==> AlignedBlock(blocks, c);
    }
  }

  lemma Multiple16(a: nat, b: nat)
    ensures b % 16 == 0 ==> (a % 16 == 0 <==> (a + HEADER_SIZE + b) % 16 == 0)
  {
    if b % 16 == 0 {
      assert a + HEADER_SIZE + b == a + 16 * (b / 16 + 2);
      AddMultiple16(a, b / 16 + 2);
    }
  }

  lemma AddMultiple16(a: nat, k: nat)
    ensures (a + 16 * k) % 16 == a % 16
  {
  }

  lemma FlagKeepsTiling(blocks: Blocks, start: nat, end: nat, b: nat, isFree: bool)
    requires Tiled(blocks, start, end) && b in blocks
    ensures Tiled(blocks[b := blocks[b].(isFree := isFree)], start, end)
  {
    var blocks' := blocks[b := blocks[b].(isFree := isFree)];
    forall c | c in blocks'
      ensures BlockOk(blocks', start, end, c) && BlockEnd(blocks', c) == BlockEnd(blocks, c)
    {
      assert BlockOk(blocks, start, end, c);
    }
  }

  lemma FlagKeepsAligned(blocks: Blocks, b: nat, isFree: bool)
    requires Aligned(blocks) && b in blocks
    ensures Aligned(blocks[b := blocks[b].(isFree := isFree)])
  {
    var blocks' := blocks[b := blocks[b].(isFree := isFree)];
    forall c | c in blocks'
      ensures AlignedBlock(blocks', c)
    {
      assert AlignedBlock(blocks, c);
    }
  }

  lemma ExpandKeepsTiling(blocks: Blocks, start: nat, end: nat, bytes: nat)
    requires Tiled(blocks, start, end) && bytes >= HEADER_SIZE + 16
    ensures Tiled(blocks[end := Block(bytes - HEADER_SIZE, true)], start, end + bytes)
    ensures end !in blocks
  {
    hide BlockOk, BlockEnd;
    var blocks' := blocks[end := Block(bytes - HEADER_SIZE, true)];
    EndIsNew(blocks, start, end);
    NewEnd(blocks, end, bytes);
    forall c | c in blocks'
      ensures BlockOk(blocks', start, end + bytes, c) && BlockEnd(blocks', c) <= if c == end then end + bytes else end
    {
      if c != end {
        BlockIsOk(blocks, start, end, c);
        SameEnd(blocks, blocks', c);
      }
      OkIsBlock(blocks', start, end + bytes, c);
    }
    forall c, d | c in blocks' && d in blocks' && c < d
      ensures BlockEnd(blocks', c) <= d
    {
      ExpandedPair(blocks, start, end, bytes, c, d);
    }
  }

  lemma NewEnd(blocks: Blocks, end: nat, bytes: nat)
    requires bytes >= HEADER_SIZE
    ensures BlockEnd(blocks[end := Block(bytes - HEADER_SIZE, true)], end) == end + bytes
  {
  }

  lemma ExpandedPair(blocks: Blocks, start: nat, end: nat, bytes: nat, c: nat, d: nat)
    requires Tiled(blocks, start, end) && bytes >= HEADER_SIZE + 16 && end !in blocks
    requires (c in blocks || c == end) && (d in blocks || d == end) && c < d
    ensures BlockEnd(blocks[end := Block(bytes - HEADER_SIZE, true)], c) <= d
  {
    hide BlockOk, BlockEnd;
    if d in blocks {
      BlockIsOk(blocks, start, end, d);
    }
    if c in blocks {
      BlockIsOk(blocks, start, end, c);
      SameEnd(blocks, blocks[end := Block(bytes - HEADER_SIZE, true)], c);
    }
  }

  lemma EndIsNew(blocks: Blocks, start: nat, end: nat)
    requires Tiled(blocks, start, end)
    ensures end !in blocks
  {
    assert end in blocks ==> BlockOk(blocks, start, end, end);
  }

  lemma ExpandKeepsAligned(blocks: Blocks, end: nat, bytes: nat)
    requires Aligned(blocks) && end % 16 == 0 && bytes % 16 == 0 && bytes >= HEADER_SIZE + 16
    ensures Aligned(blocks[end := Block(bytes - HEADER_SIZE, true)])
  {
    var blocks' := blocks[end := Block(bytes - HEADER_SIZE, true)];
    Multiple16(bytes - HEADER_SIZE, 0);
    forall c | c in blocks'
      ensures AlignedBlock(blocks', c)
    {
      assert c in blocks && c != end ==> AlignedBlock(blocks, c);
    }
  }

  lemma WithoutMembers(free: seq<nat>, i: nat)
    requires Distinct(free) && i < |free|
    ensures Distinct(Without(free, i))
    ensures forall b :: b in Without(free, i) <==> b in free && b != free[i]
  {
    DistinctWithout(free, i);
    var rest := Without(free, i);
    forall b | b in free && b != free[i]
      ensures b in rest
    {
      var j :| 0 <= j < |free| && free[j] == b;
      assert rest[if j < i then j else j - 1] == b;
    }
    forall j | 0 <= j < |rest|
      ensures rest[j] in free && rest[j] != free[i]
    {
      assert rest[j] == free[if j < i then j else j + 1];
    }
  }

  lemma FrontMembers(free: seq<nat>, b: nat)
    requires Distinct(free) && b !in free
    ensures Distinct([b] + free) && forall c :: c in [b] + free <==> c == b || c in free
  {
  }

  lemma BackMembers(free: seq<nat>, b: nat)
    requires Distinct(free) && b !in free
    ensures Distinct(free + [b]) && forall c :: c in free + [b] <==> c == b || c in free
  {
  }

  lemma TakeKeepsHeap(s: State, start: nat, i: nat, size: nat)
    requires HeapOk(s, start) && i < |s.free| && size % 16 == 0 && size >= 16
    requires s.free[i] in s.blocks && s.blocks[s.free[i]].size >= size
    ensures HeapOk(Take(s, i, size), start)
  {
    hide Tiled, Aligned, Distinct;
    var b := s.free[i];
    WithoutMembers(s.free, i);
    if Splits(s.blocks, b, size) {
      SplitKeepsTiling(s.blocks, start, s.end, b, size);
      SplitKeepsAligned(s.blocks, b, size);
      FrontMembers(Without(s.free, i), b + HEADER_SIZE + size);
    } else {
      FlagKeepsTiling(s.blocks, start, s.end, b, false);
      FlagKeepsAligned(s.blocks, b, false);
    }
  }

  lemma ShrinkKeepsHeap(s: State, start: nat, b: nat, size: nat)
    requires HeapOk(s, start) && b in s.blocks && !s.blocks[b].isFree && size % 16 == 0 && size >= 16
    ensures HeapOk(Shrink(s, b, size), start)
  {
    hide Tiled, Aligned, Distinct;
    if Splits(s.blocks, b, size) {
      SplitKeepsTiling(s.blocks, start, s.end, b, size);
      SplitKeepsAligned(s.blocks, b, size);
      FrontMembers(s.free, b + HEADER_SIZE + size);
    }
  }

  lemma ReleaseKeepsHeap(s: State, start: nat, b: nat)
    requires HeapOk(s, start) && b in s.blocks
    ensures HeapOk(Release(s, b), start)
  {
    hide Tiled, Aligned, Distinct;
    if !s.blocks[b].isFree {
      FlagKeepsTiling(s.blocks, start, s.end, b, true);
      FlagKeepsAligned(s.blocks, b, true);
      FrontMembers(s.free, b);
    }
  }

  lemma ExpandKeepsHeap(s: State, start: nat, bytes: nat)
    requires HeapOk(s, start) && bytes % 16 == 0 && bytes >= HEADER_SIZE + 16
    ensures HeapOk(Expand(s, bytes), start)
  {
    hide Tiled, Aligned, Distinct;
    ExpandKeepsTiling(s.blocks, start, s.end, bytes);
    ExpandKeepsAligned(s.blocks, s.end, bytes);
    BackMembers(s.free, s.end);
  }

  // Tiling, spelled out: every address of the heap lies in exactly one block, and a
  // block holds no address outside the heap.
  lemma EveryAddressInOneBlock(blocks: Blocks, start: nat, end: nat, x: nat)
    requires Tiled(blocks, start, end)
    ensures start <= x < end <==> exists b :: b in blocks && b <= x < BlockEnd(blocks, b)
    ensures forall b, c :: b in blocks && c in blocks && b <= x < BlockEnd(blocks, b) && c <= x < BlockEnd(blocks, c) ==> b == c
  {
    if start <= x < end {
      var b := FindBlock(blocks, start, end, start, x);
    }
    forall b | b in blocks && b <= x < BlockEnd(blocks, b)
      ensures start <= x < end
    {
      assert BlockOk(blocks, start, end, b);
    }
  }

  lemma {:induction false} FindBlock(blocks: Blocks, start: nat, end: nat, from: nat, x: nat) returns (b: nat)
    requires Tiled(blocks, start, end) && from in blocks && from <= x < end
    ensures b in blocks && b <= x < BlockEnd(blocks, b)
    decreases end - from
  {
    assert BlockOk(blocks, start, end, from);
    if x < BlockEnd(blocks, from) {
      b := from;
    } else {
      b := FindBlock(blocks, start, end, BlockEnd(blocks, from), x);
    }
  }

  // Payloads of different blocks are disjoint, and clear of every header.
  lemma PayloadsAreApart(blocks: Blocks, start: nat, end: nat, b: nat, c: nat, x: nat)
    requires Tiled(blocks, start, end) && b in blocks && c in blocks && b != c
    requires b + HEADER_SIZE <= x < BlockEnd(blocks, b)
    ensures !(c <= x < BlockEnd(blocks, c))
  {
  }

  // A repeated release before reuse does nothing.
  lemma DoubleReleaseIsNoOp(s: State, b: nat)
    requires b in s.blocks
    ensures Release(Release(s, b), b) == Release(s, b)
  {
  }

  // No operation removes a block boundary.
  ghost predicate KeepsBoundaries(s: State, s': State) {
    s.blocks.Keys <= s'.blocks.Keys
  }

  // Live blocks other than b keep their header.
  ghost predicate KeepsLive(s: State, s': State, b: nat) {
    forall c :: c in s.blocks && !s.blocks[c].isFree && c != b ==> c in s'.blocks && s'.blocks[c] == s.blocks[c]
  }

  // What taking does for the caller: the block was free and is live, large enough but
  // wasting less than a header and 16 bytes; all other live blocks are untouched.
  lemma TakeIsExact(s: State, start: nat, i: nat, size: nat)
    requires HeapOk(s, start) && i < |s.free| && size % 16 == 0 && size >= 16
    requires s.free[i] in s.blocks && s.blocks[s.free[i]].size >= size
    ensures var b, s' := s.free[i], Take(s, i, size);
      && b in s'.blocks && !s'.blocks[b].isFree && s.blocks[b].isFree
      && size <= s'.blocks[b].size < size + HEADER_SIZE + 16
      && KeepsBoundaries(s, s') && KeepsLive(s, s', b) && b % 16 == 0
  {
    hide Tiled;
    assert AlignedBlock(s.blocks, s.free[i]);
    if Splits(s.blocks, s.free[i], size) {
      RemainderIsNew(s.blocks, start, s.end, s.free[i], size);
    }
  }

  // ---- What the operations mean for the requests that follow ----

  // A block released last is the first one looked at, so a request it can hold gets it;
  // the others keep their order.
  lemma LastFreedIsNext(s: State, start: nat, b: nat, n: nat)
    requires HeapOk(s, start) && b in s.blocks && !s.blocks[b].isFree && n <= s.blocks[b].size
    ensures var s' := Release(s, b);
      && s'.free[0] == b && s'.free[1..] == s.free
      && (forall c :: c in s'.free ==> c in s'.blocks)
      && FirstFit(s'.blocks, s'.free, n) == Some(0)
  {
    ReleaseKeepsHeap(s, start, b);
  }

  // What taking leaves of a block is the next one looked at; the others keep their order.
  lemma RemainderIsNext(s: State, start: nat, i: nat, size: nat, n: nat)
    requires HeapOk(s, start) && i < |s.free| && size % 16 == 0 && size >= 16
    requires s.free[i] in s.blocks && s.blocks[s.free[i]].size >= size
    ensures var b, s' := s.free[i], Take(s, i, size);
      if s.blocks[b].size >= size + 48 then
        && s'.free[0] == b + 32 + size && s'.free[1..] == s.free[..i] + s.free[i + 1..]
        && (forall c :: c in s'.free ==> c in s'.blocks)
        && s'.blocks[b].size == size && s'.blocks[b + 32 + size].size == s.blocks[b].size - size - 32
        && (n <= s.blocks[b].size - size - 32 ==> FirstFit(s'.blocks, s'.free, n) == Some(0))
      else s'.free == s.free[..i] + s.free[i + 1..] && s'.blocks[b].size == s.blocks[b].size
  {
    TakeKeepsHeap(s, start, i, size);
    FreeListed(Take(s, i, size), start);
    hide HeapOk;
  }

  lemma FreeListed(s: State, start: nat)
    requires HeapOk(s, start)
    ensures forall c :: c in s.free ==> c in s.blocks
  {
  }

  // Cutting a block leaves it less than 48 bytes too large; what is cut off is a free
  // block, the next one looked at.
  lemma ShrinkMeans(s: State, start: nat, b: nat, size: nat)
    requires HeapOk(s, start) && b in s.blocks && !s.blocks[b].isFree && size % 16 == 0 && 16 <= size <= s.blocks[b].size
    ensures var s' := Shrink(s, b, size);
      && b in s'.blocks && !s'.blocks[b].isFree && size <= s'.blocks[b].size < size + 48
      && (s.blocks[b].size < size + 48 ==> s' == s)
      && (s.blocks[b].size >= size + 48 ==>
            && s'.free == [b + 32 + size] + s.free && s'.blocks[b].size == size
            && b + 32 + size in s'.blocks && s'.blocks[b + 32 + size] == Block(s.blocks[b].size - size - 32, true))
  {
    hide HeapOk;
  }
}
