// The physical page allocator of src/kernel/memory/pmm.c: a bitmap with one bit
// per page, read as bytes by the bit primitives and as 64-bit words by the
// single-page search, with a rotating hint.
module Pmm {
  import opened Wrappers
  import opened Words

  const PAGE_SIZE: nat := 4096
  const FULL_WORD: nat := 0xFFFF_FFFF_FFFF_FFFF

  predicate PageBit(bm: seq<byte>, p: nat)
    requires p < 8 * |bm|
  {
    Bit(bm[p / 8], p % 8)
  }

  // Size in bytes of the bitmap for a number of pages.
  function BitmapBytes(total: nat): (r: nat)
    ensures total <= r / 8 * 64 <= 8 * r
  {
    var words := (total + 63) / 64;
    assert AlignUp(total, 64) == words * 64;
    assert words * 64 / 8 == words * 8;
    AlignUp(total, 64) / 8 + if total % 8 != 0 then 1 else 0
  }

  ghost predicate PaddingSet(bm: seq<byte>, total: nat) {
    forall p :: total <= p < 8 * |bm| ==> PageBit(bm, p)
  }

  // The abstract state: which pages are in use.
  function UsedMap(bm: seq<byte>, total: nat): (u: seq<bool>)
    requires total <= 8 * |bm|
    ensures |u| == total
    ensures forall p :: 0 <= p < total ==> u[p] == PageBit(bm, p)
  {
    seq(total, p requires 0 <= p < total => PageBit(bm, p))
  }

  function SetRange(u: seq<bool>, lo: nat, hi: nat, v: bool): (r: seq<bool>)
    requires lo <= hi <= |u|
    ensures |r| == |u|
    ensures forall p :: 0 <= p < |u| ==> r[p] == if lo <= p < hi then v else u[p]
  {
    seq(|u|, p requires 0 <= p < |u| => if lo <= p < hi then v else u[p])
  }

  // The lowest free page of [lo, hi).
  function FirstFree(u: seq<bool>, lo: nat, hi: nat): (r: Option<nat>)
    requires lo <= hi <= |u|
    ensures r.None? <==> forall q :: lo <= q < hi ==> u[q]
    ensures r.Some? ==> lo <= r.value < hi && !u[r.value] && forall q :: lo <= q < r.value ==> u[q]
    decreases hi - lo
  {
    if lo == hi then None else if !u[lo] then Some(lo) else FirstFree(u, lo + 1, hi)
  }

  predicate FreeRun(u: seq<bool>, s: nat, n: nat) {
    s + n <= |u| && forall q :: s <= q < s + n ==> !u[q]
  }

  // The lowest start of n free pages lying inside [lo, hi).
  function FirstRun(u: seq<bool>, n: nat, lo: nat, hi: nat): (r: Option<nat>)
    requires hi <= |u|
    ensures r.None? <==> forall s :: lo <= s && s + n <= hi ==> !FreeRun(u, s, n)
    ensures r.Some? ==> lo <= r.value && r.value + n <= hi && FreeRun(u, r.value, n)
    ensures r.Some? ==> forall s :: lo <= s < r.value ==> !FreeRun(u, s, n)
    decreases hi - lo
  {
    if lo + n > hi then None
    else if FreeRun(u, lo, n) then Some(lo)
    else FirstRun(u, n, lo + 1, hi)
  }

  // Where the single-page search starts for a hint counted in 64-page words.
  function SearchStart(hint: nat, total: nat): (r: nat)
    ensures r <= total
  {
    if hint * 64 < total then hint * 64 else 0
  }

  // The number of free pages.
  function FreeCount(u: seq<bool>): nat {
    if u == [] then 0 else FreeCount(u[..|u| - 1]) + if u[|u| - 1] then 0 else 1
  }

  lemma {:induction false} TakingOne(u: seq<bool>, p: nat)
    requires p < |u| && !u[p]
    ensures FreeCount(u[p := true]) + 1 == FreeCount(u)
  {
    var last, rest := |u| - 1, u[..|u| - 1];
    if p < last {
      TakingOne(rest, p);
      assert u[p := true][..last] == rest[p := true];
    } else {
      assert u[p := true][..last] == rest;
    }
  }

  lemma {:induction false} NoneFree(u: seq<bool>)
    ensures FreeCount(u) == 0 <==> forall q :: 0 <= q < |u| ==> u[q]
  {
    if u != [] {
      var rest := u[..|u| - 1];
      NoneFree(rest);
      assert forall q :: 0 <= q < |rest| ==> rest[q] == u[q];
    }
  }

  // The page the single-page search settles on.
  function ChoosePage(u: seq<bool>, hint: nat): Option<nat> {
    var lo := SearchStart(hint, |u|);
    match FirstFree(u, lo, |u|)
    case Some(p) => Some(p)
    case None => FirstFree(u, 0, lo)
  }

  function ChooseRun(u: seq<bool>, n: nat, hint: nat): Option<nat> {
    var lo := SearchStart(hint, |u|);
    match FirstRun(u, n, lo, |u|)
    case Some(s) => Some(s)
    case None => FirstRun(u, n, 0, lo)
  }

  class Pmm {
    var initialized: bool
    var bitmap: array<byte>
    var totalPages: nat
    var lastFreeIndex: nat
    var bootloaderCr3: nat

    ghost predicate Valid()
      reads this, bitmap
    {
      && bitmap.Length == BitmapBytes(totalPages)
      && PaddingSet(bitmap[..], totalPages)
    }

    ghost function Used(): (u: seq<bool>)
      reads this, bitmap
      requires Valid()
      ensures |u| == totalPages
    {
      UsedMap(bitmap[..], totalPages)
    }

    method SetPage(page: nat)
      requires page < 8 * bitmap.Length
      modifies bitmap
      ensures forall q :: 0 <= q < 8 * bitmap.Length ==>
        PageBit(bitmap[..], q) == (q == page || PageBit(old(bitmap[..]), q))
    {
      WordLimitIsPow2();
      BitUpdatesFit(bitmap[page / 8], page % 8, 8);
      bitmap[page / 8] := SetBit(bitmap[page / 8], page % 8);
      forall q | 0 <= q < 8 * bitmap.Length
        ensures PageBit(bitmap[..], q) == (q == page || PageBit(old(bitmap[..]), q))
      {
        SetBitAt(old(bitmap[page / 8]), page % 8, q % 8);
      }
    }

    method ClearPage(page: nat)
      requires page < 8 * bitmap.Length
      modifies bitmap
      ensures forall q :: 0 <= q < 8 * bitmap.Length ==>
        PageBit(bitmap[..], q) == (q != page && PageBit(old(bitmap[..]), q))
    {
      WordLimitIsPow2();
      BitUpdatesFit(bitmap[page / 8], page % 8, 8);
      bitmap[page / 8] := ClearBit(bitmap[page / 8], page % 8);
      forall q | 0 <= q < 8 * bitmap.Length
        ensures PageBit(bitmap[..], q) == (q != page && PageBit(old(bitmap[..]), q))
      {
        ClearBitAt(old(bitmap[page / 8]), page % 8, q % 8);
      }
    }

    // The i-th 64-bit word of the bitmap.
    method ReadWord(i: nat) returns (w: nat)
      requires 8 * i + 8 <= bitmap.Length
      ensures w <= FULL_WORD
      ensures forall q :: 64 * i <= q < 64 * i + 64 ==> PageBit(bitmap[..], q) == Bit(w, q - 64 * i)
    {
      var bs := bitmap[8 * i..8 * i + 8];
      w := Load(bs);
      LoadFits(bs);
      WordLimitIsPow2();
      forall q | 64 * i <= q < 64 * i + 64
        ensures PageBit(bitmap[..], q) == Bit(w, q - 64 * i)
      {
        LoadBit(bs, q - 64 * i);
      }
    }

    // Marks one page used; the only bits that change are that page's.
    method TakePage(page: nat)
      requires Valid() && page < totalPages
      modifies bitmap
      ensures Valid() && Used() == old(Used())[page := true]
    {
      SetPage(page);
      assert Used() == old(Used())[page := true];
    }

    // One pass of the single-page search, over the words [begin, end).
    method ScanWords(begin: nat, end: nat) returns (found: Option<nat>)
      requires Valid() && begin <= end <= bitmap.Length / 8
      ensures found == FirstFree(Used(), Min(begin * 64, totalPages), Min(end * 64, totalPages))
    {
      hide FirstFree, PaddingSet, Bit, Ctz;
      for i := begin to end
        invariant forall q :: begin * 64 <= q < i * 64 && q < totalPages ==> Used()[q]
      {
        var w := ReadWord(i);
        LowestClearBit(w);
        if w != FULL_WORD {
          var bit := Ctz(FULL_WORD - w);
          var page := i * 64 + bit;
          if page < totalPages {
            assert !PageBit(bitmap[..], page);
            assert forall q :: i * 64 <= q < page ==> Used()[q];
            return Some(page);
          }
        }
      }
      return None;
    }

    method AllocPage() returns (addr: nat)
      requires Valid() && initialized
      modifies this`lastFreeIndex, bitmap
      ensures Valid()
      ensures match ChoosePage(old(Used()), old(lastFreeIndex))
        case None => addr == 0 && Used() == old(Used()) && lastFreeIndex == old(lastFreeIndex)
        case Some(p) => addr == p * PAGE_SIZE && Used() == old(Used())[p := true] && lastFreeIndex == p / 64
    {
      var size64 := bitmap.Length / 8;
      var firstIndex := lastFreeIndex;
      if firstIndex >= size64 {
        firstIndex := 0;
      }
      ghost var lo := SearchStart(lastFreeIndex, totalPages);
      assert firstIndex * 64 == lo;
      for pass := 0 to 2
        invariant unchanged(this) && unchanged(bitmap)
        invariant pass > 0 ==> FirstFree(Used(), lo, totalPages) == None
        invariant pass > 1 ==> FirstFree(Used(), 0, lo) == None
      {
        var begin := if pass == 0 then firstIndex else 0;
        var end := if pass == 0 then size64 else firstIndex;
        var found := ScanWords(begin, end);
        if found.Some? {
          var page := found.value;
          TakePage(page);
          lastFreeIndex := page / 64;
          return page * PAGE_SIZE;
        }
      }
      return 0;
    }

    // Whether a page's bit is set, read as the byte-wise code does.
    method Occupied(page: nat) returns (b: bool)
      requires Valid() && page < totalPages
      ensures b == Used()[page]
    {
      b := Bit(bitmap[page / 8], page % 8);
      assert b == PageBit(bitmap[..], page);
    }

    // One pass of the multi-page search, over the pages [begin, end).
    method ScanRun(count: nat, begin: nat, end: nat) returns (found: Option<nat>)
      requires Valid() && count >= 1 && begin <= end <= totalPages
      ensures found == FirstRun(Used(), count, begin, end)
    {
      hide FirstRun, FreeRun, UsedMap, PaddingSet, BitmapBytes, PageBit, Pmm.Valid;
      ghost var u := Used();
      var consecutive, start := 0, 0;
      for page := begin to end
        invariant ScanState(u, begin, page, consecutive, count)
        invariant consecutive > 0 ==> start == page - consecutive
      {
        var occupied := Occupied(page);
        if !occupied {
          if consecutive == 0 {
            start := page;
          }
          ScanFreePage(u, begin, page, consecutive, count, end);
          consecutive := consecutive + 1;
          if consecutive == count {
            return Some(start);
          }
        } else {
          ScanUsedPage(u, begin, page, consecutive, count);
          consecutive := 0;
        }
      }
      return None;
    }

    // Marks the pages [start, start + count) used.
    method TakeRange(start: nat, count: nat)
      requires Valid() && start + count <= totalPages
      modifies bitmap
      ensures Valid() && Used() == SetRange(old(Used()), start, start + count, true)
    {
      for p := start to start + count
        invariant Valid() && Used() == SetRange(old(Used()), start, p, true)
      {
        TakePage(p);
      }
      assert Used() == SetRange(old(Used()), start, start + count, true);
    }

    method AllocPages(count: nat) returns (addr: nat)
      requires Valid() && (count > 0 ==> initialized)
      modifies this`lastFreeIndex, bitmap
      ensures Valid()
      ensures count == 0 ==> addr == 0 && Used() == old(Used()) && lastFreeIndex == old(lastFreeIndex)
      ensures count == 1 ==> match ChoosePage(old(Used()), old(lastFreeIndex))
        case None => addr == 0 && Used() == old(Used()) && lastFreeIndex == old(lastFreeIndex)
        case Some(p) => addr == p * PAGE_SIZE && Used() == old(Used())[p := true] && lastFreeIndex == p / 64
      ensures count >= 2 ==> match ChooseRun(old(Used()), count, old(lastFreeIndex))
        case None => addr == 0 && Used() == old(Used()) && lastFreeIndex == old(lastFreeIndex)
        case Some(s) => addr == s * PAGE_SIZE && Used() == SetRange(old(Used()), s, s + count, true)
                        && lastFreeIndex == (s + count) / 64
    {
      hide FirstRun, FreeRun, FirstFree, ChoosePage, UsedMap, PaddingSet, BitmapBytes, PageBit;
      if count == 0 { return 0; }
      if count == 1 {
        addr := AllocPage();
        return;
      }
      var firstPage := lastFreeIndex * 64;
      if firstPage >= totalPages {
        firstPage := 0;
      }
      for pass := 0 to 2
        invariant unchanged(this) && unchanged(bitmap)
        invariant pass > 0 ==> FirstRun(Used(), count, firstPage, totalPages) == None
        invariant pass > 1 ==> FirstRun(Used(), count, 0, firstPage) == None
      {
        var begin := if pass == 0 then firstPage else 0;
        var end := if pass == 0 then totalPages else firstPage;
        var found := ScanRun(count, begin, end);
        if found.Some? {
          TakeRange(found.value, count);
          lastFreeIndex := (found.value + count) / 64;
          return found.value * PAGE_SIZE;
        }
      }
      return 0;
    }

    // Marks one page free; the only bit that changes is that page's.
    method ReleasePage(page: nat)
      requires Valid() && page < totalPages
      modifies bitmap
      ensures Valid() && Used() == old(Used())[page := false]
    {
      ClearPage(page);
      assert Used() == old(Used())[page := false];
    }

    // Frees [start, end) page by page, stopping at a page that is already free.
    method ReleaseRange(start: nat, end: nat) returns (ok: bool)
      requires Valid() && end <= totalPages
      modifies bitmap
      ensures Valid()
      ensures ok <==> start > end || FirstFree(old(Used()), start, end) == None
      ensures start > end ==> Used() == old(Used())
      ensures start <= end ==> Used() == SetRange(old(Used()), start, FreedUpTo(old(Used()), start, end), false)
    {
      hide UsedMap, PaddingSet, BitmapBytes, PageBit, Pmm.Valid;
      var page := start;
      while page < end
        invariant start <= page && (page <= end || page == start)
        invariant Valid() && forall q :: start <= q < page && q < end ==> old(Used())[q]
        invariant Used() == if page <= end then SetRange(old(Used()), start, page, false) else old(Used())
      {
        var occupied := Occupied(page);
        if !occupied {
          assert FirstFree(old(Used()), start, end) == Some(page);
          return false;
        }
        ReleasePage(page);
        page := page + 1;
      }
      return true;
    }

    method LowerHint(page: nat)
      modifies this`lastFreeIndex
      ensures lastFreeIndex == Min(old(lastFreeIndex), page / 64)
    {
      var index64 := page / 64;
      if index64 < lastFreeIndex {
        lastFreeIndex := index64;
      }
    }

    method FreePage(addr: word) returns (r: Outcome<bool>)
      requires Valid()
      modifies this`lastFreeIndex, bitmap
      ensures Valid()
      ensures r == Returned(false) <==> !initialized || addr == 0
      ensures r == Returned(true) <==> initialized && addr != 0 && FreeablePages(old(Used()), addr, 1)
      ensures r == Returned(true) ==> Used() == old(Used())[addr / PAGE_SIZE := false]
      ensures r == Returned(true) ==> lastFreeIndex == Min(old(lastFreeIndex), addr / PAGE_SIZE / 64)
      ensures r != Returned(true) ==> Used() == old(Used()) && lastFreeIndex == old(lastFreeIndex)
    {
      if !initialized || addr == 0 { return Returned(false); }
      if addr % PAGE_SIZE != 0 { return Panic; }
      var page := addr / PAGE_SIZE;
      if page >= totalPages { return Panic; }
      var occupied := Occupied(page);
      if !occupied { return Panic; }
      ReleasePage(page);
      LowerHint(page);
      return Returned(true);
    }

    // The size_t sum startPage + count wraps; when it does, the loop is empty.
    method FreePages(addr: word, count: word) returns (r: Outcome<bool>)
      requires Valid()
      modifies this`lastFreeIndex, bitmap
      ensures Valid()
      ensures r == Returned(false) <==> !initialized || addr == 0 || count == 0
      ensures r == Returned(true) <==>
        initialized && addr != 0 && count != 0
        && (FreeablePages(old(Used()), addr, count) || WrapsAround(totalPages, addr, count))
      ensures r == Returned(true) && WrapsAround(totalPages, addr, count) ==> Used() == old(Used())
      ensures r == Returned(true) && !WrapsAround(totalPages, addr, count) ==>
        Used() == SetRange(old(Used()), addr / PAGE_SIZE, addr / PAGE_SIZE + count, false)
      ensures r == Returned(true) ==> lastFreeIndex == Min(old(lastFreeIndex), addr / PAGE_SIZE / 64)
      ensures r == Returned(false) ==> Used() == old(Used()) && lastFreeIndex == old(lastFreeIndex)
      ensures r == Panic ==> lastFreeIndex == old(lastFreeIndex)
      ensures r == Panic && !InBounds(totalPages, addr, count) ==> Used() == old(Used())
      ensures r == Panic && InBounds(totalPages, addr, count) ==>
        var start := addr / PAGE_SIZE;
        Used() == SetRange(old(Used()), start, FreedUpTo(old(Used()), start, start + count), false)
    {
      hide PaddingSet, BitmapBytes, PageBit;
      if !initialized || addr == 0 || count == 0 { return Returned(false); }
      if addr % PAGE_SIZE != 0 { return Panic; }
      var start := addr / PAGE_SIZE;
      var end := (start + count) % WORD_LIMIT;
      if end > totalPages { return Panic; }
      var ok := ReleaseRange(start, end);
      if !ok { return Panic; }
      LowerHint(start);
      return Returned(true);
    }
  }

  // The choice is exact: the lowest free page at or after the hint's word, failing
  // that the lowest free page before it, and none only when every page is used.
  lemma ChoosePageExact(u: seq<bool>, hint: nat)
    ensures ChoosePage(u, hint).None? <==> forall q :: 0 <= q < |u| ==> u[q]
    ensures forall p :: 0 <= p < |u| ==> (ChoosePage(u, hint) == Some(p) <==>
      && !u[p]
      && if p >= SearchStart(hint, |u|)
         then forall q :: SearchStart(hint, |u|) <= q < p ==> u[q]
         else forall q :: 0 <= q < |u| && (q < p || q >= SearchStart(hint, |u|)) ==> u[q])
  {
    var lo := SearchStart(hint, |u|);
    forall p | 0 <= p < |u|
      ensures ChoosePage(u, hint) == Some(p) <==>
        && !u[p]
        && if p >= lo then forall q :: lo <= q < p ==> u[q]
           else forall q :: 0 <= q < |u| && (q < p || q >= lo) ==> u[q]
    {
    }
  }

  // The same with the hint's word written out: a hint inside the bitmap, the partly
  // filled last word included, is where the search starts; any other starts it at 0.
  lemma ChoosePageByHint(u: seq<bool>, hint: nat, p: nat)
    requires ChoosePage(u, hint) == Some(p)
    ensures p < |u| && !u[p]
    ensures hint * 64 < |u| && hint * 64 <= p ==> forall q :: hint * 64 <= q < p ==> u[q]
    ensures hint * 64 < |u| && p < hint * 64 ==> forall q :: 0 <= q < |u| && (q < p || q >= hint * 64) ==> u[q]
    ensures hint * 64 >= |u| ==> forall q :: 0 <= q < p ==> u[q]
  {
    ChoosePageExact(u, hint);
  }

  // A run likewise: the lowest at or after the hint's word, else the lowest that ends
  // before it; a hint outside the bitmap finds the lowest of all.
  lemma ChooseRunByHint(u: seq<bool>, n: nat, hint: nat, s: nat)
    requires n >= 1 && ChooseRun(u, n, hint) == Some(s)
    ensures FreeRun(u, s, n)
    ensures hint * 64 < |u| && hint * 64 <= s ==> forall t: nat :: hint * 64 <= t < s ==> !FreeRun(u, t, n)
    ensures hint * 64 < |u| && s < hint * 64 ==>
      s + n <= hint * 64 && forall t: nat :: (t < s && t + n <= hint * 64) || t >= hint * 64 ==> !FreeRun(u, t, n)
    ensures hint * 64 >= |u| ==> forall t: nat :: t < s ==> !FreeRun(u, t, n)
  {
  }

  // And no run is found exactly when each one straddles the hint's word, or none exists.
  lemma NoRunByHint(u: seq<bool>, n: nat, hint: nat)
    requires n >= 1
    ensures ChooseRun(u, n, hint).None? <==>
      forall t: nat :: FreeRun(u, t, n) ==> hint * 64 < |u| && t < hint * 64 < t + n
  {
    ChooseRunExact(u, n, hint);
  }

  // The hint decides which page is chosen but never whether one is.
  lemma HintNeverDecidesSuccess(u: seq<bool>, hint: nat, otherHint: nat)
    ensures ChoosePage(u, hint).None? == ChoosePage(u, otherHint).None?
  {
    ChoosePageExact(u, hint);
    ChoosePageExact(u, otherHint);
  }

  function ReturnedAddress(choice: Option<nat>): nat {
    match choice
    case None => 0
    case Some(p) => p * PAGE_SIZE
  }

  // A returned address of 0 means exhaustion exactly when page 0 is not the choice:
  // with page 0 free, a successful allocation of it is reported as a failure.
  lemma NullMeansExhausted(u: seq<bool>, hint: nat)
    requires |u| > 0
    ensures ReturnedAddress(ChoosePage(u, hint)) == 0 <==>
      || (forall q :: 0 <= q < |u| ==> u[q])
      || (!u[0] && (SearchStart(hint, |u|) == 0 || forall q :: SearchStart(hint, |u|) <= q < |u| ==> u[q]))
    ensures u[0] ==> (ReturnedAddress(ChoosePage(u, hint)) == 0 <==> forall q :: 0 <= q < |u| ==> u[q])
  {
    ChoosePageExact(u, hint);
  }

  // With page 0 free, allocating it looks like a failure.
  lemma PageZeroLooksLikeFailure()
    ensures ChoosePage([false], 0) == Some(0) && ReturnedAddress(ChoosePage([false], 0)) == 0
  {
  }

  // A multi-page request of two or more fails exactly when every free run of that
  // length straddles the search start, or there is none; otherwise it gets the
  // lowest run at or after the start, failing that the lowest one before it.
  lemma ChooseRunExact(u: seq<bool>, n: nat, hint: nat)
    requires n >= 1
    ensures ChooseRun(u, n, hint).None? <==>
      forall s: nat :: FreeRun(u, s, n) ==> s < SearchStart(hint, |u|) < s + n
    ensures forall s: nat :: ChooseRun(u, n, hint) == Some(s) ==>
      && FreeRun(u, s, n)
      && forall t: nat :: FreeRun(u, t, n) && !(t < SearchStart(hint, |u|) < t + n) ==>
        if s >= SearchStart(hint, |u|) then t >= s || t < SearchStart(hint, |u|)
        else s <= t < SearchStart(hint, |u|)
  {
  }

  // All pages used but 63 and 64: the run of two is not found from the hint between them.
  lemma StraddlingRunIsMissed()
    ensures var u := seq(128, p => p != 63 && p != 64); FreeRun(u, 63, 2) && ChooseRun(u, 2, 1) == None
  {
    OnlyRunStraddles(seq(128, p => p != 63 && p != 64));
  }

  lemma OnlyRunStraddles(u: seq<bool>)
    requires |u| == 128 && forall q :: 0 <= q < |u| ==> u[q] == (q != 63 && q != 64)
    ensures FreeRun(u, 63, 2) && ChooseRun(u, 2, 1) == None
  {
    hide ChooseRun, FirstRun;
    ChooseRunExact(u, 2, 1);
    forall s: nat | FreeRun(u, s, 2)
      ensures s < SearchStart(1, |u|) < s + 2
    {
      assert !u[s] && !u[s + 1];
    }
  }

  // The multi-page scan has looked at [begin, page): the last c pages are free, and
  // no earlier run of n pages ends there.
  ghost predicate ScanState(u: seq<bool>, begin: nat, page: nat, c: nat, n: nat) {
    && begin <= page <= |u| && c < n && c <= page - begin
    && (forall q :: page - c <= q < page ==> !u[q])
    && (page - c == begin || u[page - c - 1])
    && (forall s :: begin <= s && s + n <= page ==> !FreeRun(u, s, n))
  }

  lemma ScanFreePage(u: seq<bool>, begin: nat, page: nat, c: nat, n: nat, end: nat)
    requires ScanState(u, begin, page, c, n) && page < end <= |u| && !u[page]
    ensures c + 1 < n ==> ScanState(u, begin, page + 1, c + 1, n)
    ensures c + 1 == n ==> FirstRun(u, n, begin, end) == Some(page + 1 - n)
  {
    var runStart := page - c;
    forall s | begin <= s && s + n <= page + 1
      ensures FreeRun(u, s, n) ==> s >= runStart
    {
      if s + n > page && s < runStart {
        UsedPageBlocksRun(u, s, n, runStart - 1);
      }
    }
    if c + 1 == n {
      assert FreeRun(u, runStart, n);
    }
  }

  lemma ScanUsedPage(u: seq<bool>, begin: nat, page: nat, c: nat, n: nat)
    requires ScanState(u, begin, page, c, n) && page < |u| && u[page]
    ensures ScanState(u, begin, page + 1, 0, n)
  {
    forall s | begin <= s && s + n <= page + 1
      ensures !FreeRun(u, s, n)
    {
      if s + n > page {
        UsedPageBlocksRun(u, s, n, page);
      }
    }
  }

  lemma UsedPageBlocksRun(u: seq<bool>, s: nat, n: nat, q: nat)
    requires s <= q < s + n && q < |u| && u[q]
    ensures !FreeRun(u, s, n)
  {
  }

  // Every page of the range is inside the bitmap and in use.
  ghost predicate FreeablePages(u: seq<bool>, addr: word, count: nat) {
    && addr % PAGE_SIZE == 0
    && addr / PAGE_SIZE + count <= |u|
    && forall q :: addr / PAGE_SIZE <= q < addr / PAGE_SIZE + count ==> u[q]
  }

  // The range is aligned and inside the bitmap, so its pages are freed one by one.
  predicate InBounds(total: nat, addr: word, count: word) {
    addr % PAGE_SIZE == 0 && addr / PAGE_SIZE + count <= total
  }

  // Where freeing page by page stops: at the first page already free, or at the end.
  function FreedUpTo(u: seq<bool>, start: nat, end: nat): (r: nat)
    requires start <= end <= |u|
    ensures start <= r <= end
  {
    match FirstFree(u, start, end)
    case None => end
    case Some(p) => p
  }

  // The page count is so large that the end of the range wraps to a small number.
  predicate WrapsAround(total: nat, addr: word, count: word) {
    && addr % PAGE_SIZE == 0
    && addr / PAGE_SIZE + count >= WORD_LIMIT
    && addr / PAGE_SIZE + count - WORD_LIMIT <= total
  }

  // Freeing 2^64 - 1 pages from address 4096 on frees none, and reports success.
  lemma WrappingCount(total: nat)
    ensures WrapsAround(total, 4096, 0xFFFF_FFFF_FFFF_FFFF)
  {
  }

  // A full word has no clear bit; otherwise counting the trailing zeros of its
  // complement finds the lowest clear bit.
  lemma LowestClearBit(w: nat)
    requires w <= FULL_WORD
    ensures w == FULL_WORD ==> forall k :: 0 <= k < 64 ==> Bit(w, k)
    ensures w != FULL_WORD ==>
      var b := Ctz(FULL_WORD - w);
      b < 64 && !Bit(w, b) && forall k :: 0 <= k < b ==> Bit(w, k)
  {
    WordLimitIsPow2();
    if w == FULL_WORD {
      forall k | 0 <= k < 64
        ensures Bit(w, k)
      {
        AllOnesBit(64, k);
      }
    } else {
      var c := Complement(w, 64);
      CtzIsLowestSetBit(c, 64);
      ComplementBit(w, 64, Ctz(c));
      forall k | 0 <= k < Ctz(c)
        ensures Bit(w, k)
      {
        ComplementBit(w, 64, k);
      }
    }
  }
}
