// memcpy and memset of src/klib/mem.c: overlapping head and tail stores, then aligned
// 64-bit words, four at a time and one by one.
module Mem {
  import opened Words

  // i is among the first or the last k of n bytes.
  predicate AtEnds(i: int, k: nat, n: nat) {
    0 <= i < n && (i < k || i >= n - k)
  }

  // d64[i] = s64[i], at byte offset at of both buffers.
  method CopyWord(d: array<byte>, s: array<byte>, at: nat)
    requires d != s && at + 8 <= d.Length && at + 8 <= s.Length
    modifies d
    ensures forall i :: 0 <= i < d.Length ==> d[i] == if at <= i < at + 8 then s[i] else old(d[i])
  {
    var w := Load(s[at..at + 8]);
    StoreLoad(s[at..at + 8]);
    StoreWord(d, w, at);
    forall i | at <= i < at + 8
      ensures d[i] == s[i]
    {
      assert s[at..at + 8][i - at] == s[i];
    }
  }

  method StoreWord(d: array<byte>, w: nat, at: nat)
    requires at + 8 <= d.Length
    modifies d
    ensures forall i :: 0 <= i < d.Length ==> d[i] == if at <= i < at + 8 then Store(w, 8)[i - at] else old(d[i])
  {
    var bs := Store(w, 8);
    for j := 0 to 8
      invariant forall i :: 0 <= i < d.Length ==> d[i] == if at <= i < at + j then bs[i - at] else old(d[i])
    {
      d[at + j] := bs[j];
    }
  }

  method CopyPair(d: array<byte>, s: array<byte>, n: nat, j: nat)
    requires d != s && j < n <= d.Length && n <= s.Length
    requires forall i :: AtEnds(i, j, n) ==> d[i] == s[i]
    modifies d
    ensures forall i :: AtEnds(i, j + 1, n) ==> d[i] == s[i]
    ensures forall i :: n <= i < d.Length ==> d[i] == old(d[i])
  {
    d[j] := s[j];
    d[n - 1 - j] := s[n - 1 - j];
  }

  // The first and last bytes: both ends have met once n is at most 16.
  method CopyEnds(d: array<byte>, s: array<byte>, n: nat)
    requires d != s && 0 < n <= d.Length && n <= s.Length
    modifies d
    ensures forall i :: n <= i < d.Length ==> d[i] == old(d[i])
    ensures forall i :: AtEnds(i, 8, n) ==> d[i] == s[i]
  {
    CopyPair(d, s, n, 0);
    if n <= 2 { return; }
    CopyPair(d, s, n, 1);
    CopyPair(d, s, n, 2);
    if n <= 6 { return; }
    CopyPair(d, s, n, 3);
    if n <= 8 { return; }
    CopyPair(d, s, n, 4);
    CopyPair(d, s, n, 5);
    CopyPair(d, s, n, 6);
    CopyPair(d, s, n, 7);
  }

  // The offset of the first 8-byte boundary at or after the address: -address & 7.
  function ToBoundary(address: nat): (k: nat)
    ensures k < 8 && (address + k) % 8 == 0
  {
    (8 - address % 8) % 8
  }

  method Memcpy(d: array<byte>, address: nat, s: array<byte>, n: nat)
    requires d != s && n <= d.Length && n <= s.Length
    modifies d
    ensures d[..] == s[..n] + old(d[n..])
  {
    if n == 0 { return; }
    CopyEnds(d, s, n);
    if n > 16 {
      var k := ToBoundary(address);
      for i := 0 to k
        invariant forall j :: 0 <= j < n && (j < i || AtEnds(j, 8, n)) ==> d[j] == s[j]
        invariant forall j :: n <= j < d.Length ==> d[j] == old(d[j])
      {
        d[i] := s[i];
      }
      CopyWords(d, s, k, (n - k) / 8, n);
    }
  }

  // i is below upTo or among the last 8 of n bytes.
  predicate Copied(i: int, upTo: nat, n: nat) {
    0 <= i < n && (i < upTo || i >= n - 8)
  }

  // The word loops: total words from offset k on, four at a time, then singly.
  method CopyWords(d: array<byte>, s: array<byte>, k: nat, total: nat, n: nat)
    requires d != s && n <= d.Length && n <= s.Length && k + 8 * total <= n
    requires forall j :: Copied(j, k, n) ==> d[j] == s[j]
    modifies d
    ensures forall j :: Copied(j, k + 8 * total, n) ==> d[j] == s[j]
    ensures forall j :: n <= j < d.Length ==> d[j] == old(d[j])
  {
    var i, left := 0, total;
    while left >= 4
      invariant i + left == total
      invariant forall j :: Copied(j, k + 8 * i, n) ==> d[j] == s[j]
      invariant forall j :: n <= j < d.Length ==> d[j] == old(d[j])
    {
      CopyWord(d, s, k + 8 * i);
      CopyWord(d, s, k + 8 * (i + 1));
      CopyWord(d, s, k + 8 * (i + 2));
      CopyWord(d, s, k + 8 * (i + 3));
      i := i + 4;
      left := left - 4;
    }
    while left > 0
      invariant i + left == total
      invariant forall j :: Copied(j, k + 8 * i, n) ==> d[j] == s[j]
      invariant forall j :: n <= j < d.Length ==> d[j] == old(d[j])
    {
      CopyWord(d, s, k + 8 * i);
      i := i + 1;
      left := left - 1;
    }
  }

  method FillPair(d: array<byte>, c: byte, n: nat, j: nat)
    requires j < n <= d.Length
    requires forall i :: AtEnds(i, j, n) ==> d[i] == c
    modifies d
    ensures forall i :: AtEnds(i, j + 1, n) ==> d[i] == c
    ensures forall i :: n <= i < d.Length ==> d[i] == old(d[i])
  {
    d[n - 1 - j] := c;
    d[j] := c;
  }

  method FillEnds(d: array<byte>, c: byte, n: nat)
    requires 0 < n <= d.Length
    modifies d
    ensures forall i :: n <= i < d.Length ==> d[i] == old(d[i])
    ensures forall i :: AtEnds(i, 8, n) ==> d[i] == c
  {
    FillPair(d, c, n, 0);
    if n <= 2 { return; }
    FillPair(d, c, n, 1);
    FillPair(d, c, n, 2);
    if n <= 6 { return; }
    FillPair(d, c, n, 3);
    if n <= 8 { return; }
    FillPair(d, c, n, 4);
    FillPair(d, c, n, 5);
    FillPair(d, c, n, 6);
    FillPair(d, c, n, 7);
  }

  // wc: the byte c repeated in all eight bytes of a word.
  function Repeated(c: byte): nat {
    var w32 := c + c * 0x100 + c * 0x1_0000 + c * 0x100_0000;
    w32 + w32 * 0x1_0000_0000
  }

  lemma RepeatedBytes(c: byte)
    ensures Store(Repeated(c), 8) == [c, c, c, c, c, c, c, c]
  {
    var bs: seq<byte> := [c, c, c, c, c, c, c, c];
    assert Load(bs[8..]) == 0;
    LoadStep(bs, 7);
    LoadStep(bs, 6);
    LoadStep(bs, 5);
    LoadStep(bs, 4);
    LoadStep(bs, 3);
    LoadStep(bs, 2);
    LoadStep(bs, 1);
    LoadStep(bs, 0);
    assert bs[0..] == bs;
    assert Load(bs) == Repeated(c);
    StoreLoad(bs);
  }

  lemma LoadStep(bs: seq<byte>, i: nat)
    requires i < |bs|
    ensures Load(bs[i..]) == bs[i] + 256 * Load(bs[i + 1..])
  {
    assert bs[i..][1..] == bs[i + 1..];
  }

  method FillWords(d: array<byte>, c: byte, k: nat, total: nat, n: nat)
    requires n <= d.Length && k + 8 * total <= n
    requires forall j :: Copied(j, k, n) ==> d[j] == c
    modifies d
    ensures forall j :: Copied(j, k + 8 * total, n) ==> d[j] == c
    ensures forall j :: n <= j < d.Length ==> d[j] == old(d[j])
  {
    var wc := Repeated(c);
    RepeatedBytes(c);
    var i, left := 0, total;
    while left >= 4
      invariant i + left == total
      invariant forall j :: Copied(j, k + 8 * i, n) ==> d[j] == c
      invariant forall j :: n <= j < d.Length ==> d[j] == old(d[j])
    {
      StoreWord(d, wc, k + 8 * i);
      StoreWord(d, wc, k + 8 * (i + 1));
      StoreWord(d, wc, k + 8 * (i + 2));
      StoreWord(d, wc, k + 8 * (i + 3));
      i := i + 4;
      left := left - 4;
    }
    while left > 0
      invariant i + left == total
      invariant forall j :: Copied(j, k + 8 * i, n) ==> d[j] == c
      invariant forall j :: n <= j < d.Length ==> d[j] == old(d[j])
    {
      StoreWord(d, wc, k + 8 * i);
      i := i + 1;
      left := left - 1;
    }
  }

  method Memset(d: array<byte>, address: nat, c: byte, n: nat)
    requires n <= d.Length
    modifies d
    ensures d[..] == seq(n, _ => c) + old(d[n..])
  {
    if n == 0 { return; }
    FillEnds(d, c, n);
    if n > 16 {
      var k := ToBoundary(address);
      FillWords(d, c, k, (n - k) / 8, n);
    }
  }
}
