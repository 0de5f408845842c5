// Machine words as bounded integers: the bit operations the kernel performs on
// bitmap bytes and on little-endian 64-bit words, defined arithmetically.
module Words {
  const WORD_LIMIT: nat := 0x1_0000_0000_0000_0000

  type byte = x: int | 0 <= x < 256
  type word = x: int | 0 <= x < 0x1_0000_0000_0000_0000

  function Pow2(n: nat): (r: nat)
    ensures r > 0
  {
    if n == 0 then 1 else 2 * Pow2(n - 1)
  }

  // Bit i of x, that is (x >> i) & 1.
  predicate Bit(x: nat, i: nat) {
    if i == 0 then x % 2 == 1 else Bit(x / 2, i - 1)
  }

  // x | (1 << i)
  function SetBit(x: nat, i: nat): nat {
    if i == 0 then x / 2 * 2 + 1 else SetBit(x / 2, i - 1) * 2 + x % 2
  }

  // x & ~(1 << i)
  function ClearBit(x: nat, i: nat): nat {
    if i == 0 then x / 2 * 2 else ClearBit(x / 2, i - 1) * 2 + x % 2
  }

  // ~x on n bits.
  function Complement(x: nat, n: nat): nat
    requires x < Pow2(n)
  {
    Pow2(n) - 1 - x
  }

  // Count trailing zeros: the position of the lowest set bit.
  function Ctz(x: nat): nat
    requires x != 0
  {
    if x % 2 == 1 then 0 else 1 + Ctz(x / 2)
  }

  // The number stored little-endian in a run of bytes.
  function Load(bs: seq<byte>): nat {
    if bs == [] then 0 else bs[0] + 256 * Load(bs[1..])
  }

  // The n low bytes of x, little-endian.
  function Store(x: nat, n: nat): (bs: seq<byte>)
    ensures |bs| == n
  {
    if n == 0 then [] else [x % 256] + Store(x / 256, n - 1)
  }

  function Min(a: nat, b: nat): nat {
    if a <= b then a else b
  }

  function AlignUp(v: nat, align: nat): nat
    requires align > 0
  {
    (v + align - 1) / align * align
  }

  function AlignDown(v: nat, align: nat): nat
    requires align > 0
  {
    v / align * align
  }

  lemma {:induction false} SetBitAt(x: nat, i: nat, j: nat)
    ensures Bit(SetBit(x, i), j) == (i == j || Bit(x, j))
  {
    if i > 0 && j > 0 {
      SetBitAt(x / 2, i - 1, j - 1);
    }
  }

  lemma {:induction false} ClearBitAt(x: nat, i: nat, j: nat)
    ensures Bit(ClearBit(x, i), j) == (i != j && Bit(x, j))
  {
    if i > 0 && j > 0 {
      ClearBitAt(x / 2, i - 1, j - 1);
    }
  }

  lemma {:induction false} BitUpdatesFit(x: nat, i: nat, n: nat)
    requires i < n && x < Pow2(n)
    ensures SetBit(x, i) < Pow2(n) && ClearBit(x, i) < Pow2(n)
  {
    if i > 0 {
      BitUpdatesFit(x / 2, i - 1, n - 1);
    }
  }

  lemma {:induction false} ComplementBit(x: nat, n: nat, i: nat)
    requires x < Pow2(n) && i < n
    ensures Bit(Complement(x, n), i) == !Bit(x, i)
  {
    if i > 0 {
      assert Complement(x, n) / 2 == Complement(x / 2, n - 1);
      ComplementBit(x / 2, n - 1, i - 1);
    }
  }

  lemma {:induction false} CtzIsLowestSetBit(x: nat, n: nat)
    requires 0 < x < Pow2(n)
    ensures Ctz(x) < n && Bit(x, Ctz(x))
    ensures forall i :: 0 <= i < Ctz(x) ==> !Bit(x, i)
  {
    if x % 2 == 0 {
      CtzIsLowestSetBit(x / 2, n - 1);
      forall i | 0 <= i < Ctz(x)
        ensures !Bit(x, i)
      {
        if i > 0 {
          assert !Bit(x / 2, i - 1);
        }
      }
    }
  }

  // Bits of a value made of a k-bit low part and a high part.
  lemma {:induction false} SplitBit(low: nat, high: nat, k: nat, i: nat)
    requires low < Pow2(k)
    ensures Bit(low + Pow2(k) * high, i) == if i < k then Bit(low, i) else Bit(high, i - k)
  {
    if k > 0 {
      var m := Pow2(k - 1) * high;
      assert Pow2(k) * high == 2 * m;
      if i > 0 {
        assert (low + 2 * m) / 2 == low / 2 + m;
        SplitBit(low / 2, high, k - 1, i - 1);
      }
    }
  }

  lemma {:induction false} SmallHasNoHighBit(x: nat, k: nat, i: nat)
    requires x < Pow2(k) && k <= i
    ensures !Bit(x, i)
  {
    if k > 0 {
      SmallHasNoHighBit(x / 2, k - 1, i - 1);
    } else if i > 0 {
      SmallHasNoHighBit(x / 2, k, i - 1);
    }
  }

  // The byte view and the word view of the same memory agree bit by bit.
  lemma {:induction false} LoadBit(bs: seq<byte>, i: nat)
    requires i < 8 * |bs|
    ensures Bit(Load(bs), i) == Bit(bs[i / 8], i % 8)
  {
    assert Pow2(8) == 256;
    SplitBit(bs[0], Load(bs[1..]), 8, i);
    if i >= 8 {
      LoadBit(bs[1..], i - 8);
    }
  }

  lemma {:induction false} LoadFits(bs: seq<byte>)
    ensures Load(bs) < Pow2(8 * |bs|)
  {
    if bs != [] {
      LoadFits(bs[1..]);
      Pow2Add(8, 8 * |bs[1..]|);
      assert Pow2(8) == 256;
    }
  }

  lemma {:induction false} Pow2Add(m: nat, n: nat)
    ensures Pow2(m + n) == Pow2(m) * Pow2(n)
  {
    if m > 0 {
      Pow2Add(m - 1, n);
    }
  }

  lemma WordLimitIsPow2()
    ensures Pow2(64) == WORD_LIMIT && Pow2(8) == 256 && Pow2(12) == 4096 && Pow2(52) == 0x10_0000_0000_0000
  {
    assert Pow2(4) == 16;
    Pow2Add(4, 4);
    Pow2Add(8, 4);
    Pow2Add(8, 8);
    Pow2Add(16, 16);
    Pow2Add(32, 16);
    Pow2Add(48, 4);
    Pow2Add(32, 32);
  }

  lemma {:induction false} AllOnesBit(n: nat, i: nat)
    requires i < n
    ensures Bit(Pow2(n) - 1, i)
  {
    if i > 0 {
      assert (Pow2(n) - 1) / 2 == Pow2(n - 1) - 1;
      AllOnesBit(n - 1, i - 1);
    }
  }

  lemma {:induction false} StoreLoad(bs: seq<byte>)
    ensures Store(Load(bs), |bs|) == bs
  {
    if bs != [] {
      StoreLoad(bs[1..]);
      ByteSplit(bs[0], Load(bs[1..]));
      assert bs == [bs[0]] + bs[1..];
    }
  }

  lemma ByteSplit(b: byte, k: nat)
    ensures (b + 256 * k) % 256 == b && (b + 256 * k) / 256 == k
  {
  }
}
