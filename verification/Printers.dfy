// int_to_string of src/klib/string.c and int_to_hex_string of src/klib/math.c: digits
// are produced backwards and reversed in place.
module Printers {
  const NUL: char := '\0'

  // The digit characters, as in the kernel's "0123456789ABCDEF".
  function Digit(d: nat): char
    requires d < 16
  {
    if d < 10 then '0' + d as char else 'A' + (d - 10) as char
  }

  function DigitValue(c: char): nat {
    if '0' <= c <= '9' then (c - '0') as nat
    else if 'A' <= c <= 'F' then (c - 'A') as nat + 10
    else 0
  }

  // The usual positional notation, most significant digit first.
  function Digits(n: nat, base: nat): (s: string)
    requires 2 <= base <= 16
    ensures |s| >= 1
  {
    if n < base then [Digit(n)] else Digits(n / base, base) + [Digit(n % base)]
  }

  function Value(s: string, base: nat): nat {
    if s == [] then 0 else Value(s[..|s| - 1], base) * base + DigitValue(s[|s| - 1])
  }

  function Decimal(n: int): string {
    if n < 0 then ['-'] + Digits(-n, 10) else Digits(n, 10)
  }

  function ParseDecimal(s: string): int {
    if s != [] && s[0] == '-' then -(Value(s[1..], 10) as int) else Value(s, 10)
  }

  lemma DigitRoundTrip(d: nat)
    requires d < 16
    ensures DigitValue(Digit(d)) == d && Digit(d) != NUL && Digit(d) != '-'
  {
  }

  lemma {:induction false} DigitsRoundTrip(n: nat, base: nat)
    requires 2 <= base <= 16
    ensures Value(Digits(n, base), base) == n
    ensures forall c :: c in Digits(n, base) ==> c != NUL && c != '-'
  {
    hide *;
    if n < base {
      DigitRoundTrip(n);
      OneDigit(n, base);
      ValueOfLast([], Digit(n), base);
      ValueOfNone(base);
    } else {
      DigitsStep(n, base);
      DigitRoundTrip(n % base);
      DigitsRoundTrip(n / base, base);
      ValueOfLast(Digits(n / base, base), Digit(n % base), base);
    }
  }

  lemma DigitIsListed(d: nat)
    requires d < 16
    ensures Digit(d) == "0123456789ABCDEF"[d]
  {
  }

  // No leading zero, and only digit characters.
  lemma {:induction false} DigitsAreShortest(n: nat, base: nat)
    requires 2 <= base <= 16
    ensures Digits(n, base) == "0" || Digits(n, base)[0] != '0'
    ensures n > 0 ==> Digits(n, base)[0] != '0'
    ensures forall c :: c in Digits(n, base) ==> c in "0123456789ABCDEF"
  {
    hide Digit;
    if n < base {
      OneDigit(n, base);
      DigitIsListed(n);
    } else {
      DigitsStep(n, base);
      DigitIsListed(n % base);
      SmallerIsPositive(n, base);
      DigitsAreShortest(n / base, base);
      hide Digits;
    }
  }

  lemma SmallerIsPositive(n: nat, base: nat)
    requires base > 0 && n >= base
    ensures n / base > 0
  {
  }

  lemma OneDigit(n: nat, base: nat)
    requires 2 <= base <= 16 && n < base
    ensures Digits(n, base) == [] + [Digit(n)]
  {
  }

  lemma ValueOfNone(base: nat)
    ensures Value([], base) * base == 0
  {
  }

  lemma DigitsStep(n: nat, base: nat)
    requires 2 <= base <= 16 && n >= base
    ensures n == n / base * base + n % base && n / base < n && n % base < 16
    ensures Digits(n, base) == Digits(n / base, base) + [Digit(n % base)]
  {
  }

  lemma ValueOfLast(s: string, c: char, base: nat)
    ensures Value(s + [c], base) == Value(s, base) * base + DigitValue(c)
  {
    assert (s + [c])[..|s|] == s;
  }

  // Printing and parsing back gives the number, for every integer.
  lemma DecimalRoundTrip(n: int)
    ensures ParseDecimal(Decimal(n)) == n
    ensures forall c :: c in Decimal(n) ==> c != NUL
  {
    DigitsRoundTrip(if n < 0 then -n else n, 10);
    if n < 0 {
      assert Decimal(n)[1..] == Digits(-n, 10);
    } else {
      assert Decimal(n)[0] in Decimal(n);
    }
  }

  // A number below base^k prints in at most k digits.
  lemma {:induction false} DigitsLength(n: nat, base: nat, k: nat)
    requires 2 <= base <= 16 && k >= 1 && n < Power(base, k)
    ensures |Digits(n, base)| <= k
  {
    hide *;
    PowerStep(base, k);
    if n < base {
      OneDigit(n, base);
    } else {
      if k == 1 {
        assert false;
      }
      DigitsStep(n, base);
      DivBound(n, base, Power(base, k - 1));
      DigitsLength(n / base, base, k - 1);
    }
  }

  lemma PowerStep(b: nat, k: nat)
    requires k >= 1
    ensures Power(b, k) == b * Power(b, k - 1) && (k == 1 ==> Power(b, k) == b)
  {
  }

  function Power(b: nat, k: nat): nat {
    if k == 0 then 1 else b * Power(b, k - 1)
  }

  lemma DivBound(n: nat, b: nat, p: nat)
    requires b > 0 && n < b * p
    ensures n / b < p
  {
    var q := n / b;
    assert b * q <= n;
    MulCancel(b, q, p);
  }

  lemma MulCancel(b: nat, q: nat, p: nat)
    requires b * q < b * p
    ensures q < p
  {
    assert b * p - b * q == b * (p - q);
  }

  function Reversed(s: string): (r: string)
    ensures |r| == |s|
  {
    seq(|s|, i requires 0 <= i < |s| => s[|s| - 1 - i])
  }

  lemma ReversedPrepend(s: string, c: char)
    ensures Reversed(s + [c]) == [c] + Reversed(s)
  {
  }

  // The reversal loop both printers end with.
  method ReverseInPlace(a: array<char>, n: nat)
    requires n <= a.Length
    modifies a
    ensures a[..n] == Reversed(old(a[..n])) && a[n..] == old(a[n..])
  {
    if n == 0 { return; }
    var start, end := 0, n - 1;
    while start < end
      invariant 0 <= start && start + end == n - 1 && start <= end + 1
      invariant forall i :: 0 <= i < n && (i < start || i > end) ==> a[i] == old(a[n - 1 - i])
      invariant forall i :: start <= i <= end ==> a[i] == old(a[i])
      invariant forall i :: n <= i < a.Length ==> a[i] == old(a[i])
    {
      a[start], a[end] := a[end], a[start];
      start := start + 1;
      end := end - 1;
    }
  }

  // C's truncating division and remainder by ten.
  function TruncDiv10(n: int): int {
    if n >= 0 then n / 10 else -(-n / 10)
  }

  function TruncMod10(n: int): int {
    if n >= 0 then n % 10 else -(-n % 10)
  }

  function Abs(n: int): nat {
    if n < 0 then -n else n
  }

  // The 64-bit signed printer; the buffer holds the sign, 19 digits and a NUL.
  method IntToString(value: int, str: array<char>) returns (ghost len: nat)
    requires -0x8000_0000_0000_0000 <= value < 0x8000_0000_0000_0000 && str.Length >= 21
    modifies str
    ensures len < str.Length && str[..len] == Decimal(value) && str[len] == NUL
  {
    if value == 0 {
      str[0] := '0';
      str[1] := NUL;
      return 1;
    }
    var i := DecimalDigits(value, str);
    if value < 0 {
      str[i] := '-';
      ReversedPrepend(str[..i], '-');
      assert str[..i + 1] == str[..i] + ['-'];
      i := i + 1;
    }
    str[i] := NUL;
    ReverseInPlace(str, i);
    len := i;
  }

  // The digit loop: the digits of |value|, last one first.
  method DecimalDigits(value: int, str: array<char>) returns (i: nat)
    requires -0x8000_0000_0000_0000 <= value < 0x8000_0000_0000_0000 && value != 0 && str.Length >= 21
    modifies str
    ensures 1 <= i <= 19 && Reversed(str[..i]) == Digits(Abs(value), 10)
  {
    var n := value;
    i := 0;
    DecimalFits(value);
    while true
      invariant n != 0 && i + |Digits(Abs(n), 10)| == |Digits(Abs(value), 10)| <= 19
      invariant Digits(Abs(n), 10) + Reversed(str[..i]) == Digits(Abs(value), 10)
      decreases Abs(n)
    {
      var digit := TruncMod10(n);
      if digit < 0 {
        digit := -digit;
      }
      ghost var before := str[..i];
      str[i] := Digit(digit);
      assert str[..i + 1] == before + [Digit(digit)];
      ReversedPrepend(before, Digit(digit));
      i := i + 1;
      LastDigit(n);
      n := TruncDiv10(n);
      if n == 0 { break; }
    }
  }

  lemma LastDigit(n: int)
    requires n != 0
    ensures Abs(TruncMod10(n)) == Abs(n) % 10 && Abs(TruncDiv10(n)) == Abs(n) / 10
    ensures TruncDiv10(n) == 0 <==> Abs(n) < 10
    ensures Digits(Abs(n), 10) ==
      (if Abs(n) < 10 then [] else Digits(Abs(n) / 10, 10)) + [Digit(Abs(n) % 10)]
  {
  }

  lemma DecimalFits(value: int)
    requires -0x8000_0000_0000_0000 <= value < 0x8000_0000_0000_0000
    ensures |Digits(Abs(value), 10)| <= 19
  {
    PowersOfTen();
    DigitsLength(Abs(value), 10, 19);
  }

  lemma PowersOfTen()
    ensures Power(10, 19) == 10_000_000_000_000_000_000
  {
    assert Power(10, 4) == 10_000;
    PowerAdd(10, 4, 4);
    PowerAdd(10, 8, 8);
    PowerAdd(10, 16, 3);
    assert Power(10, 3) == 1000;
  }

  lemma {:induction false} PowerAdd(b: nat, m: nat, n: nat)
    ensures Power(b, m + n) == Power(b, m) * Power(b, n)
  {
    if m > 0 {
      hide Power;
      PowerAdd(b, m - 1, n);
      PowerStep(b, m);
      PowerStep(b, m + n);
      MulAssociates(b, Power(b, m - 1), Power(b, n));
    }
  }

  lemma MulAssociates(x: nat, y: nat, z: nat)
    ensures x * (y * z) == (x * y) * z
  {
  }

  lemma PowersOfSixteen()
    ensures Power(16, 16) == 0x1_0000_0000_0000_0000
  {
    assert Power(16, 4) == 0x1_0000;
    PowerAdd(16, 4, 4);
    PowerAdd(16, 8, 8);
  }

  // The 64-bit hexadecimal printer; the buffer holds 16 digits and a NUL.
  method IntToHexString(value: nat, buffer: array<char>) returns (ghost len: nat)
    requires value < 0x1_0000_0000_0000_0000 && buffer.Length >= 17
    modifies buffer
    ensures len < buffer.Length && buffer[..len] == Digits(value, 16) && buffer[len] == NUL
  {
    if value == 0 {
      buffer[0] := '0';
      buffer[1] := NUL;
      return 1;
    }
    hide Digits, Power, Digit;
    var i := 0;
    var n := value;
    PowersOfSixteen();
    DigitsLength(value, 16, 16);
    assert buffer[..0] == [] && Reversed([]) == [];
    while n > 0
      invariant i + |DigitsOrNone(n)| == |Digits(value, 16)| <= 16
      invariant DigitsOrNone(n) + Reversed(buffer[..i]) == Digits(value, 16)
    {
      ghost var before := buffer[..i];
      NextDigit(n, Reversed(before));
      buffer[i] := Digit(n % 16);
      assert buffer[..i + 1] == before + [Digit(n % 16)];
      ReversedPrepend(before, Digit(n % 16));
      i := i + 1;
      n := n / 16;
    }
    buffer[i] := NUL;
    ReverseInPlace(buffer, i);
    len := i;
  }

  // The digits still to come: none once the number is used up.
  ghost function DigitsOrNone(n: nat): string {
    if n == 0 then [] else Digits(n, 16)
  }

  lemma NextDigit(n: nat, after: string)
    requires n > 0
    ensures |DigitsOrNone(n)| == |DigitsOrNone(n / 16)| + 1
    ensures DigitsOrNone(n) + after == DigitsOrNone(n / 16) + ([Digit(n % 16)] + after)
  {
  }
}
