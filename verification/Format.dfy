// The formatter of src/drivers/screen/screen.c: kvsnprintf, consume_format_args, and
// the colour segments of kprintf.
module Format {
  import opened Wrappers
  import opened Words
  import opened Printers

  // One variadic argument: its 64 bits and, read as a pointer, the C string there.
  datatype Arg = Arg(bits: nat, text: Option<string>)

  const NO_ARG: Arg := Arg(0, None)

  // va_arg: the next argument and the remaining ones.
  function Head(args: seq<Arg>): Arg { if args == [] then NO_ARG else args[0] }
  function Tail(args: seq<Arg>): seq<Arg> { if args == [] then [] else args[1..] }

  function Signed32(bits: nat): (r: int)
    ensures -0x8000_0000 <= r < 0x8000_0000
  {
    var low := bits % 0x1_0000_0000;
    if low < 0x8000_0000 then low else low - 0x1_0000_0000
  }

  function Signed64(bits: nat): (r: int)
    ensures -0x8000_0000_0000_0000 <= r < 0x8000_0000_0000_0000
  {
    var low := bits % 0x1_0000_0000_0000_0000;
    if low < 0x8000_0000_0000_0000 then low else low - 0x1_0000_0000_0000_0000
  }

  function Unsigned64(bits: nat): nat { bits % 0x1_0000_0000_0000_0000 }

  predicate IsModifier(c: char) { c == 'l' || c == 'z' || c == 'h' }
  predicate IsInteger(c: char) { c == 'd' || c == 'i' || c == 'u' }
  predicate IsHex(c: char) { c == 'x' || c == 'p' }
  predicate TakesArg(c: char) { IsInteger(c) || IsHex(c) || c == 's' || c == 'c' }

  function CString(a: Arg): string {
    match a.text
    case Some(s) => s
    case None => "(null)"
  }

  // What one conversion prints.
  function Convert(c: char, isLong: bool, a: Arg): string {
    if IsInteger(c) then Decimal(if isLong then Signed64(a.bits) else Signed32(a.bits))
    else if IsHex(c) then Digits(Unsigned64(a.bits), 16)
    else if c == 's' then CString(a)
    else if c == 'c' then [(a.bits % 256) as char]
    else [c]
  }

  // The number of length modifiers at the front of s.
  function Modifiers(s: string): (n: nat)
    ensures n <= |s|
  {
    if s == [] || !IsModifier(s[0]) then 0 else 1 + Modifiers(s[1..])
  }

  predicate HasLong(mods: string) {
    mods != [] && (mods[0] == 'l' || mods[0] == 'z' || HasLong(mods[1..]))
  }

  // What the format s prints in full and the arguments it leaves.
  function Render(s: string, args: seq<Arg>): (string, seq<Arg>) {
    if s == [] then ("", args)
    else if s[0] != '%' then
      var (text, rest) := Render(s[1..], args);
      ([s[0]] + text, rest)
    else
      var n := Modifiers(s[1..]);
      if 1 + n == |s| then ("", args)
      else
        var c := s[1 + n];
        var shown := Convert(c, HasLong(s[1..1 + n]), Head(args));
        var (text, rest) := Render(s[2 + n..], if TakesArg(c) then Tail(args) else args);
        (shown + text, rest)
  }

  // Copies text while there is room below limit.
  method Emit(buf: array<char>, start: nat, limit: nat, text: string) returns (idx: nat)
    requires start <= limit < buf.Length
    modifies buf
    ensures idx == Min(start + |text|, limit)
    ensures buf[..idx] == old(buf[..start]) + text[..idx - start]
    ensures forall i :: limit < i < buf.Length ==> buf[i] == old(buf[i])
  {
    idx := start;
    var j := 0;
    while j < |text| && idx < limit
      invariant j <= |text| && idx == start + j <= limit
      invariant buf[..idx] == old(buf[..start]) + text[..j]
      invariant forall i :: limit < i < buf.Length ==> buf[i] == old(buf[i])
    {
      buf[idx] := text[j];
      assert text[..j + 1] == text[..j] + [text[j]];
      assert buf[..idx + 1] == buf[..idx] + [text[j]];
      idx := idx + 1;
      j := j + 1;
    }
  }

  // Copies a NUL-terminated buffer while there is room below limit.
  method EmitBuffer(buf: array<char>, start: nat, limit: nat, src: array<char>, ghost len: nat) returns (idx: nat)
    requires start <= limit < buf.Length && buf != src
    requires len < src.Length && src[len] == NUL && forall j :: 0 <= j < len ==> src[j] != NUL
    modifies buf
    ensures idx == Min(start + len, limit)
    ensures buf[..idx] == old(buf[..start]) + src[..len][..idx - start]
    ensures forall i :: limit < i < buf.Length ==> buf[i] == old(buf[i])
  {
    idx := start;
    var j := 0;
    while src[j] != NUL && idx < limit
      invariant j <= len && idx == start + j <= limit
      invariant buf[..idx] == old(buf[..start]) + src[..j]
      invariant forall i :: limit < i < buf.Length ==> buf[i] == old(buf[i])
      decreases len - j
    {
      buf[idx] := src[j];
      assert buf[..idx + 1] == buf[..idx] + [src[j]];
      idx := idx + 1;
      j := j + 1;
    }
    assert src[..len][..j] == src[..j];
  }

  // One conversion of kvsnprintf: formats into a local buffer where the kernel does.
  method EmitConversion(buf: array<char>, start: nat, limit: nat, c: char, isLong: bool, a: Arg) returns (idx: nat)
    requires start < limit < buf.Length
    modifies buf
    ensures idx == Min(start + |Convert(c, isLong, a)|, limit) && idx <= limit
    ensures buf[..idx] == old(buf[..start]) + Convert(c, isLong, a)[..idx - start]
    ensures forall i :: limit < i < buf.Length ==> buf[i] == old(buf[i])
  {
    hide Decimal, Digits;
    ghost var shown := Convert(c, isLong, a);
    if IsInteger(c) {
      var num := if isLong then Signed64(a.bits) else Signed32(a.bits);
      var str := new char[64];
      ghost var len := IntToString(num, str);
      DecimalRoundTrip(num);
      NoNulInside(str[..len]);
      idx := EmitBuffer(buf, start, limit, str, len);
    } else if IsHex(c) {
      var hex := new char[32];
      ghost var len := IntToHexString(Unsigned64(a.bits), hex);
      DigitsRoundTrip(Unsigned64(a.bits), 16);
      NoNulInside(hex[..len]);
      idx := EmitBuffer(buf, start, limit, hex, len);
    } else if c == 's' {
      idx := Emit(buf, start, limit, CString(a));
    } else {
      buf[start] := if c == 'c' then (a.bits % 256) as char else c;
      idx := start + 1;
      assert buf[..idx] == buf[..start] + shown;
    }
  }

  lemma NoNulInside(s: string)
    requires forall c :: c in s ==> c != NUL
    ensures forall j :: 0 <= j < |s| ==> s[j] != NUL
  {
    forall j | 0 <= j < |s|
      ensures s[j] != NUL
    {
      assert s[j] in s;
    }
  }

  lemma {:induction false} HasLongAppend(mods: string, c: char)
    ensures HasLong(mods + [c]) == (HasLong(mods) || c == 'l' || c == 'z')
  {
    if mods != [] {
      assert (mods + [c])[1..] == mods[1..] + [c];
      HasLongAppend(mods[1..], c);
    }
  }

  // The length-modifier loop from position i.
  method SkipModifiers(fmt: string, i: nat) returns (j: nat, isLong: bool)
    requires i <= |fmt|
    ensures j == i + Modifiers(fmt[i..]) && isLong == HasLong(fmt[i..j])
  {
    j, isLong := i, false;
    while j < |fmt| && IsModifier(fmt[j])
      invariant i <= j <= |fmt| && Modifiers(fmt[i..]) == (j - i) + Modifiers(fmt[j..])
      invariant isLong == HasLong(fmt[i..j])
    {
      HasLongAppend(fmt[i..j], fmt[j]);
      assert fmt[i..j] + [fmt[j]] == fmt[i..j + 1];
      assert fmt[j..][1..] == fmt[j + 1..];
      if fmt[j] == 'l' || fmt[j] == 'z' {
        isLong := true;
      }
      j := j + 1;
    }
  }

  function Prepend(shown: string, r: (string, seq<Arg>)): (string, seq<Arg>) {
    (shown + r.0, r.1)
  }

  function RenderConversion(fmt: string, i: nat, j: nat, args: seq<Arg>): (string, seq<Arg>)
    requires i < j < |fmt|
  {
    Prepend(Convert(fmt[j], HasLong(fmt[i + 1..j]), Head(args)),
            Render(fmt[j + 1..], if TakesArg(fmt[j]) then Tail(args) else args))
  }

  // Every % is followed, after its modifiers, by a conversion character.
  predicate Complete(s: string) {
    if s == [] then true
    else if s[0] != '%' then Complete(s[1..])
    else
      var n := Modifiers(s[1..]);
      1 + n < |s| && Complete(s[2 + n..])
  }

  // A lone % is not complete.
  lemma LonePercent()
    ensures !Complete("%") && Render("%", []) == ("", [])
  {
  }

  // Rendering a format whose first character is at position i of fmt.
  lemma RenderAt(fmt: string, i: nat, args: seq<Arg>)
    requires i < |fmt|
    ensures fmt[i] != '%' ==> Render(fmt[i..], args) == Prepend([fmt[i]], Render(fmt[i + 1..], args))
    ensures fmt[i] != '%' ==> Complete(fmt[i..]) == Complete(fmt[i + 1..])
    ensures var j := i + 1 + Modifiers(fmt[i + 1..]);
      && (fmt[i] == '%' && j == |fmt| ==> Render(fmt[i..], args) == ("", args) && !Complete(fmt[i..]))
      && (fmt[i] == '%' && j < |fmt| ==> Complete(fmt[i..]) == Complete(fmt[j + 1..]))
      && (fmt[i] == '%' && j < |fmt| ==> Render(fmt[i..], args) == RenderConversion(fmt, i, j, args))
  {
    var s, n := fmt[i..], Modifiers(fmt[i + 1..]);
    assert s[1..] == fmt[i + 1..];
    assert s[1..1 + n] == fmt[i + 1..i + 1 + n];
    if i + 1 + n < |fmt| {
      assert s[2 + n..] == fmt[i + 2 + n..];
    }
  }

  // The text so far is a prefix of the whole; while there is room, what is left of the
  // format prints the rest.
  ghost predicate Printed(full: string, done: string, limit: nat, rest: string) {
    && |done| <= limit && |done| <= |full| && done == full[..|done|]
    && (|done| < limit ==> full == done + rest)
  }

  lemma PrintMore(full: string, done: string, limit: nat, shown: string, rest: string, done': string)
    requires Printed(full, done, limit, shown + rest) && |done| < limit
    requires |done'| == Min(|done| + |shown|, limit) && done' == done + shown[..|done'| - |done|]
    ensures Printed(full, done', limit, rest)
  {
    assert full == done + (shown + rest);
  }

  // kvsnprintf prints exactly the first size - 1 characters of the full text, then NUL.
  method Kvsnprintf(buf: array<char>, size: nat, fmt: string, args: seq<Arg>) returns (idx: nat)
    requires 1 <= size <= buf.Length
    modifies buf
    ensures idx == Min(|Render(fmt, args).0|, size - 1)
    ensures buf[..idx] == Render(fmt, args).0[..idx] && buf[idx] == NUL
    ensures buf[size..] == old(buf[size..])
  {
    hide *;
    ghost var full := Render(fmt, args).0;
    idx := 0;
    var i, left := 0, args;
    assert fmt[0..] == fmt && buf[..0] == [];
    NothingPrinted(full, size - 1);
    while i < |fmt| && idx < size - 1
      invariant i <= |fmt| && idx <= size - 1
      invariant Printed(full, buf[..idx], size - 1, Render(fmt[i..], left).0)
      invariant forall k :: size - 1 < k < buf.Length ==> buf[k] == old(buf[k])
    {
      ghost var done := buf[..idx];
      if fmt[i] != '%' {
        PrintPlain(full, done, size - 1, fmt, i, left);
        buf[idx] := fmt[i];
        assert buf[..idx + 1] == done + [fmt[i]];
        idx := idx + 1;
        i := i + 1;
      } else {
        var j, isLong := SkipModifiers(fmt, i + 1);
        if j == |fmt| {
          PrintNoMore(fmt, i, j, left);
          i := j;
        } else {
          idx := EmitConversion(buf, idx, size - 1, fmt[j], isLong, Head(left));
          PrintConverted(full, done, size - 1, fmt, i, j, left, buf[..idx]);
          left := if TakesArg(fmt[j]) then Tail(left) else left;
          i := j + 1;
        }
      }
    }
    AllPrinted(full, buf[..idx], size - 1, fmt, i, left);
    ghost var done := buf[..idx];
    buf[idx] := NUL;
    assert buf[..idx] == done;
  }

  lemma PrintPlain(full: string, done: string, limit: nat, fmt: string, i: nat, left: seq<Arg>)
    requires i < |fmt| && fmt[i] != '%' && |done| < limit
    requires Printed(full, done, limit, Render(fmt[i..], left).0)
    ensures Printed(full, done + [fmt[i]], limit, Render(fmt[i + 1..], left).0)
  {
    hide Render, Printed;
    RenderAt(fmt, i, left);
    PrintMore(full, done, limit, [fmt[i]], Render(fmt[i + 1..], left).0, done + [fmt[i]]);
  }

  lemma PrintNoMore(fmt: string, i: nat, j: nat, left: seq<Arg>)
    requires i < |fmt| && fmt[i] == '%' && j == i + 1 + Modifiers(fmt[i + 1..]) && j == |fmt|
    ensures Render(fmt[i..], left).0 == Render(fmt[j..], left).0
  {
    hide Render;
    RenderAt(fmt, i, left);
    RenderEnd(left);
    assert fmt[j..] == [];
  }

  lemma PrintConverted(full: string, done: string, limit: nat, fmt: string, i: nat, j: nat, left: seq<Arg>, done': string)
    requires i < |fmt| && fmt[i] == '%' && j == i + 1 + Modifiers(fmt[i + 1..]) && j < |fmt|
    requires |done| < limit && Printed(full, done, limit, Render(fmt[i..], left).0)
    requires var shown := Convert(fmt[j], HasLong(fmt[i + 1..j]), Head(left));
      |done'| == Min(|done| + |shown|, limit) && done' == done + shown[..|done'| - |done|]
    ensures var rest := if TakesArg(fmt[j]) then Tail(left) else left;
      Printed(full, done', limit, Render(fmt[j + 1..], rest).0)
  {
    hide Render, Printed, Convert, Modifiers, HasLong, TakesArg, Head, Tail;
    RenderAt(fmt, i, left);
    var rest := if TakesArg(fmt[j]) then Tail(left) else left;
    PrintMore(full, done, limit, Convert(fmt[j], HasLong(fmt[i + 1..j]), Head(left)), Render(fmt[j + 1..], rest).0, done');
  }

  lemma NothingPrinted(full: string, limit: nat)
    ensures Printed(full, "", limit, full)
  {
  }

  lemma AllPrinted(full: string, done: string, limit: nat, fmt: string, i: nat, left: seq<Arg>)
    requires i <= |fmt| && (i == |fmt| || |done| == limit) && Printed(full, done, limit, Render(fmt[i..], left).0)
    ensures |done| == Min(|full|, limit) && done == full[..|done|]
  {
    if i == |fmt| {
      RenderEnd(left);
      assert fmt[i..] == [];
    }
  }

  lemma RenderEnd(args: seq<Arg>)
    ensures Render("", args) == ("", args) && Complete("")
  {
  }

  // consume_format_args skips exactly the arguments the format prints. It only stops at
  // a NUL it has not stepped over: ok is false when the format ends inside a
  // conversion, where the kernel would read on past the terminator.
  method ConsumeFormatArgs(fmt: string, args: seq<Arg>) returns (ok: bool, rest: seq<Arg>)
    ensures ok == Complete(fmt)
    ensures ok ==> rest == Render(fmt, args).1
  {
    hide Render, Convert, HasLong, Modifiers, Complete;
    var i := 0;
    rest := args;
    assert fmt[0..] == fmt;
    while i < |fmt|
      invariant i <= |fmt| && Render(fmt, args).1 == Render(fmt[i..], rest).1
      invariant Complete(fmt) == Complete(fmt[i..])
    {
      RenderAt(fmt, i, rest);
      if fmt[i] != '%' {
        i := i + 1;
      } else {
        var j, isLong := SkipModifiers(fmt, i + 1);
        if j == |fmt| {
          return false, rest;
        }
        if TakesArg(fmt[j]) {
          rest := Tail(rest);
        }
        i := j + 1;
      }
    }
    RenderEnd(rest);
    assert fmt[i..] == [];
    ok := true;
  }

  // What kprint is called with: a colour and a text.
  type Output = seq<(nat, string)>

  const SEGMENT_SIZE: nat := 1024

  // The part of a segment that fits the local buffer.
  function Cut(segment: string): string {
    if |segment| >= SEGMENT_SIZE then segment[..SEGMENT_SIZE - 1] else segment
  }

  // flush_formatted_segment. The text is printed before the arguments are skipped, so
  // it is there even when the skipping runs off the end of the format.
  method FlushSegment(segment: string, color: nat, args: seq<Arg>) returns (ok: bool, out: Output, rest: seq<Arg>)
    ensures ok == Complete(Cut(segment)) && out == Flushed(segment, color, args).0
    ensures ok ==> rest == Flushed(segment, color, args).1
  {
    if segment == [] {
      return true, [], args;
    }
    var fmt := if |segment| >= SEGMENT_SIZE then segment[..SEGMENT_SIZE - 1] else segment;
    var buffer := new char[1024];
    var n := Kvsnprintf(buffer, 1024, fmt, args);
    out := [(color, buffer[..n])];
    ok, rest := ConsumeFormatArgs(fmt, args);
  }

  function Flushed(segment: string, color: nat, args: seq<Arg>): (Output, seq<Arg>) {
    if segment == [] then ([], args)
    else
      var (text, rest) := Render(Cut(segment), args);
      ([(color, text[..Min(|text|, SEGMENT_SIZE - 1)])], rest)
  }

  // The position of the first %C of s, or its length.
  function FindColor(s: string): (n: nat)
    ensures n <= |s| && (n < |s| ==> n + 1 < |s| && s[n] == '%' && s[n + 1] == 'C')
  {
    if |s| < 2 then |s|
    else if s[0] == '%' && s[1] == 'C' then 0
    else 1 + FindColor(s[1..])
  }

  // kprintf from the start of a segment on: segments end at %C, which takes the next
  // argument as the colour of the following segment.
  function Printf(s: string, color: nat, args: seq<Arg>): Output
    decreases |s|
  {
    var n := FindColor(s);
    var (out, rest) := Flushed(s[..n], color, args);
    if n == |s| then out
    else out + Printf(s[n + 2..], Head(rest).bits % 0x1_0000_0000, Tail(rest))
  }

  // Every segment is complete, as far as it fits the buffer.
  predicate SegmentsComplete(s: string)
    decreases |s|
  {
    var n := FindColor(s);
    Complete(Cut(s[..n])) && (n < |s| ==> SegmentsComplete(s[n + 2..]))
  }

  predicate ColorAt(fmt: string, i: nat) {
    i + 1 < |fmt| && fmt[i] == '%' && fmt[i + 1] == 'C'
  }

  lemma FindColorAt(fmt: string, i: nat)
    requires i <= |fmt|
    ensures ColorAt(fmt, i) == (i + 1 < |fmt| && fmt[i] == '%' && fmt[i + 1] == 'C')
    ensures i == |fmt| ==> FindColor(fmt[i..]) == 0
    ensures ColorAt(fmt, i) ==> FindColor(fmt[i..]) == 0
    ensures i < |fmt| && !ColorAt(fmt, i) ==> FindColor(fmt[i..]) == 1 + FindColor(fmt[i + 1..])
  {
    if i < |fmt| {
      assert fmt[i..][1..] == fmt[i + 1..];
      assert i + 1 == |fmt| ==> fmt[i + 1..] == [];
    }
  }

  // What is left to print when the segment from start ends at i.
  lemma PrintfAt(fmt: string, start: nat, i: nat, color: nat, args: seq<Arg>)
    requires start <= i <= |fmt| && FindColor(fmt[start..]) == i - start
    ensures i < |fmt| ==> i + 2 <= |fmt|
    ensures SegmentsComplete(fmt[start..]) ==
      (Complete(Cut(fmt[start..i])) && (i < |fmt| ==> SegmentsComplete(fmt[i + 2..])))
    ensures var (out, rest) := Flushed(fmt[start..i], color, args);
      Printf(fmt[start..], color, args) ==
        if i == |fmt| then out else out + Printf(fmt[i + 2..], Head(rest).bits % 0x1_0000_0000, Tail(rest))
  {
    var s, n := fmt[start..], i - start;
    assert s[..n] == fmt[start..i];
    if i < |fmt| {
      assert s[n + 2..] == fmt[i + 2..];
    }
  }

  lemma OutputJoins(out: Output, piece: Output, rest: Output)
    ensures out + (piece + rest) == (out + piece) + rest
  {
  }

  // The loop of kprintf, character by character. ok is false when a segment ends
  // inside a conversion, where the kernel would skip arguments past its terminator.
  method Kprintf(defaultColor: nat, fmt: string, args: seq<Arg>) returns (ok: bool, out: Output)
    ensures ok == SegmentsComplete(fmt)
    ensures ok ==> out == Printf(fmt, defaultColor, args)
  {
    hide *;
    var color: nat := defaultColor;
    var start, i, left := 0, 0, args;
    out := [];
    assert fmt[0..] == fmt;
    while i < |fmt|
      invariant start <= i <= |fmt|
      invariant FindColor(fmt[start..]) == (i - start) + FindColor(fmt[i..])
      invariant SegmentsComplete(fmt[start..]) == SegmentsComplete(fmt)
      invariant out + Printf(fmt[start..], color, left) == Printf(fmt, defaultColor, args)
    {
      FindColorAt(fmt, i);
      if fmt[i] == '%' && i + 1 < |fmt| && fmt[i + 1] == 'C' {
        PrintfAt(fmt, start, i, color, left);
        var piece;
        ok, piece, left := FlushSegment(fmt[start..i], color, left);
        OutputJoins(out, piece, Printf(fmt[i + 2..], Head(left).bits % 0x1_0000_0000, Tail(left)));
        out := out + piece;
        if !ok { return; }
        color := Head(left).bits % 0x1_0000_0000;
        left := Tail(left);
        i := i + 2;
        start := i;
      } else {
        i := i + 1;
      }
    }
    FindColorAt(fmt, i);
    PrintfAt(fmt, start, i, color, left);
    var piece;
    ok, piece, left := FlushSegment(fmt[start..i], color, left);
    out := out + piece;
  }
}
