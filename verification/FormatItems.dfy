// kprintf's segments against one left-to-right pass over the format (screen.c): every
// complete format is the text of plain characters, conversions and colours.
module FormatItems {
  import opened Wrappers
  import opened Words
  import opened Printers
  import opened Format

  // A format as its author means it: plain characters, complete conversions, colours.
  datatype Item = Lit(c: char) | Conv(mods: string, c: char) | Color

  predicate ItemOk(x: Item) {
    match x
    case Lit(c) => c != '%'
    case Conv(mods, c) => (forall l :: l in mods ==> l in "lzh") && c !in "lzh" && !(mods == "" && c == 'C')
    case Color => true
  }

  // The characters that read an argument.
  predicate Reads(c: char) { c in "diuxpsc" }

  // The number a signed conversion shows: the low bits of its argument in two's
  // complement, 64 with l or z, 32 without.
  function Number(mods: string, bits: nat): int {
    var size := if 'l' in mods || 'z' in mods then 0x1_0000_0000_0000_0000 else 0x1_0000_0000;
    if bits % size < size / 2 then bits % size else bits % size - size
  }

  // What a conversion shows of its argument.
  function Shown(mods: string, c: char, a: Arg): string {
    if c in "diu" then Decimal(Number(mods, a.bits))
    else if c in "xp" then Digits(a.bits % 0x1_0000_0000_0000_0000, 16)
    else if c == 's' then (match a.text case Some(s) => s case None => "(null)")
    else if c == 'c' then [(a.bits % 256) as char]
    else [c]
  }

  // That is: text that reads back to the number, in the shortest form.
  lemma ShownMeans(mods: string, c: char, a: Arg)
    ensures c in "diu" ==>
      var n, size := ParseDecimal(Shown(mods, c, a)), if 'l' in mods || 'z' in mods then 0x1_0000_0000_0000_0000 else 0x1_0000_0000;
      -size <= 2 * n < size && (n - a.bits) % size == 0
    ensures c in "xp" ==> Value(Shown(mods, c, a), 16) == a.bits % 0x1_0000_0000_0000_0000
    ensures c in "xp" ==> Shown(mods, c, a) == "0" || Shown(mods, c, a)[0] != '0'
    ensures c in "xp" ==> forall d :: d in Shown(mods, c, a) ==> d in "0123456789ABCDEF"
    ensures c == 's' ==> Shown(mods, c, a) == if a.text.Some? then a.text.value else "(null)"
    ensures c == 'c' ==> |Shown(mods, c, a)| == 1 && Shown(mods, c, a)[0] as int == a.bits % 256
    ensures !Reads(c) ==> Shown(mods, c, a) == [c]
  {
    if c in "diu" {
      DecimalRoundTrip(Number(mods, a.bits));
      NumberMeans(mods, a.bits);
    } else if c in "xp" {
      DigitsRoundTrip(a.bits % 0x1_0000_0000_0000_0000, 16);
      DigitsAreShortest(a.bits % 0x1_0000_0000_0000_0000, 16);
    }
  }

  lemma NumberMeans(mods: string, bits: nat)
    ensures var n, size := Number(mods, bits), if 'l' in mods || 'z' in mods then 0x1_0000_0000_0000_0000 else 0x1_0000_0000;
      -size <= 2 * n < size && (n - bits) % size == 0
  {
    if 'l' in mods || 'z' in mods {
      Congruent64(bits);
    } else {
      Congruent32(bits);
    }
  }

  lemma Congruent64(bits: nat)
    ensures (bits % 0x1_0000_0000_0000_0000 - bits) % 0x1_0000_0000_0000_0000 == 0
    ensures (bits % 0x1_0000_0000_0000_0000 - 0x1_0000_0000_0000_0000 - bits) % 0x1_0000_0000_0000_0000 == 0
  {
  }

  lemma Congruent32(bits: nat)
    ensures (bits % 0x1_0000_0000 - bits) % 0x1_0000_0000 == 0
    ensures (bits % 0x1_0000_0000 - 0x1_0000_0000 - bits) % 0x1_0000_0000 == 0
  {
  }

  // The formatter reads and shows exactly that.
  lemma ConvertIsShown(mods: string, c: char, a: Arg)
    ensures Convert(c, HasLong(mods), a) == Shown(mods, c, a) && TakesArg(c) == Reads(c)
  {
    LongMeans(mods);
  }

  lemma {:induction false} LongMeans(mods: string)
    ensures HasLong(mods) <==> 'l' in mods || 'z' in mods
  {
    if mods != [] {
      LongMeans(mods[1..]);
      assert mods == [mods[0]] + mods[1..];
    }
  }

  lemma {:induction false} ModifiersMean(mods: string)
    ensures Modifiers(mods) == |mods| <==> forall l :: l in mods ==> l in "lzh"
    ensures forall c :: IsModifier(c) <==> c in "lzh"
  {
    if mods != [] {
      ModifiersMean(mods[1..]);
      assert mods == [mods[0]] + mods[1..];
    }
  }

  // Each reading takes the next argument.
  lemma ArgumentsInOrder(a: Arg, rest: seq<Arg>)
    ensures Head([a] + rest) == a && Tail([a] + rest) == rest
  {
  }

  function ItemText(x: Item): (s: string)
    ensures s != []
  {
    match x
    case Lit(c) => [c]
    case Conv(mods, c) => ['%'] + mods + [c]
    case Color => "%C"
  }

  function Text(items: seq<Item>): string {
    if items == [] then "" else ItemText(items[0]) + Text(items[1..])
  }

  // A %% directly followed by a C.
  predicate Clash(x: Item, y: Item) {
    x.Conv? && x.c == '%' && y == Lit('C')
  }

  predicate NoClash(items: seq<Item>) {
    forall i :: 0 <= i < |items| - 1 ==> !Clash(items[i], items[i + 1])
  }

  ghost predicate ItemsOk(items: seq<Item>) {
    (forall x :: x in items ==> ItemOk(x)) && NoClash(items)
  }

  // One left-to-right pass over items without colours.
  function Pass(items: seq<Item>, args: seq<Arg>): (string, seq<Arg>) {
    if items == [] then ("", args)
    else match items[0]
      case Lit(c) => Prepend([c], Pass(items[1..], args))
      case Conv(mods, c) =>
        Prepend(Shown(mods, c, Head(args)), Pass(items[1..], if Reads(c) then Tail(args) else args))
      case Color => Pass(items[1..], Tail(args))
  }

  function FirstColor(items: seq<Item>): (n: nat)
    ensures n <= |items| && (n < |items| ==> items[n].Color?)
    ensures forall i :: 0 <= i < n ==> !items[i].Color?
  {
    if items == [] || items[0].Color? then 0 else 1 + FirstColor(items[1..])
  }

  // The reference: each item in turn, colours starting a new piece of output.
  function OnePass(items: seq<Item>, color: nat, args: seq<Arg>): Output
    decreases |items|
  {
    var n := FirstColor(items);
    var (text, rest) := Pass(items[..n], args);
    var out := if n == 0 then [] else [(color, text[..Min(|text|, SEGMENT_SIZE - 1)])];
    if n == |items| then out
    else out + OnePass(items[n + 1..], Head(rest).bits % 0x1_0000_0000, Tail(rest))
  }

  // Every segment fits the buffer.
  predicate ShortSegments(s: string)
    decreases |s|
  {
    var n := FindColor(s);
    n < SEGMENT_SIZE && (n < |s| ==> ShortSegments(s[n + 2..]))
  }

  lemma {:induction false} ModifiersStop(mods: string, c: char, t: string)
    requires Modifiers(mods) == |mods| && !IsModifier(c)
    ensures Modifiers(mods + [c] + t) == |mods|
  {
    if mods != [] {
      assert (mods + [c] + t)[1..] == mods[1..] + [c] + t;
      ModifiersStop(mods[1..], c, t);
    } else {
      assert (mods + [c] + t)[0] == c;
    }
  }

  function PassItem(x: Item, args: seq<Arg>, t: string): (string, seq<Arg>) {
    match x
    case Lit(c) => Prepend([c], Render(t, args))
    case Conv(mods, c) =>
      Prepend(Shown(mods, c, Head(args)), Render(t, if Reads(c) then Tail(args) else args))
    case Color => Render(t, args)
  }

  // One item at the front of a format.
  lemma RenderItem(x: Item, t: string, args: seq<Arg>)
    requires ItemOk(x) && !x.Color?
    ensures Render(ItemText(x) + t, args) == PassItem(x, args, t)
    ensures Complete(ItemText(x) + t) == Complete(t)
  {
    hide Convert, HasLong, Render, Complete, Head, Tail, Modifiers, IsModifier, Shown;
    match x
    case Lit(c) => RenderPlain(c, t, args);
    case Conv(mods, c) =>
      ModifiersMean(mods);
      ConvertIsShown(mods, c, Head(args));
      RenderConverted(mods, c, t, args);
  }

  lemma RenderPlain(c: char, t: string, args: seq<Arg>)
    requires c != '%'
    ensures Render([c] + t, args) == Prepend([c], Render(t, args)) && Complete([c] + t) == Complete(t)
  {
    hide Convert, HasLong, Render, Complete, Head, Tail;
    var s := [c] + t;
    RenderAt(s, 0, args);
    assert s[0..] == s && s[1..] == t;
  }

  lemma RenderConverted(mods: string, c: char, t: string, args: seq<Arg>)
    requires Modifiers(mods) == |mods| && !IsModifier(c)
    ensures Render(['%'] + mods + [c] + t, args) ==
      Prepend(Convert(c, HasLong(mods), Head(args)), Render(t, if TakesArg(c) then Tail(args) else args))
    ensures Complete(['%'] + mods + [c] + t) == Complete(t)
  {
    hide Convert, HasLong, Render, Complete, Head, Tail, TakesArg, IsModifier, Modifiers, Prepend;
    var s, j := ['%'] + mods + [c] + t, 1 + |mods|;
    RenderAt(s, 0, args);
    ModifiersStop(mods, c, t);
    assert s[0..] == s && s[1..] == mods + [c] + t && s[1..j] == mods && s[j + 1..] == t && s[j] == c;
  }

  // kvsnprintf on a colourless segment is the pass over its items.
  lemma {:induction false} RenderIsPass(items: seq<Item>, args: seq<Arg>)
    requires ItemsOk(items) && forall x :: x in items ==> !x.Color?
    ensures Render(Text(items), args) == Pass(items, args) && Complete(Text(items))
  {
    hide Convert, HasLong, NoClash, Render, Complete, Head, Tail, ItemText, Prepend;
    RenderEnd(args);
    if items != [] {
      var x, rest := items[0], items[1..];
      assert x in items;
      TailOk(items);
      RenderItem(x, Text(rest), args);
      RenderIsPass(rest, if x.Conv? && Reads(x.c) then Tail(args) else args);
    }
  }

  lemma TailOk(items: seq<Item>)
    requires ItemsOk(items) && items != []
    ensures ItemsOk(items[1..])
  {
    var rest := items[1..];
    forall i | 0 <= i < |rest| - 1
      ensures !Clash(rest[i], rest[i + 1])
    {
      assert rest[i] == items[i + 1] && rest[i + 1] == items[i + 2];
    }
  }

  // A text without %C inside it, whose last character is not a % before a C, is skipped.
  lemma {:induction false} SkipText(a: string, t: string)
    requires forall i :: 0 <= i < |a| ==> !ColorAt(a + t, i)
    ensures FindColor(a + t) == |a| + FindColor(t)
  {
    if a == [] {
      assert a + t == t;
    } else {
      var s := a + t;
      FindColorAt(s, 0);
      assert s[0..] == s && s[1..] == a[1..] + t;
      assert !ColorAt(s, 0);
      forall i | 0 <= i < |a[1..]|
        ensures !ColorAt(a[1..] + t, i)
      {
        assert !ColorAt(s, i + 1);
      }
      SkipText(a[1..], t);
    }
  }

  // The first %C of the text is the first colour item.
  ghost predicate ColorFound(items: seq<Item>, s: string, m: nat, n: nat)
    requires n <= |items| && m <= |s|
  {
    && s[..m] == Text(items[..n])
    && (n == |items| ==> m == |s|)
    && (n < |items| ==> m + 2 <= |s| && s[m + 2..] == Text(items[n + 1..]))
  }

  lemma {:induction false} ColorsAreFound(items: seq<Item>)
    requires ItemsOk(items)
    ensures ColorFound(items, Text(items), FindColor(Text(items)), FirstColor(items))
  {
    hide ItemsOk, ItemText, FindColor;
    if items == [] {
    } else if items[0].Color? {
      ColorInFront(items);
    } else {
      TailOk(items);
      ColorsAreFound(items[1..]);
      FirstIsOk(items);
      ItemIsSkipped(items);
      FoundAfterItem(items, Text(items[1..]), FindColor(Text(items[1..])), FirstColor(items[1..]));
    }
  }

  lemma FirstIsOk(items: seq<Item>)
    requires ItemsOk(items) && items != []
    ensures ItemOk(items[0]) && (|items| >= 2 ==> !Clash(items[0], items[1]))
  {
  }

  lemma ColorInFront(items: seq<Item>)
    requires items != [] && items[0].Color?
    ensures FindColor(Text(items)) == 0 && ColorFound(items, Text(items), 0, 0)
  {
    var s := Text(items);
    assert s == "%C" + Text(items[1..]);
    assert s[0] == '%' && s[1] == 'C' && s[2..] == Text(items[1..]) && items[..0] == [];
  }

  lemma FoundAfterItem(items: seq<Item>, t: string, m: nat, n: nat)
    requires items != [] && n <= |items[1..]| && t == Text(items[1..]) && m <= |t|
    requires ColorFound(items[1..], t, m, n)
    ensures ColorFound(items, ItemText(items[0]) + t, |ItemText(items[0])| + m, n + 1)
  {
    hide ItemText;
    var a, rest := ItemText(items[0]), items[1..];
    var s, front := a + t, items[..n + 1];
    assert front[1..] == rest[..n] && front[0] == items[0];
    assert s[..|a| + m] == a + t[..m];
    if n < |rest| {
      assert s[|a| + m + 2..] == t[m + 2..];
      assert items[n + 2..] == rest[n + 1..];
    }
  }

  lemma ItemIsSkipped(items: seq<Item>)
    requires items != [] && ItemOk(items[0]) && !items[0].Color?
    requires |items| >= 2 ==> !Clash(items[0], items[1])
    ensures FindColor(Text(items)) == |ItemText(items[0])| + FindColor(Text(items[1..]))
  {
    var a, t := ItemText(items[0]), Text(items[1..]);
    if t != "" {
      FirstCharOf(items[1..]);
    }
    forall i | 0 <= i < |a|
      ensures !ColorAt(a + t, i)
    {
      NoColorInside(items[0], t, i);
    }
    hide ItemText, ColorAt, FindColor;
    SkipText(a, t);
  }

  lemma NoColorInside(x: Item, t: string, i: nat)
    requires ItemOk(x) && !x.Color? && i < |ItemText(x)|
    requires x.Conv? && x.c == '%' && t != "" ==> t[0] != 'C'
    ensures !ColorAt(ItemText(x) + t, i)
  {
    if x.Conv? {
      ModifiersMean(x.mods);
      ModifiersAre(x.mods);
    }
  }

  lemma {:induction false} ModifiersAre(mods: string)
    requires Modifiers(mods) == |mods|
    ensures forall i :: 0 <= i < |mods| ==> IsModifier(mods[i])
  {
    if mods != [] {
      ModifiersAre(mods[1..]);
      forall i | 0 <= i < |mods|
        ensures IsModifier(mods[i])
      {
        assert i > 0 ==> mods[i] == mods[1..][i - 1];
      }
    }
  }

  lemma FirstCharOf(items: seq<Item>)
    requires Text(items) != []
    ensures items != [] && (Text(items)[0] == 'C' ==> items[0] == Lit('C'))
  {
  }

  lemma {:induction false} ItemsInOnePass(items: seq<Item>, color: nat, args: seq<Arg>)
    requires ItemsOk(items) && ShortSegments(Text(items))
    ensures SegmentsComplete(Text(items)) && Printf(Text(items), color, args) == OnePass(items, color, args)
    decreases |items|
  {
    hide ItemsOk, Render, Complete, Pass, FindColor, Text, FirstColor, Head, Tail, SegmentsComplete, ShortSegments, Printf;
    var n, s := FirstColor(items), Text(items);
    var first := items[..n];
    ColorsAreFound(items);
    SegmentOk(items, n);
    RenderIsPass(first, args);
    PrintfIs(s, color, args);
    FlushedIs(first, color, args);
    if n < |items| {
      SuffixOk(items, n + 1);
      var rest := Pass(first, args).1;
      ItemsInOnePass(items[n + 1..], Head(rest).bits % 0x1_0000_0000, Tail(rest));
    }
  }

  lemma FlushedIs(items: seq<Item>, color: nat, args: seq<Arg>)
    requires Render(Text(items), args) == Pass(items, args) && |Text(items)| < SEGMENT_SIZE
    ensures var (text, rest) := Pass(items, args);
      Flushed(Text(items), color, args) ==
        (if items == [] then [] else [(color, text[..Min(|text|, SEGMENT_SIZE - 1)])], rest)
  {
  }

  lemma PrintfIs(s: string, color: nat, args: seq<Arg>)
    ensures var n := FindColor(s); var (out, rest) := Flushed(s[..n], color, args);
      && Printf(s, color, args) ==
        (if n == |s| then out else out + Printf(s[n + 2..], Head(rest).bits % 0x1_0000_0000, Tail(rest)))
      && SegmentsComplete(s) == (Complete(Cut(s[..n])) && (n < |s| ==> SegmentsComplete(s[n + 2..])))
      && ShortSegments(s) == (n < SEGMENT_SIZE && (n < |s| ==> ShortSegments(s[n + 2..])))
      && (n < SEGMENT_SIZE ==> Cut(s[..n]) == s[..n])
  {
    hide *;
    PrintfStep(s, color, args);
    SegmentsStep(s);
    ShortStep(s);
    ShortIsUncut(s[..FindColor(s)]);
  }

  lemma PrintfStep(s: string, color: nat, args: seq<Arg>)
    ensures var n := FindColor(s); var (out, rest) := Flushed(s[..n], color, args);
      Printf(s, color, args) ==
        if n == |s| then out else out + Printf(s[n + 2..], Head(rest).bits % 0x1_0000_0000, Tail(rest))
  {
    hide FindColor, Flushed, Head, Tail;
  }

  lemma SegmentsStep(s: string)
    ensures var n := FindColor(s);
      SegmentsComplete(s) == (Complete(Cut(s[..n])) && (n < |s| ==> SegmentsComplete(s[n + 2..])))
  {
    hide FindColor, Complete, Cut;
  }

  lemma ShortStep(s: string)
    ensures var n := FindColor(s); ShortSegments(s) == (n < SEGMENT_SIZE && (n < |s| ==> ShortSegments(s[n + 2..])))
  {
    hide FindColor;
  }

  lemma ShortIsUncut(segment: string)
    ensures |segment| < SEGMENT_SIZE ==> Cut(segment) == segment
  {
  }

  lemma SegmentOk(items: seq<Item>, n: nat)
    requires ItemsOk(items) && n <= |items| && forall i :: 0 <= i < n ==> !items[i].Color?
    ensures ItemsOk(items[..n]) && forall x :: x in items[..n] ==> !x.Color?
  {
  }

  lemma SuffixOk(items: seq<Item>, n: nat)
    requires ItemsOk(items) && n <= |items|
    ensures ItemsOk(items[n..])
  {
    var rest := items[n..];
    forall i | 0 <= i < |rest| - 1
      ensures !Clash(rest[i], rest[i + 1])
    {
      assert rest[i] == items[n + i] && rest[i + 1] == items[n + i + 1];
    }
  }

  // ---- Every complete format is the text of its items ----

  function Parse(s: string): seq<Item>
    requires Complete(s)
  {
    if s == [] then []
    else if s[0] != '%' then [Lit(s[0])] + Parse(s[1..])
    else
      var n := Modifiers(s[1..]);
      [if n == 0 && s[1] == 'C' then Color else Conv(s[1..1 + n], s[1 + n])] + Parse(s[2 + n..])
  }

  // No conversion ending in % is directly followed by a C.
  predicate ClashFree(s: string) {
    if s == [] then true
    else if s[0] != '%' then ClashFree(s[1..])
    else
      var n := Modifiers(s[1..]);
      1 + n < |s| ==> !(s[1 + n] == '%' && 2 + n < |s| && s[2 + n] == 'C') && ClashFree(s[2 + n..])
  }

  lemma {:induction false} ModifiersFront(s: string)
    ensures var n := Modifiers(s); Modifiers(s[..n]) == n && (n < |s| ==> !IsModifier(s[n]))
  {
    if s != [] && IsModifier(s[0]) {
      ModifiersFront(s[1..]);
      var n := Modifiers(s);
      assert s[..n][1..] == s[1..][..n - 1];
    }
  }

  lemma {:induction false} ParseIs(s: string)
    requires Complete(s)
    ensures Text(Parse(s)) == s && forall x :: x in Parse(s) ==> ItemOk(x)
    ensures ClashFree(s) <==> NoClash(Parse(s))
    decreases |s|
  {
    if s != [] {
      var x, t := FirstItem(s);
      ParseIs(t);
      NoClashFront(x, Parse(t));
      if t != "" {
        StartsWithC(t);
      }
      hide ItemText, ItemOk, Complete, NoClash, ClashFree, Parse;
      var items := Parse(s);
      assert items[1..] == Parse(t) && items[0] == x;
    }
  }

  // A complete format is its first item followed by a complete format.
  ghost predicate Begins(s: string, x: Item, t: string)
    requires Complete(s)
  {
    && |t| < |s| && Complete(t) && Parse(s) == [x] + Parse(t) && ItemOk(x) && s == ItemText(x) + t
    && ClashFree(s) == (!(x.Conv? && x.c == '%' && t != "" && t[0] == 'C') && ClashFree(t))
  }

  lemma FirstItem(s: string) returns (x: Item, t: string)
    requires Complete(s) && s != []
    ensures Begins(s, x, t)
  {
    hide *;
    if s[0] != '%' {
      x, t := Lit(s[0]), s[1..];
      PlainFirst(s);
    } else {
      var n := Modifiers(s[1..]);
      ConversionFirst(s, n);
      x, t := ConversionItem(s, n), s[2 + n..];
    }
  }

  lemma PlainFirst(s: string)
    requires Complete(s) && s != [] && s[0] != '%'
    ensures Begins(s, Lit(s[0]), s[1..])
  {
  }

  function ConversionItem(s: string, n: nat): Item
    requires 1 + n < |s|
  {
    if n == 0 && s[1] == 'C' then Color else Conv(s[1..1 + n], s[1 + n])
  }

  lemma ConversionFirst(s: string, n: nat)
    requires Complete(s) && s != [] && s[0] == '%' && n == Modifiers(s[1..])
    ensures 1 + n < |s| && Begins(s, ConversionItem(s, n), s[2 + n..])
  {
    ConversionText(s, n);
    ConversionParses(s, n);
    hide ConversionItem, ItemText, Parse, ClashFree, ItemOk, Modifiers;
  }

  lemma ConversionParses(s: string, n: nat)
    requires Complete(s) && s != [] && s[0] == '%' && n == Modifiers(s[1..]) && 1 + n < |s|
    ensures var x, t := ConversionItem(s, n), s[2 + n..];
      && Complete(t) && Parse(s) == [x] + Parse(t)
      && ClashFree(s) == (!(x.Conv? && x.c == '%' && t != "" && t[0] == 'C') && ClashFree(t))
  {
    hide Modifiers;
  }

  lemma ConversionText(s: string, n: nat)
    requires Complete(s) && s != [] && s[0] == '%' && n == Modifiers(s[1..])
    ensures 1 + n < |s|
    ensures var x := ConversionItem(s, n); ItemOk(x) && s == ItemText(x) + s[2 + n..]
  {
    hide *;
    CompleteEnds(s, n);
    SplitAround(s, n);
    ConversionIsOk(s, n);
    if n == 0 && s[1] == 'C' {
      ColorText(s);
      ColorItem(s);
    } else {
      ConvItem(s, n);
    }
  }

  lemma ColorItem(s: string)
    requires |s| >= 2 && s[1] == 'C'
    ensures ItemText(ConversionItem(s, 0)) == "%C"
  {
  }

  lemma ConvItem(s: string, n: nat)
    requires 1 + n < |s| && s[0] == '%' && !(n == 0 && s[1] == 'C')
    ensures ItemText(ConversionItem(s, n)) == [s[0]] + s[1..1 + n] + [s[1 + n]]
  {
  }

  lemma ConversionIsOk(s: string, n: nat)
    requires 1 + n < |s| && n == Modifiers(s[1..])
    ensures ItemOk(ConversionItem(s, n))
  {
    ModifiersFront(s[1..]);
    ModifiersMean(s[1..][..n]);
    hide Modifiers, IsModifier;
    SplitAround(s, n);
  }

  lemma ColorText(s: string)
    requires |s| >= 2 && s[0] == '%' && s[1] == 'C'
    ensures s == "%C" + s[2..]
  {
  }

  lemma CompleteEnds(s: string, n: nat)
    requires Complete(s) && s != [] && s[0] == '%' && n == Modifiers(s[1..])
    ensures 1 + n < |s|
  {
  }

  lemma SplitAround(s: string, n: nat)
    requires 1 + n < |s|
    ensures s == [s[0]] + s[1..1 + n] + [s[1 + n]] + s[2 + n..]
    ensures s[1..][..n] == s[1..1 + n] && s[1..][n] == s[1 + n]
  {
  }

  lemma StartsWithC(t: string)
    requires Complete(t) && t != ""
    ensures Parse(t) != [] && (t[0] == 'C' <==> Parse(t)[0] == Lit('C'))
  {
  }

  lemma NoClashFront(x: Item, rest: seq<Item>)
    ensures NoClash([x] + rest) <==> (rest != [] ==> !Clash(x, rest[0])) && NoClash(rest)
  {
    var items := [x] + rest;
    forall i | 0 <= i < |rest|
      ensures items[i + 1] == rest[i]
    {
    }
    if NoClash(items) {
      if rest != [] {
        assert !Clash(items[0], items[1]);
      }
      forall i | 0 <= i < |rest| - 1
        ensures !Clash(rest[i], rest[i + 1])
      {
        assert !Clash(items[i + 1], items[i + 2]);
      }
    } else {
      var i :| 0 <= i < |items| - 1 && Clash(items[i], items[i + 1]);
      assert i > 0 ==> Clash(rest[i - 1], rest[i]);
    }
  }

  // For every complete format without a %%C and with short segments, kprintf gives
  // every conversion the argument a single left-to-right pass gives it.
  lemma PrintfIsOnePass(fmt: string, color: nat, args: seq<Arg>)
    requires Complete(fmt) && ShortSegments(fmt) && ClashFree(fmt)
    ensures SegmentsComplete(fmt) && Printf(fmt, color, args) == OnePass(Parse(fmt), color, args)
  {
    ParseIs(fmt);
    hide Complete, ShortSegments, ClashFree, Printf, OnePass, SegmentsComplete, Parse, NoClash, ItemOk;
    ItemsInOnePass(Parse(fmt), color, args);
  }

  // With a %%C, the splitting cuts a conversion in two, whatever the arguments.
  lemma ClashBreaksFormat(fmt: string)
    requires Complete(fmt) && ShortSegments(fmt)
    ensures SegmentsComplete(fmt) <==> ClashFree(fmt)
  {
    ParseIs(fmt);
    hide Complete, ShortSegments, ClashFree, Printf, OnePass, SegmentsComplete, Parse, NoClash, ItemOk;
    if ClashFree(fmt) {
      ItemsInOnePass(Parse(fmt), 0, []);
    } else {
      ClashBreaksItems(Parse(fmt));
    }
  }

  // The shortest such format.
  lemma PercentPercentC()
    ensures Complete("%%C") && ShortSegments("%%C") && !ClashFree("%%C") && !SegmentsComplete("%%C")
  {
    ClashBreaksFormat("%%C");
  }

  lemma {:induction false} ClashBreaksItems(items: seq<Item>)
    requires (forall x :: x in items ==> ItemOk(x)) && !NoClash(items) && ShortSegments(Text(items))
    ensures !SegmentsComplete(Text(items))
    decreases |items|
  {
    hide ItemOk, NoClash, Text, FindColor, Complete, SegmentsComplete, ShortSegments;
    var s := Text(items);
    PrintfIs(s, 0, []);
    var f := FirstBreak(items);
    if f < |items| {
      ClashBreaksItems(items[f + 1..]);
    }
  }

  // The first segment ends inside a conversion, or at colour f with the clash after it.
  ghost predicate BreaksAt(items: seq<Item>, s: string, n: nat, f: nat)
    requires f <= |items| && n <= |s|
  {
    && (f == |items| ==> !Complete(s[..n]))
    && (f < |items| ==> n + 2 <= |s| && s[n + 2..] == Text(items[f + 1..]) && !NoClash(items[f + 1..]))
  }

  lemma {:induction false} FirstBreak(items: seq<Item>) returns (f: nat)
    requires (forall x :: x in items ==> ItemOk(x)) && !NoClash(items)
    ensures f <= |items| && BreaksAt(items, Text(items), FindColor(Text(items)), f)
  {
    hide *;
    EmptyHasNoClash();
    var x, rest := items[0], items[1..];
    assert items == [x] + rest && x in items;
    NoClashFront(x, rest);
    if x.Color? {
      ColorInFront(items);
      BreaksAfterColor(items);
      f := 0;
    } else if rest != [] && Clash(x, rest[0]) {
      ClashInFront(items);
      f := |items|;
    } else {
      f := FirstBreak(rest);
      ItemIsSkipped(items);
      BreakAfterItem(items, Text(rest), FindColor(Text(rest)), f);
      f := f + 1;
    }
  }

  lemma EmptyHasNoClash()
    ensures NoClash([]) && forall x: Item, y: Item :: x.Color? ==> !Clash(x, y)
  {
  }

  lemma BreaksAfterColor(items: seq<Item>)
    requires items != [] && items[0].Color? && !NoClash(items[1..]) && ColorFound(items, Text(items), 0, 0)
    ensures BreaksAt(items, Text(items), 0, 0)
  {
    hide NoClash, Text;
  }

  lemma AfterPrefix(a: string, t: string, n: nat)
    requires n <= |t|
    ensures (a + t)[..|a| + n] == a + t[..n] && (n + 2 <= |t| ==> (a + t)[|a| + n + 2..] == t[n + 2..])
  {
  }

  lemma TextIs(items: seq<Item>)
    requires items != []
    ensures Text(items) == ItemText(items[0]) + Text(items[1..])
  {
  }

  lemma BreakAfterItem(items: seq<Item>, t: string, n: nat, f: nat)
    requires items != [] && ItemOk(items[0]) && !items[0].Color? && n <= |t| && f <= |items[1..]|
    requires t == Text(items[1..]) && BreaksAt(items[1..], t, n, f)
    ensures |ItemText(items[0])| + n <= |Text(items)|
    ensures BreaksAt(items, Text(items), |ItemText(items[0])| + n, f + 1)
  {
    hide ItemText, Complete, Text, NoClash, ItemOk;
    var x := items[0];
    TextIs(items);
    RenderItem(x, t[..n], []);
    AfterPrefix(ItemText(x), t, n);
    if f < |items[1..]| {
      assert items[f + 2..] == items[1..][f + 1..];
    }
  }

  // The loop takes the second % of %%C for a colour and leaves a lone % before it.
  lemma ClashInFront(items: seq<Item>)
    requires |items| >= 2 && ItemOk(items[0]) && Clash(items[0], items[1])
    ensures BreaksAt(items, Text(items), FindColor(Text(items)), |items|)
  {
    var mods, rest := items[0].mods, Text(items[2..]);
    ModifiersMean(mods);
    TextIs(items);
    TextIs(items[1..]);
    assert items[1..][1..] == items[2..];
    hide Text, FindColor, Complete;
    ClashText(mods, rest);
    LonePercentLeft(mods, rest);
  }

  lemma ClashText(mods: string, rest: string)
    ensures ['%'] + mods + ['%'] + (['C'] + rest) == (['%'] + mods) + ("%C" + rest)
  {
  }

  lemma LonePercentLeft(mods: string, rest: string)
    requires Modifiers(mods) == |mods|
    ensures var s := (['%'] + mods) + ("%C" + rest);
      FindColor(s) == 1 + |mods| && s[..1 + |mods|] == ['%'] + mods && !Complete(['%'] + mods)
  {
    hide Modifiers, Complete, FindColor, IsModifier, ColorAt;
    NoColorBefore(mods, rest);
    SkipText(['%'] + mods, "%C" + rest);
    ColorIsFirst(rest);
    ModifiersAreIncomplete(mods);
    TakePrefix(['%'] + mods, "%C" + rest);
  }

  lemma TakePrefix(a: string, t: string)
    ensures (a + t)[..|a|] == a
  {
  }

  lemma NoColorBefore(mods: string, rest: string)
    requires Modifiers(mods) == |mods|
    ensures forall i :: 0 <= i < |['%'] + mods| ==> !ColorAt((['%'] + mods) + ("%C" + rest), i)
  {
    ModifiersAre(mods);
    hide Modifiers;
    var a, t := ['%'] + mods, "%C" + rest;
    forall i | 0 <= i < |a|
      ensures !ColorAt(a + t, i)
    {
      assert (a + t)[i + 1] == if i < |mods| then mods[i] else '%';
    }
  }

  lemma ColorIsFirst(rest: string)
    ensures FindColor("%C" + rest) == 0
  {
    var t := "%C" + rest;
    assert |t| >= 2 && t[0] == '%' && t[1] == 'C';
  }

  lemma ModifiersAreIncomplete(mods: string)
    requires Modifiers(mods) == |mods|
    ensures !Complete(['%'] + mods)
  {
    assert (['%'] + mods)[1..] == mods;
  }

  // Conversely the text of any items is complete, so the complete formats are exactly
  // the texts of items.
  lemma {:induction false} ItemsAreComplete(items: seq<Item>)
    requires forall x :: x in items ==> ItemOk(x)
    ensures Complete(Text(items))
  {
    if items == [] {
      RenderEnd([]);
    } else {
      var x, t := items[0], Text(items[1..]);
      assert x in items;
      ItemsAreComplete(items[1..]);
      TextIs(items);
      hide ItemOk, Complete;
      if x.Color? {
        RenderConverted("", 'C', t, []);
        assert ['%'] + "" + ['C'] + t == "%C" + t;
      } else {
        RenderItem(x, t, []);
      }
    }
  }
}
