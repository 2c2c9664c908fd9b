/** printf_format of lib/printf.c and its two sinks.  A format is given as the
    directives in it, each with its flags, width and argument. */
module Printf {
  import opened Numerals
  import opened Words

  datatype Spec =
    | Char(c: char)
    | Signed(v: nat)                  // %d %i
    | Unsigned(v: nat)                // %u
    | Octal(v: nat)                   // %o
    | Str(s: string)                  // %s
    | Pointer(v: nat)                 // %p
    | Hex(v: nat, upper: bool)        // %x %X
    | Percent                         // %%
    | Other                           // any other letter

  datatype Item =
    | Text(c: char)
    | Conv(zero: bool, width: nat, lng: nat, spec: Spec)

  /** The argument has the size the directive says, and a string is given without its
      terminating zero. */
  ghost predicate WellFormed(item: Item) {
    item.Conv? ==>
      var size := if item.lng == 0 then UINT else WORD;
      && item.lng <= 2
      && match item.spec
         case Signed(v) => v < size
         case Unsigned(v) => v < size
         case Octal(v) => v < size
         case Hex(v, _) => v < size
         case Pointer(v) => v < WORD
         case Str(s) => '\0' !in s
         case _ => true
  }

  function Repeat(c: char, n: nat): string {
    seq(n, _ => c)
  }

  /** puts: filled up on the left to the width. */
  function Padded(zero: bool, width: nat, message: string): string {
    Repeat(if zero then '0' else ' ', if width > |message| then width - |message| else 0) + message
  }

  /** What a directive prints.  The signed conversions take an int and the octal one an
      unsigned int, whatever the length modifier says. */
  function Rendered(item: Item): string {
    match item
    case Text(c) => [c]
    case Conv(zero, width, lng, spec) =>
      match spec
      case Char(c) => [c]
      case Signed(v) => Padded(zero, width, SignedText(v, lng > 0))
      case Unsigned(v) => Padded(zero, width, Numeral(v, 10, false))
      case Octal(v) => Padded(zero, width, Numeral(v % UINT, 8, false))
      case Str(s) => Padded(zero, width, s)
      case Pointer(v) => Padded(zero, width, "0x") + Padded(true, 16, Numeral(v, 16, true))
      case Hex(v, upper) => Padded(zero, width, Numeral(v, 16, upper))
      case Percent => "%"
      case Other => ""
  }

  function Render(items: seq<Item>): string {
    if items == [] then "" else Rendered(items[0]) + Render(items[1..])
  }

  // ----- what a directive means, without saying how it is printed

  /** A text is the body, with blanks or zeros in front of it up to the width. */
  ghost predicate FilledUp(text: string, zero: bool, width: nat, body: string) {
    && |text| == (if |body| < width then width else |body|)
    && text[|text| - |body|..] == body
    && forall i :: 0 <= i < |text| - |body| ==> text[i] == if zero then '0' else ' '
  }

  /** The low 32 bits as an int in base 10, but for the least int as a long. */
  ghost predicate WritesInt(body: string, v: nat, isLong: bool) {
    var w := v % 0x1_0000_0000;
    if w < 0x8000_0000 then Writes(body, w, 10, false)
    else
      && body != [] && body[0] == '-'
      && Writes(body[1..], if isLong && w == 0x8000_0000 then 0xFFFF_FFFF_8000_0000 else 0x1_0000_0000 - w, 10, false)
  }

  ghost predicate IsFilledNumber(text: string, zero: bool, width: nat, v: nat, base: nat, upper: bool) {
    exists body :: FilledUp(text, zero, width, body) && Writes(body, v, base, upper)
  }

  ghost predicate Means(item: Item, text: string) {
    match item
    case Text(c) => text == [c]
    case Conv(zero, width, lng, spec) =>
      match spec
      case Char(c) => text == [c]
      case Signed(v) => exists body :: FilledUp(text, zero, width, body) && WritesInt(body, v, lng > 0)
      case Unsigned(v) => IsFilledNumber(text, zero, width, v, 10, false)
      case Octal(v) => IsFilledNumber(text, zero, width, v % 0x1_0000_0000, 8, false)
      case Str(s) => FilledUp(text, zero, width, s)
      case Pointer(v) =>
        exists n: nat :: n <= |text| && FilledUp(text[..n], zero, width, "0x")
                         && IsFilledNumber(text[n..], true, 16, v, 16, true)
      case Hex(v, upper) => IsFilledNumber(text, zero, width, v, 16, upper)
      case Percent => text == "%"
      case Other => text == ""
  }

  /** A text is what the directives mean, one after the other. */
  ghost predicate Renders(items: seq<Item>, text: string) {
    if items == [] then text == ""
    else exists n: nat :: n <= |text| && Means(items[0], text[..n]) && Renders(items[1..], text[n..])
  }

  lemma PaddedFills(zero: bool, width: nat, message: string)
    ensures FilledUp(Padded(zero, width, message), zero, width, message)
  {}

  lemma FilledNumber(zero: bool, width: nat, v: nat, base: nat, upper: bool)
    requires Base(base)
    ensures IsFilledNumber(Padded(zero, width, Numeral(v, base, upper)), zero, width, v, base, upper)
  {
    hide Padded, Numeral, FilledUp, Writes;
    PaddedFills(zero, width, Numeral(v, base, upper));
    NumeralWrites(v, base, upper);
  }

  lemma SignedWrites(v: nat, isLong: bool)
    ensures WritesInt(SignedText(v, isLong), v, isLong)
  {
    hide Numeral, Writes;
    var n := ToInt(v);
    var m := if n < 0 then Magnitude(n, isLong) else n;
    NumeralWrites(m, 10, false);
    assert n < 0 ==> SignedText(v, isLong)[1..] == Numeral(m, 10, false);
  }

  /** Every directive prints what it means. */
  lemma RenderedMeans(item: Item)
    ensures Means(item, Rendered(item))
  {
    hide Padded, Numeral, SignedText, FilledUp, WritesInt, IsFilledNumber;
    if item.Conv? {
      var zero, width := item.zero, item.width;
      match item.spec
      case Signed(v) =>
        SignedWrites(v, item.lng > 0);
        PaddedFills(zero, width, SignedText(v, item.lng > 0));
      case Unsigned(v) => FilledNumber(zero, width, v, 10, false);
      case Octal(v) => FilledNumber(zero, width, v % UINT, 8, false);
      case Str(s) => PaddedFills(zero, width, s);
      case Pointer(v) =>
        var text, n := Rendered(item), |Padded(zero, width, "0x")|;
        PaddedFills(zero, width, "0x");
        FilledNumber(true, 16, v, 16, true);
        assert text[..n] == Padded(zero, width, "0x") && text[n..] == Padded(true, 16, Numeral(v, 16, true));
      case Hex(v, upper) => FilledNumber(zero, width, v, 16, upper);
      case _ =>
    }
  }

  /** A whole format prints what its directives mean. */
  lemma {:induction false} RenderMeans(items: seq<Item>)
    ensures Renders(items, Render(items))
  {
    hide Means, Rendered;
    if items != [] {
      RenderedMeans(items[0]);
      RenderMeans(items[1..]);
      var n := |Rendered(items[0])|;
      assert Render(items)[..n] == Rendered(items[0]) && Render(items)[n..] == Render(items[1..]);
    }
  }

  /** An int is always printed right, the least one included. */
  lemma IntSigned(v: nat)
    requires v < UINT
    ensures SignedText(v, false) == Decimal(ToInt(v))
  {}

  /** A long is printed right exactly when it is above the least int and fits in an int. */
  lemma LongSignedIff(v: nat)
    requires v < WORD
    ensures SignedText(v, true) == Decimal(ToLong(v)) <==> -0x8000_0000 < ToLong(v) < 0x8000_0000
  {
    hide Decimal, SignedText, ToInt, ToLong;
    SignedTextIs(v, true);
    FitsIff(v);
    var shown := if ToInt(v) == -0x8000_0000 then 0x8000_0000 - WORD else ToInt(v);
    if Decimal(shown) == Decimal(ToLong(v)) {
      DecimalInjective(shown, ToLong(v));
    }
  }

  lemma FitsIff(v: nat)
    requires v < WORD
    ensures ToInt(v) == ToLong(v) <==> -0x8000_0000 <= ToLong(v) < 0x8000_0000
    ensures ToLong(v) >= -0x8000_0000_0000_0000
  {}

  /** The least unsigned long that does not fit in 32 bits is printed as 0. */
  lemma LongPrintedWrong()
    ensures SignedText(UINT, true) == "0" && Decimal(ToLong(UINT)) != "0"
  {
    LongSignedIff(UINT);
  }

  /** The least int as a long is printed as minus 18446744071562067968. */
  lemma LeastIntPrintedWrong()
    ensures var v := WORD - 0x8000_0000;
            && ToLong(v) == -0x8000_0000
            && SignedText(v, true) == Decimal(-18446744071562067968) != Decimal(ToLong(v))
  {
    hide Numeral, SignedText, Decimal;
    LongSignedIff(WORD - 0x8000_0000);
    SignedTextIs(WORD - 0x8000_0000, true);
  }

  /** An argument of %o is printed right exactly when it fits in an unsigned int. */
  lemma OctalIff(v: nat)
    ensures Numeral(v % UINT, 8, false) == Numeral(v, 8, false) <==> v < UINT
  {
    if Numeral(v % UINT, 8, false) == Numeral(v, 8, false) {
      NumeralInjective(v % UINT, v, 8, false);
    }
  }

  /** The first that does not is printed as 0. */
  lemma OctalPrintedWrong()
    ensures Numeral(UINT % UINT, 8, false) == "0" != Numeral(UINT, 8, false)
  {
    OctalIff(UINT);
  }

  /** Zeros go in front of the sign. */
  lemma ZerosBeforeSign(n: int, width: nat)
    requires n < 0 && width > |Decimal(n)|
    ensures Padded(true, width, Decimal(n))[0] == '0' && '-' in Padded(true, width, Decimal(n))
  {
    var m := Decimal(n);
    assert Padded(true, width, m)[width - |m|] == m[0];
  }

  // ----- the sinks

  /** struct printf_data: bounded for snprintf_putcf, else sprintf_putcf. */
  class Sink {
    const buffer: array<char>
    const bounded: bool
    const max: nat
    var used: nat

    ghost predicate Valid()
      reads this
    {
      used <= buffer.Length && (bounded ==> used <= max <= buffer.Length)
    }

    ghost function Stored(): string
      requires Valid()
      reads this, buffer
    {
      buffer[..used]
    }

    /** The part of a text that the sink keeps. */
    function Clip(text: string): string {
      if bounded && |text| > max then text[..max] else text
    }

    /** sprintf has no limit but the caller's buffer. */
    ghost predicate Room(n: nat)
      reads this
    {
      bounded || used + n <= buffer.Length
    }

    constructor (buffer: array<char>, bounded: bool, max: nat)
      requires bounded ==> max <= buffer.Length
      ensures Valid() && Stored() == "" && this.buffer == buffer && this.bounded == bounded && this.max == max
    {
      this.buffer, this.bounded, this.max, used := buffer, bounded, max, 0;
    }

    method Put(c: char)
      requires Valid() && Room(1)
      modifies this, buffer
      ensures Valid() && Stored() == Clip(old(Stored()) + [c])
      ensures !bounded ==> used == old(used) + 1
    {
      if bounded {
        if used < max {
          buffer[used] := c;
          used := used + 1;
        }
      } else {
        buffer[used] := c;
        used := used + 1;
      }
    }

    lemma ClipMore(a: string, b: string, c: string)
      ensures Clip(Clip(a + b) + c) == Clip(a + (b + c))
    {}

    lemma Unclipped()
      requires Valid()
      ensures Clip(Stored() + "") == Stored()
    {
      assert Stored() + "" == Stored();
    }

    method PutAll(text: string)
      requires Valid() && Room(|text|)
      modifies this, buffer
      ensures Valid() && Stored() == Clip(old(Stored()) + text)
      ensures !bounded ==> used == old(used) + |text|
    {
      hide Clip;
      ghost var was := Stored();
      var i := 0;
      Unclipped();
      assert text[..0] == "";
      while i < |text|
        invariant 0 <= i <= |text| && Valid() && Stored() == Clip(was + text[..i])
        invariant !bounded ==> used == old(used) + i
      {
        Put(text[i]);
        ClipMore(was, text[..i], [text[i]]);
        assert text[..i] + [text[i]] == text[..i + 1];
        i := i + 1;
      }
      assert text[..|text|] == text;
    }

    /** while (n--) */
    method Fill(c: char, n: nat)
      requires Valid() && Room(n)
      modifies this, buffer
      ensures Valid() && Stored() == Clip(old(Stored()) + Repeat(c, n))
      ensures !bounded ==> used == old(used) + n
    {
      hide Clip;
      ghost var was := Stored();
      Unclipped();
      assert Repeat(c, 0) == "";
      var i := 0;
      while i < n
        invariant 0 <= i <= n && Valid() && Stored() == Clip(was + Repeat(c, i))
        invariant !bounded ==> used == old(used) + i
      {
        Put(c);
        ClipMore(was, Repeat(c, i), [c]);
        assert Repeat(c, i) + [c] == Repeat(c, i + 1);
        i := i + 1;
      }
    }

    /** puts */
    method Puts(zero: bool, width: nat, message: string)
      requires Valid() && Room(|Padded(zero, width, message)|)
      modifies this, buffer
      ensures Valid() && Stored() == Clip(old(Stored()) + Padded(zero, width, message))
      ensures !bounded ==> used == old(used) + |Padded(zero, width, message)|
    {
      hide Clip;
      ghost var was := Stored();
      var n, t := width, 0;
      while t < |message| && n != 0
        invariant 0 <= t <= |message| && n == width - t
      {
        n := n - 1;
        t := t + 1;
      }
      Fill(if zero then '0' else ' ', n);
      PutAll(message);
      ClipMore(was, Repeat(if zero then '0' else ' ', n), message);
    }

    /** A number is printed into a buffer of 23 bytes and then put out. */
    method PutNumber(zero: bool, width: nat, num: nat, base: nat, upper: bool, negative: bool)
      requires Valid() && Base(base) && num < WORD && (negative ==> |Numeral(num, base, upper)| < 22)
      requires Room(|Padded(zero, width, (if negative then "-" else "") + Numeral(num, base, upper))|)
      modifies this, buffer
      ensures Valid()
      ensures Stored() == Clip(old(Stored()) + Padded(zero, width, (if negative then "-" else "") + Numeral(num, base, upper)))
      ensures !bounded ==> used == old(used) + |Padded(zero, width, (if negative then "-" else "") + Numeral(num, base, upper))|
    {
      var digits := new char[23];
      Numerals.Print(num, base, upper, negative, digits);
      Puts(zero, width, CString(digits[..]));
    }

    /** i2a, l2a and ll2a followed by puts. */
    method PutSigned(zero: bool, width: nat, v: nat, isLong: bool)
      requires Valid() && Room(|Padded(zero, width, SignedText(v, isLong))|)
      modifies this, buffer
      ensures Valid() && Stored() == Clip(old(Stored()) + Padded(zero, width, SignedText(v, isLong)))
      ensures !bounded ==> used == old(used) + |Padded(zero, width, SignedText(v, isLong))|
    {
      var n := ToInt(v);
      var num := if n < 0 then Magnitude(n, isLong) else n;
      Short(num);
      assert "" + Numeral(num, 10, false) == Numeral(num, 10, false);
      PutNumber(zero, width, num, 10, false, n < 0);
    }

    /** One round of the loop of printf_format. */
    method PutItem(item: Item)
      requires Valid() && WellFormed(item) && Room(|Rendered(item)|)
      modifies this, buffer
      ensures Valid() && Stored() == Clip(old(Stored()) + Rendered(item))
      ensures !bounded ==> used == old(used) + |Rendered(item)|
    {
      hide Clip, Padded, Numeral, SignedText, ToInt, Repeat;
      ghost var was := Stored();
      match item
      case Text(c) => Put(c);
      case Conv(zero, width, lng, spec) =>
        match spec
        case Char(c) => Put(c);
        case Signed(v) => PutSigned(zero, width, v, lng > 0);
        case Unsigned(v) => PutDigits(zero, width, v, 10, false);
        case Octal(v) => PutDigits(zero, width, v % UINT, 8, false);
        case Str(s) => Puts(zero, width, s);
        case Pointer(v) =>
          Puts(zero, width, "0x");
          PutDigits(true, 16, v, 16, true);
          ClipMore(was, Padded(zero, width, "0x"), Padded(true, 16, Numeral(v, 16, true)));
        case Hex(v, upper) => PutDigits(zero, width, v, 16, upper);
        case Percent => Put('%');
        case Other => Unclipped();
    }

    method PutDigits(zero: bool, width: nat, num: nat, base: nat, upper: bool)
      requires Valid() && Base(base) && num < WORD && Room(|Padded(zero, width, Numeral(num, base, upper))|)
      modifies this, buffer
      ensures Valid() && Stored() == Clip(old(Stored()) + Padded(zero, width, Numeral(num, base, upper)))
      ensures !bounded ==> used == old(used) + |Padded(zero, width, Numeral(num, base, upper))|
    {
      assert "" + Numeral(num, base, upper) == Numeral(num, base, upper);
      PutNumber(zero, width, num, base, upper, false);
    }

    /** printf_format */
    method Format(items: seq<Item>)
      requires Valid() && (forall item :: item in items ==> WellFormed(item)) && Room(|Render(items)|)
      modifies this, buffer
      ensures Valid() && Stored() == Clip(old(Stored()) + Render(items))
      ensures exists text :: Renders(items, text) && Stored() == Clip(old(Stored()) + text)
    {
      hide Clip, Rendered, WellFormed, Renders;
      RenderMeans(items);
      ghost var was := Stored();
      Unclipped();
      var i := 0;
      assert items[..0] == [];
      while i < |items|
        invariant 0 <= i <= |items| && Valid() && Stored() == Clip(was + Render(items[..i]))
        invariant !bounded ==> used == old(used) + |Render(items[..i])|
      {
        RenderMore(items, i);
        PutItem(items[i]);
        ClipMore(was, Render(items[..i]), Rendered(items[i]));
        i := i + 1;
      }
      assert items[..|items|] == items;
    }
  }

  /** In base 10 there is room for a sign. */
  lemma Short(num: nat)
    requires num < WORD
    ensures |Numeral(num, 10, false)| < 22
  {
    assert Power(10, 4) == 10_000;
    assert Power(10, 8) == 100_000_000;
    assert Power(10, 12) == 1_000_000_000_000;
    assert Power(10, 16) == 10_000_000_000_000_000;
    assert Power(10, 20) == 100_000_000_000_000_000_000;
    NumeralLength(num, 10, false, 20);
  }

  lemma {:induction false} RenderApp(a: seq<Item>, b: seq<Item>)
    ensures Render(a + b) == Render(a) + Render(b)
  {
    if a == [] {
      assert a + b == b;
    } else {
      assert (a + b)[1..] == a[1..] + b;
      RenderApp(a[1..], b);
    }
  }

  lemma RenderMore(items: seq<Item>, i: nat)
    requires i < |items|
    ensures Render(items[..i + 1]) == Render(items[..i]) + Rendered(items[i])
    ensures |Render(items[..i + 1])| <= |Render(items)|
  {
    assert items[..i + 1] == items[..i] + [items[i]];
    RenderApp(items[..i], [items[i]]);
    assert [items[i]][1..] == [];
    assert items == items[..i + 1] + items[i + 1..];
    RenderApp(items[..i + 1], items[i + 1..]);
  }

  /** vsprintf, for a buffer that is long enough. */
  method Vsprintf(s: array<char>, items: seq<Item>) returns (n: nat)
    requires (forall item :: item in items ==> WellFormed(item)) && |Render(items)| < s.Length
    modifies s
    ensures n == |Render(items)| && s[..n] == Render(items) && s[n] == '\0'
    ensures Renders(items, s[..n])
  {
    hide Renders;
    RenderMeans(items);
    var data := new Sink(s, false, 0);
    data.Format(items);
    assert "" + Render(items) == Render(items);
    n := data.used;
    s[n] := '\0';
  }

  /** vsnprintf stores exactly the first size characters of what vsprintf stores, for
      every format, and then a zero.  The zero goes past the buffer exactly when that is
      just size long and the text does not fit with it. */
  method Vsnprintf(s: array<char>, size: nat, items: seq<Item>) returns (n: nat, overrun: bool)
    requires (forall item :: item in items ==> WellFormed(item)) && size <= s.Length
    modifies s
    ensures n == (if |Render(items)| < size then |Render(items)| else size)
    ensures s[..n] == Render(items)[..n]
    ensures overrun <==> s.Length == size <= |Render(items)|
    ensures !overrun ==> n < s.Length && s[n] == '\0'
    ensures exists text :: Renders(items, text) && n == (if |text| < size then |text| else size) && s[..n] == text[..n]
  {
    hide Renders;
    RenderMeans(items);
    var data := new Sink(s, true, size);
    data.Format(items);
    assert "" + Render(items) == Render(items);
    n := data.used;
    overrun := n == s.Length;
    if !overrun {
      s[n] := '\0';
    }
  }
}
