/** Printing and reading numbers as lib/printf.c does. */
module Numerals {
  import opened Arithmetic
  import opened Words

  predicate Base(b: nat) {
    b == 8 || b == 10 || b == 16
  }

  /** The character of one digit; beyond nine a letter of either case. */
  function Digit(d: nat, upper: bool): (c: char)
    requires d < 16
  {
    if d < 10 then '0' + d as char else if upper then 'A' + (d - 10) as char else 'a' + (d - 10) as char
  }

  function DigitValue(c: char): nat {
    if '0' <= c <= '9' then (c - '0') as nat
    else if 'A' <= c <= 'F' then (c - 'A') as nat + 10
    else if 'a' <= c <= 'f' then (c - 'a') as nat + 10
    else 0
  }

  lemma DigitRound(d: nat, upper: bool)
    requires d < 16
    ensures DigitValue(Digit(d, upper)) == d && Digit(d, upper) != '\0'
    ensures Digit(d, upper) == '0' <==> d == 0
  {}

  /** The sixteen digits, small and capital. */
  lemma DigitTable(d: nat)
    requires d < 16
    ensures Digit(d, false) == "0123456789abcdef"[d] && DigitValue("0123456789abcdef"[d]) == d
    ensures Digit(d, true) == "0123456789ABCDEF"[d] && DigitValue("0123456789ABCDEF"[d]) == d
  {}

  /** The usual numeral: most significant digit first, no superfluous zeros. */
  function Numeral(n: nat, base: nat, upper: bool): (s: string)
    requires Base(base)
    ensures s != []
  {
    if n < base then [Digit(n, upper)] else Numeral(n / base, base, upper) + [Digit(n % base, upper)]
  }

  function Value(s: string, base: nat): nat
    decreases |s|
  {
    if s == [] then 0 else Value(s[..|s| - 1], base) * base + DigitValue(s[|s| - 1])
  }

  /** A numeral reads back as its number. */
  lemma {:induction false} NumeralValue(n: nat, base: nat, upper: bool)
    requires Base(base)
    ensures Value(Numeral(n, base, upper), base) == n
  {
    var s := Numeral(n, base, upper);
    if n < base {
      DigitRound(n, upper);
      assert s[..0] == [];
    } else {
      NumeralValue(n / base, base, upper);
      DigitRound(n % base, upper);
      assert s[..|s| - 1] == Numeral(n / base, base, upper);
    }
  }

  lemma {:induction false} NoLeadingZero(n: nat, base: nat, upper: bool)
    requires Base(base)
    ensures Numeral(n, base, upper)[0] == '0' <==> n == 0
    ensures n == 0 ==> |Numeral(n, base, upper)| == 1
    ensures '\0' !in Numeral(n, base, upper)
  {
    if n < base {
      DigitRound(n, upper);
    } else {
      NoLeadingZero(n / base, base, upper);
      DigitRound(n % base, upper);
    }
  }

  /** A digit below the base; its letters are small, or capital. */
  predicate IsDigit(c: char, base: nat, upper: bool) {
    if base == 8 then '0' <= c <= '7'
    else '0' <= c <= '9' || (base == 16 && if upper then 'A' <= c <= 'F' else 'a' <= c <= 'f')
  }

  /** A text writes a number: digits of the base that read back as the number, without a
      superfluous zero in front. */
  ghost predicate Writes(text: string, n: nat, base: nat, upper: bool) {
    && text != [] && (forall i :: 0 <= i < |text| ==> IsDigit(text[i], base, upper))
    && Value(text, base) == n && (text[0] == '0' ==> |text| == 1)
  }

  lemma {:induction false} NumeralDigits(n: nat, base: nat, upper: bool)
    requires Base(base)
    ensures forall i :: 0 <= i < |Numeral(n, base, upper)| ==> IsDigit(Numeral(n, base, upper)[i], base, upper)
  {
    if n >= base {
      NumeralDigits(n / base, base, upper);
    }
  }

  lemma NumeralWrites(n: nat, base: nat, upper: bool)
    requires Base(base)
    ensures Writes(Numeral(n, base, upper), n, base, upper)
  {
    NumeralDigits(n, base, upper);
    NumeralValue(n, base, upper);
    NoLeadingZero(n, base, upper);
  }

  function Power(b: nat, k: nat): nat {
    if k == 0 then 1 else b * Power(b, k - 1)
  }

  lemma {:induction false} NumeralLength(n: nat, base: nat, upper: bool, k: nat)
    requires Base(base) && k > 0 && n < Power(base, k)
    ensures |Numeral(n, base, upper)| <= k
  {
    if n >= base {
      PowerOne(base);
      QuotientBelow(n, base, Power(base, k - 1));
      NumeralLength(n / base, base, upper, k - 1);
    }
  }

  lemma PowerOne(base: nat)
    ensures Power(base, 1) == base
  {}

  lemma QuotientBelow(n: nat, b: nat, p: nat)
    requires b > 0 && n < b * p
    ensures n / b < p
  {
    var q := n / b;
    assert n == b * q + n % b;
    if p <= q {
      ProductGrows(b, b, p, q);
    }
  }

  /** 22 digits are enough for 64 bits in any base. */
  lemma Fits22(n: nat, base: nat, upper: bool)
    requires Base(base) && n < 0x1_0000_0000_0000_0000
    ensures |Numeral(n, base, upper)| <= 22
  {
    EightTo22();
    PowerGrows(8, base, 22);
    NumeralLength(n, base, upper, 22);
  }

  lemma EightTo22()
    ensures Power(8, 22) == 0x4_0000_0000_0000_0000
  {
    assert Power(8, 4) == 4096;
    assert Power(8, 8) == 0x100_0000;
    assert Power(8, 12) == 0x10_0000_0000;
    assert Power(8, 16) == 0x1_0000_0000_0000;
    assert Power(8, 20) == 0x1000_0000_0000_0000;
  }

  lemma {:induction false} PowerGrows(a: nat, b: nat, k: nat)
    requires 0 < a <= b
    ensures Power(a, k) <= Power(b, k)
  {
    if k > 0 {
      PowerGrows(a, b, k - 1);
      ProductGrows(a, b, Power(a, k - 1), Power(b, k - 1));
    }
  }

  /** Two numerals are equal only for equal numbers. */
  lemma NumeralInjective(m: nat, n: nat, base: nat, upper: bool)
    requires Base(base) && Numeral(m, base, upper) == Numeral(n, base, upper)
    ensures m == n
  {
    NumeralValue(m, base, upper);
    NumeralValue(n, base, upper);
  }

  // ----- the printer

  /** The characters before the terminating zero. */
  function CString(s: seq<char>): (r: string)
    requires '\0' in s
  {
    if s[0] == '\0' then [] else [s[0]] + CString(s[1..])
  }

  lemma {:induction false} CStringIs(s: seq<char>, r: string)
    requires |r| < |s| && s[..|r|] == r && s[|r|] == '\0' && '\0' !in r
    ensures CString(s) == r
  {
    if r != [] {
      assert s[0] == r[0];
      CStringIs(s[1..], r[1..]);
    }
  }

  /** The highest power of base not above num; no product leaves the word. */
  method Highest(num: nat, base: nat) returns (d: nat, ghost k: nat)
    requires Base(base)
    ensures d == Power(base, k) && (d <= num || k == 0) && num < d * base
  {
    d, k := 1, 0;
    while Quotient(num, d) >= base
      invariant d > 0 && d == Power(base, k) && (d <= num || k == 0)
      decreases num - d
    {
      ProductBelow(num, d, base);
      d := d * base;
      k := k + 1;
    }
    ProductAbove(num, d, base);
  }

  lemma ProductBelow(num: nat, d: nat, base: nat)
    requires d > 0 && base > 1 && Quotient(num, d) >= base
    ensures d < d * base <= num
  {
    DivMod(num, d);
    var q := Quotient(num, d);
    hide Quotient, Remainder;
    ProductGrows(d, d, base, q);
    ProductGrows(d, d, 2, base);
  }

  lemma ProductAbove(num: nat, d: nat, base: nat)
    requires d > 0 && Quotient(num, d) < base
    ensures num < d * base
  {
    DivMod(num, d);
    var q := Quotient(num, d);
    hide Quotient, Remainder;
    NextProduct(d, q, base);
  }

  lemma {:induction false} AtLeastDigits(n: nat, base: nat, upper: bool, k: nat)
    requires Base(base) && (Power(base, k) <= n || k == 0)
    ensures |Numeral(n, base, upper)| >= k + 1
  {
    if k > 0 {
      assert Power(base, k) == base * Power(base, k - 1);
      PowerPositive(base, k - 1);
      BelowQuotient(Power(base, k - 1), base, n);
      AtLeastDigits(n / base, base, upper, k - 1);
    }
  }

  lemma {:induction false} PowerPositive(b: nat, k: nat)
    requires b > 0
    ensures Power(b, k) > 0
  {
    if k > 0 {
      PowerPositive(b, k - 1);
      assert b * Power(b, k - 1) > 0;
    }
  }

  lemma BelowQuotient(p: nat, b: nat, n: nat)
    requires b > 0 && p > 0 && b * p <= n
    ensures p <= n / b && n >= b
  {
    var q := n / b;
    assert n == b * q + n % b;
    if q < p {
      NextProduct(b, q, p);
    }
    ProductGrows(b, b, 1, p);
  }

  lemma NextProduct(b: nat, q: nat, p: nat)
    requires q < p
    ensures b * q + b <= b * p
  {
    ProductGrows(b, b, q + 1, p);
    assert b * (q + 1) == b * q + b;
  }

  /** The digits printed so far, those of q; none while q is 0. */
  function Leading(q: nat, base: nat, upper: bool): string
    requires Base(base)
  {
    if q == 0 then "" else Numeral(q, base, upper)
  }

  lemma NextDigit(q: nat, base: nat, upper: bool, dgt: nat)
    requires Base(base) && dgt < base
    ensures var r := base * q + dgt;
            Leading(r, base, upper) == if q == 0 && dgt == 0 then "" else Leading(q, base, upper) + [Digit(dgt, upper)]
  {
    EuclidUnique(base * q + dgt, base, q, dgt);
    ProductGrows(base, base, if q == 0 then 0 else 1, q);
  }

  lemma Shorter(n: nat, d: nat, base: nat)
    requires d > 0 && base > 0
    ensures d * base > 0
    ensures var q, r := Quotient(n, d * base), Remainder(n, d * base);
            && Quotient(n, d) == base * q + Quotient(r, d)
            && Remainder(r, d) == Remainder(n, d) && Quotient(r, d) < base
  {
    ProductGrows(1, d, 1, base);
    var q, r := Quotient(n, d * base), Remainder(n, d * base);
    var q', r' := Quotient(r, d), Remainder(r, d);
    DivMod(n, d * base);
    DivMod(r, d);
    Regroup(n, d, base, q, q', r');
    EuclidUnique(n, d, base * q + q', r');
    hide Quotient, Remainder;
    if q' >= base {
      ProductGrows(d, d, base, q');
    }
  }

  lemma Regroup(n: nat, d: nat, b: nat, q: nat, q': nat, r': nat)
    requires n == d * b * q + (d * q' + r')
    ensures n == d * (b * q + q') + r'
  {
    assert d * b * q == d * (b * q);
    assert d * (b * q + q') == d * (b * q) + d * q';
  }

  lemma PowerHalf(base: nat, k: nat)
    requires base > 1
    ensures Quotient(Power(base, k), base) == if k == 0 then 0 else Power(base, k - 1)
    ensures Power(base, k) > 0
  {
    PowerPositive(base, k);
    if k > 0 {
      EuclidUnique(Power(base, k), base, Power(base, k - 1), 0);
    }
  }

  /** The state of the digit loop: what is printed and what is left. */
  ghost predicate Printed(num0: nat, base: nat, upper: bool, k: int, num: nat, text: string)
    requires Base(base) && k >= -1
  {
    PowerPositive(base, k + 1);
    var w := Power(base, k + 1);
    && num == Remainder(num0, w)
    && text == if k < 0 then Numeral(num0, base, upper) else Leading(Quotient(num0, w), base, upper)
  }

  lemma Starts(num0: nat, base: nat, upper: bool, k: nat)
    requires Base(base) && num0 < Power(base, k) * base
    ensures Printed(num0, base, upper, k, num0, "")
  {
    assert Power(base, k + 1) == base * Power(base, k);
    hide Power;
    EuclidUnique(num0, Power(base, k + 1), 0, num0);
  }

  lemma Ends(num0: nat, base: nat, upper: bool)
    requires Base(base)
    ensures Power(base, 0) == 1 && Quotient(num0, 1) == num0 && Remainder(num0, 1) == 0
    ensures Numeral(num0, base, upper) == if num0 == 0 then [Digit(0, upper)] else Leading(num0, base, upper)
  {}

  lemma AllPrinted(num0: nat, base: nat, upper: bool, num: nat, text: string)
    requires Base(base) && Printed(num0, base, upper, -1, num, text)
    ensures text == Numeral(num0, base, upper)
  {}

  lemma NoZeroByte(sign: string, text: string)
    requires '\0' !in sign && '\0' !in text
    ensures '\0' !in sign + text
  {}

  /** One turn of the loop. */
  lemma Turn(num0: nat, base: nat, upper: bool, k: nat, num: nat, text: string)
    requires Base(base) && Printed(num0, base, upper, k, num, text)
    ensures Power(base, k) > 0 && (k > 0 ==> Power(base, k - 1) > 0)
    ensures var d := Power(base, k); var dgt := Quotient(num, d);
            && dgt < base && Quotient(d, base) == (if k == 0 then 0 else Power(base, k - 1))
            && Printed(num0, base, upper, k - 1, Remainder(num, d),
                       if text != "" || dgt > 0 || k == 0 then text + [Digit(dgt, upper)] else text)
  {
    var d, w := Power(base, k), Power(base, k + 1);
    PowerHalf(base, k);
    assert w == d * base;
    Ends(num0, base, upper);
    if k > 0 {
      PowerPositive(base, k - 1);
    }
    hide Power, Numeral, Quotient, Remainder, Digit;
    Shorter(num0, d, base);
    NextDigit(Quotient(num0, w), base, upper, Quotient(num, d));
  }

  /** ull2a, ul2a and ui2a, which differ in the width of num only. */
  method Print(num0: nat, base: nat, upper: bool, negative: bool, buffer: array<char>)
    requires Base(base) && num0 < 0x1_0000_0000_0000_0000
    requires buffer.Length == 23 && (negative ==> |Numeral(num0, base, upper)| < 22)
    modifies buffer
    ensures '\0' in buffer[..]
    ensures CString(buffer[..]) == (if negative then "-" else "") + Numeral(num0, base, upper)
  {
    hide Numeral, Power, Digit, CString, Quotient, Remainder, Printed;
    Fits22(num0, base, upper);
    NoLeadingZero(num0, base, upper);
    var at := 0;
    if negative {
      buffer[at] := '-';
      at := at + 1;
    }
    ghost var sign: string := if negative then "-" else "";
    ghost var text: string := "";
    var num, n := num0, 0;
    var d, high := Highest(num0, base);
    AtLeastDigits(num0, base, upper, high);
    ghost var k: int := high;
    Starts(num0, base, upper, high);
    while d != 0
      invariant -1 <= k <= high && (k >= 0 ==> d > 0) && d == if k < 0 then 0 else Power(base, k)
      invariant Printed(num0, base, upper, k, num, text)
      invariant n == |text| <= high - k && at == |sign| + n < 23 && buffer[..at] == sign + text
      decreases k
    {
      Turn(num0, base, upper, k, num, text);
      var dgt := Quotient(num, d);
      num := Remainder(num, d);
      d := Quotient(d, base);
      if n > 0 || dgt > 0 || d == 0 {
        buffer[at] := Digit(dgt, upper);
        at := at + 1;
        text := text + [Digit(dgt, upper)];
        n := n + 1;
      }
      k := k - 1;
    }
    AllPrinted(num0, base, upper, num, text);
    NoZeroByte(sign, text);
    buffer[at] := '\0';
    CStringIs(buffer[..], sign + text);
  }

  // ----- signed numbers

  function Decimal(n: int): string {
    if n < 0 then "-" + Numeral(-n, 10, false) else Numeral(n, 10, false)
  }

  /** What the code negates an int to: the least int, which has no negative, stays as it
      is and then becomes an unsigned int or an unsigned long. */
  function Magnitude(n: int, isLong: bool): nat
    requires -0x8000_0000 <= n < 0
  {
    if n == -0x8000_0000 && isLong then WORD - 0x8000_0000 else -n
  }

  /** What i2a, l2a and ll2a print of the low 32 bits. */
  function SignedText(v: nat, isLong: bool): string {
    var n := ToInt(v);
    if n < 0 then "-" + Numeral(Magnitude(n, isLong), 10, false) else Numeral(n, 10, false)
  }

  lemma SignedTextIs(v: nat, isLong: bool)
    ensures SignedText(v, isLong) ==
            Decimal(if isLong && ToInt(v) == -0x8000_0000 then 0x8000_0000 - WORD else ToInt(v))
  {}

  lemma DecimalInjective(m: int, n: int)
    requires Decimal(m) == Decimal(n)
    ensures m == n
  {
    DecimalSign(m);
    DecimalSign(n);
    if m < 0 {
      assert Numeral(-m, 10, false) == Decimal(m)[1..];
      assert Numeral(-n, 10, false) == Decimal(n)[1..];
      NumeralInjective(-m, -n, 10, false);
    } else {
      NumeralInjective(m, n, 10, false);
    }
  }

  lemma DecimalSign(n: int)
    ensures Decimal(n)[0] == '-' <==> n < 0
  {
    if n >= 0 {
      NoMinus(n);
    }
  }

  lemma {:induction false} NoMinus(n: nat)
    ensures Numeral(n, 10, false)[0] != '-'
  {
    if n >= 10 {
      NoMinus(n / 10);
    }
  }

  // ----- a2u

  /** The digit loop of a2u.  A colon, the character after 9, passes for a digit of
      value ten. */
  function ReadDigits(src: seq<char>, num: nat): nat
    decreases |src|
  {
    if src == [] || src[0] < '0' || src[0] > ':' then num
    else ReadDigits(src[1..], (num * 10 + (src[0] - '0') as nat) % UINT)
  }

  /** a2u on a string whose digits end somewhere. */
  method A2u(src: seq<char>) returns (r: int)
    requires exists i :: 0 <= i < |src| && (src[i] < '0' || src[i] > ':')
    ensures r == ToInt(ReadDigits(src, 0))
  {
    var num: nat, i: nat := 0, 0;
    assert src[0..] == src;
    ghost var end :| 0 <= end < |src| && (src[end] < '0' || src[end] > ':');
    while src[i] >= '0'
      invariant 0 <= i <= end && num < UINT
      invariant ReadDigits(src, 0) == ReadDigits(src[i..], num)
      decreases end - i
    {
      var digit := src[i] as nat - '0' as nat;
      if digit > 10 {
        break;
      }
      num := (num * 10 + digit) % UINT;
      assert src[i..][1..] == src[i + 1..];
      i := i + 1;
    }
    r := if num < UINT / 2 then num else num - UINT;
  }

  lemma ReadsDigit(d: nat, rest: seq<char>, num: nat)
    requires d < 10
    ensures ReadDigits([Digit(d, false)] + rest, num) == ReadDigits(rest, (num * 10 + d) % UINT)
  {
    var c := Digit(d, false);
    assert ([c] + rest)[1..] == rest && ([c] + rest)[0] == c;
  }

  lemma {:induction false} ReadsNumeral(n: nat, rest: seq<char>)
    requires n < UINT
    ensures ReadDigits(Numeral(n, 10, false) + rest, 0) == ReadDigits(rest, n)
    decreases n
  {
    hide ReadDigits, Digit;
    var c := Digit(n % 10, false);
    ReadsDigit(n % 10, rest, n / 10);
    if n >= 10 {
      ReadsNumeral(n / 10, [c] + rest);
      assert Numeral(n, 10, false) + rest == Numeral(n / 10, 10, false) + ([c] + rest);
    }
  }

  /** a2u undoes ui2a in base 10 exactly on the numbers an int can hold. */
  lemma A2uUndoesPrint(n: nat)
    requires n < UINT
    ensures ToInt(ReadDigits(Numeral(n, 10, false) + ['\0'], 0)) == n <==> n < UINT / 2
  {
    ReadsNumeral(n, ['\0']);
  }

  /** The characters up to the first that the loop does not take for a digit. */
  function Stray(s: seq<char>): seq<char> {
    if s == [] || s[0] < '0' || s[0] > ':' then [] else [s[0]] + Stray(s[1..])
  }

  predicate AllZeros(s: seq<char>) {
    forall i :: 0 <= i < |s| ==> s[i] == '0'
  }

  /** The number that these make when they follow num, without a limit. */
  function Appended(num: nat, s: seq<char>): nat
    decreases |s|
  {
    if s == [] || s[0] < '0' || s[0] > ':' then num else Appended(num * 10 + (s[0] - '0') as nat, s[1..])
  }

  lemma {:induction false} ReadsAppended(src: seq<char>, num: nat)
    ensures ReadDigits(src, num % UINT) == Appended(num, src) % UINT
    decreases |src|
  {
    if src != [] && '0' <= src[0] <= ':' {
      var d := (src[0] - '0') as nat;
      assert (num % UINT * 10 + d) % UINT == (num * 10 + d) % UINT by {
        ShiftedMod(num, d);
      }
      ReadsAppended(src[1..], num * 10 + d);
    }
  }

  lemma ShiftedMod(num: nat, d: nat)
    ensures (num % UINT * 10 + d) % UINT == (num * 10 + d) % UINT
  {
    assert num * 10 + d == num % UINT * 10 + d + UINT * (num / UINT * 10);
  }

  lemma {:induction false} AppendedValue(s: seq<char>, rest: seq<char>)
    requires forall i :: 0 <= i < |s| ==> '0' <= s[i] <= '9'
    ensures Appended(0, s + rest) == Appended(Value(s, 10), rest)
    decreases |s|
  {
    if s == [] {
      assert s + rest == rest;
    } else {
      var n := |s| - 1;
      AppendedValue(s[..n], [s[n]] + rest);
      assert s + rest == s[..n] + ([s[n]] + rest);
      assert ([s[n]] + rest)[1..] == rest;
    }
  }

  lemma AppendedNone(num: nat, stop: char, rest: seq<char>)
    requires !('0' <= stop <= ':')
    ensures Appended(num, [stop] + rest) == num
  {}

  lemma SameInt(x: nat)
    ensures ToInt(x % UINT) == ToInt(x)
  {}

  /** Digits before a character that is neither a digit nor a colon are read as the low
      32 bits of their value, superfluous zeros or not. */
  lemma A2uReadsValue(s: seq<char>, stop: char, rest: seq<char>)
    requires forall i :: 0 <= i < |s| ==> '0' <= s[i] <= '9'
    requires !('0' <= stop <= ':')
    ensures ToInt(ReadDigits(s + ([stop] + rest), 0)) == ToInt(Value(s, 10))
  {
    AppendedValue(s, [stop] + rest);
    ReadsAppended(s + ([stop] + rest), 0);
    AppendedNone(Value(s, 10), stop, rest);
    SameInt(Value(s, 10));
    hide ReadDigits, Value, Appended, ToInt;
  }

  lemma {:induction false} AppendedGrows(num: nat, s: seq<char>)
    ensures Appended(num, s) >= num
    ensures num > 0 && Stray(s) != [] ==> Appended(num, s) > num
    decreases |s|
  {
    if s != [] && '0' <= s[0] <= ':' {
      AppendedGrows(num * 10 + (s[0] - '0') as nat, s[1..]);
    }
  }

  lemma {:induction false} AppendedSameIff(num: nat, s: seq<char>)
    ensures Appended(num, s) == num <==> Stray(s) == [] || (num == 0 && AllZeros(Stray(s)))
    decreases |s|
  {
    AppendedGrows(num, s);
    if num == 0 && Stray(s) != [] {
      var d := s[0] as nat - '0' as nat;
      assert Stray(s) == [s[0]] + Stray(s[1..]) && Appended(0, s) == Appended(d, s[1..]);
      assert Stray(s)[0] == s[0] && Stray(s)[1..] == Stray(s[1..]);
      if d == 0 {
        AppendedSameIff(0, s[1..]);
        assert forall i :: 1 <= i < |Stray(s)| ==> Stray(s)[i] == Stray(s)[1..][i - 1];
      } else {
        AppendedGrows(d, s[1..]);
      }
    }
  }

  /** A number that an int can hold is read right, whatever follows its digits, exactly
      when what follows does not change it in 32 bits. */
  lemma A2uReadsExactly(n: nat, tail: seq<char>)
    requires n < UINT / 2
    ensures ToInt(ReadDigits(Numeral(n, 10, false) + tail, 0)) == n <==> Appended(n, tail) % UINT == n
  {
    hide ReadDigits, Numeral, Appended;
    ReadsNumeral(n, tail);
    assert n % UINT == n;
    ReadsAppended(tail, n);
  }

  /** The caller passes the digits of a width without a terminator, so that anything may
      follow.  While the whole stays an int, the width is read right exactly when no
      digit and no colon follows, or only zeros after a zero. */
  lemma WidthReadsRightIff(n: nat, tail: seq<char>)
    requires Appended(n, tail) < UINT / 2
    ensures ToInt(ReadDigits(Numeral(n, 10, false) + tail, 0)) == n <==>
              Stray(tail) == [] || (n == 0 && AllZeros(Stray(tail)))
  {
    hide ReadDigits, Numeral, ToInt, Appended, Stray, AllZeros;
    AppendedGrows(n, tail);
    A2uReadsExactly(n, tail);
    AppendedSameIff(n, tail);
  }

  /** If no digit follows a number, it is read right exactly when no colon does: for
      every tail, as long as what a colon starts stays an int or ends with it. */
  lemma A2uReadsRightIff(n: nat, c: char, tail: seq<char>)
    requires n < UINT / 2 && !('0' <= c <= '9')
    requires c == ':' ==> Appended(n, [c] + tail) < UINT / 2 || Stray(tail) == []
    ensures ToInt(ReadDigits(Numeral(n, 10, false) + ([c] + tail), 0)) == n <==> c != ':'
  {
    hide ReadDigits, Numeral;
    A2uReadsExactly(n, [c] + tail);
    assert ([c] + tail)[1..] == tail;
    if c == ':' && Stray(tail) != [] {
      AppendedGrows(n * 10 + 10, tail);
    } else if c == ':' {
      ColonShifts(n);
    }
  }

  lemma ColonShifts(n: nat)
    requires n < UINT / 2
    ensures (n * 10 + 10) % UINT != n
  {
    var w := (n * 10 + 10) % UINT;
    var k := (n * 10 + 10) / UINT;
    assert n * 10 + 10 == UINT * k + w && 0 <= k <= 5;
  }

  /** A width of 0 before the stray bytes 0 and 5 is read as 5. */
  lemma StrayWidth()
    ensures ToInt(ReadDigits(Numeral(0, 10, false) + ['0', '5', '\0'], 0)) == 5
  {
    var tail := ['0', '5', '\0'];
    assert tail[1..] == ['5', '\0'] && ['5', '\0'][1..] == ['\0'];
    ReadsNumeral(0, tail);
  }

  lemma ColonIsTen()
    ensures ReadDigits([':', '\0'], 0) == 10
    ensures ToInt(ReadDigits(Numeral(1, 10, false) + [':', '\0'], 0)) == 20
  {
    assert [':', '\0'][1..] == ['\0'];
    ReadsNumeral(1, [':', '\0']);
  }

  /** The first number that does not fit comes back as the least int. */
  lemma A2uTooLarge()
    ensures ToInt(ReadDigits(Numeral(0x8000_0000, 10, false) + ['\0'], 0)) == -0x8000_0000
  {
    ReadsNumeral(0x8000_0000, ['\0']);
  }
}
