/** Printing numbers digit by digit, and `strtol`, which reads them back. */
module Numbers {
  import opened Options

  type long = x: int | -0x8000_0000_0000_0000 <= x < 0x8000_0000_0000_0000
  const LONG_MAX := 0x7FFF_FFFF_FFFF_FFFF

  /** A C string without its terminator. */
  type CString = s: string | forall k :: 0 <= k < |s| ==> s[k] != '\0'

  /** The character at place `i`; the terminator stands at the end, and nothing may be read after it. */
  function At(s: CString, i: nat): char
    requires i <= |s|
  {
    if i < |s| then s[i] else '\0'
  }

  function Repeat(c: char, n: int): (s: string)
    ensures |s| == if n <= 0 then 0 else n
    ensures forall k :: 0 <= k < |s| ==> s[k] == c
  {
    if n <= 0 then "" else seq(n, _ => c)
  }

  function DigitChar(d: nat): char
    requires d < 16
  {
    "0123456789abcdef"[d]
  }

  /** `num` in `base`, most significant digit first. */
  function Digits(num: nat, base: nat): (s: string)
    requires 2 <= base <= 16
    ensures |s| >= 1
  {
    (if num < base then "" else Digits(num / base, base)) + [DigitChar(num % base)]
  }

  /** `num` with pad characters before it, up to `width` characters in all. */
  function Padded(num: nat, base: nat, width: int, padc: char): string
    requires 2 <= base <= 16
  {
    var digits := Digits(num, base);
    Repeat(padc, width - |digits|) + digits
  }

  // ----- strtol -------------------------------------------------------------------------------------------------

  /** The value of a digit or letter; 36 for any other character. */
  function DigitOf(c: char): nat {
    if '0' <= c <= '9' then c as int - '0' as int
    else if 'a' <= c <= 'z' then c as int - 'a' as int + 10
    else if 'A' <= c <= 'Z' then c as int - 'A' as int + 10
    else 36
  }

  predicate IsDigit(c: char, base: int) {
    DigitOf(c) < 36 && DigitOf(c) < base
  }

  predicate Blank(c: char) {
    c == ' ' || c == '\t'
  }

  /** The value of a string of digits. */
  function Value(s: string, base: int): int {
    if s == "" then 0 else Value(s[..|s| - 1], base) * base + DigitOf(s[|s| - 1])
  }

  /** The first place from `i` on that holds no blank. */
  function BlanksEnd(s: CString, i: nat): (e: nat)
    requires i <= |s|
    ensures i <= e <= |s| && !Blank(At(s, e)) && forall k :: i <= k < e ==> Blank(s[k])
    decreases |s| - i
  {
    if i < |s| && Blank(s[i]) then BlanksEnd(s, i + 1) else i
  }

  /** The first place from `i` on that holds no digit of `base`. */
  function DigitsEnd(s: CString, i: nat, base: int): (e: nat)
    requires i <= |s|
    ensures i <= e <= |s| && !IsDigit(At(s, e), base) && forall k :: i <= k < e ==> IsDigit(s[k], base)
    decreases |s| - i
  {
    if i < |s| && IsDigit(s[i], base) then DigitsEnd(s, i + 1, base) else i
  }

  /** Where the digits start after blanks, sign and prefix, whether a minus was seen, and the base to use. */
  function Header(s: CString, base: int): (h: (nat, bool, int))
    ensures h.0 <= |s|
  {
    var i := BlanksEnd(s, 0);
    var neg := At(s, i) == '-';
    var j := if At(s, i) == '+' || neg then i + 1 else i;
    if (base == 0 || base == 16) && At(s, j) == '0' && At(s, j + 1) == 'x' then (j + 2, neg, 16)
    else if base == 0 && At(s, j) == '0' then (j + 1, neg, 8)
    else (j, neg, if base == 0 then 10 else base)
  }

  /** The `long` that a magnitude comes to; none if it is beyond `LONG_MAX`, where C leaves the value open. */
  function InRange(v: int, neg: bool, e: nat): Option<(long, nat)> {
    if 0 <= v <= LONG_MAX then Some((if neg then -v else v, e)) else None
  }

  /** Where the number that `s` starts with ends. */
  function ParseEnd(s: CString, base: int): nat {
    var h := Header(s, base);
    DigitsEnd(s, h.0, h.2)
  }

  /** The number that `s` starts with, if it is in range, and where it ends. */
  function Parse(s: CString, base: int): Option<(long, nat)> {
    var h := Header(s, base);
    var e := DigitsEnd(s, h.0, h.2);
    InRange(Value(s[h.0..e], h.2), h.1, e)
  }

  /** What is left of a number in 64 bits. */
  function Wrap(x: int): long {
    (x + 0x8000_0000_0000_0000) % 0x1_0000_0000_0000_0000 - 0x8000_0000_0000_0000
  }

  /** Finds the end of any number, and the value of every number that a `long` can hold. */
  method Strtol(s: CString, base: int) returns (val: long, end: nat)
    ensures end == ParseEnd(s, base)
    ensures Parse(s, base).Some? ==> (val, end) == Parse(s, base).value
  {
    hide Value, IsDigit, DigitsEnd, Negative, Header;
    var start, neg, b := ReadHeader(s, base);
    val, end := TakeDigits(s, start, b);
    if neg { val := Negative(val); }
  }

  /** Passes over blanks, sign and prefix. */
  method ReadHeader(s: CString, base: int) returns (i: nat, neg: bool, b: int)
    ensures (i, neg, b) == Header(s, base)
  {
    hide Blank, BlanksEnd;
    neg, b := false, base;
    i := SkipBlanks(s);
    if At(s, i) == '+' {
      i := i + 1;
    } else if At(s, i) == '-' {
      i, neg := i + 1, true;
    }
    if (b == 0 || b == 16) && At(s, i) == '0' && At(s, i + 1) == 'x' {
      i, b := i + 2, 16;
    } else if b == 0 && At(s, i) == '0' {
      i, b := i + 1, 8;
    } else if b == 0 {
      b := 10;
    }
  }

  method SkipBlanks(s: CString) returns (i: nat)
    ensures i == BlanksEnd(s, 0)
  {
    i := 0;
    while Blank(At(s, i))
      invariant i <= |s| && BlanksEnd(s, i) == BlanksEnd(s, 0)
      decreases |s| - i
    {
      i := i + 1;
    }
  }

  function Negative(val: long): (r: long)
    ensures val >= 0 ==> r == 0 - val as int
  {
    Wrap(0 - val as int)
  }

  lemma WrapSmall(x: int)
    ensures -LONG_MAX <= x <= LONG_MAX ==> Wrap(x) == x
  {
  }

  /** The loop over the digits; it does not detect that `val` has gone beyond a `long`. */
  method TakeDigits(s: CString, start: nat, base: int) returns (val: long, end: nat)
    requires start <= |s|
    ensures end == DigitsEnd(s, start, base)
    ensures 0 <= Value(s[start..end], base) <= LONG_MAX ==> val == Value(s[start..end], base)
  {
    hide DigitOf, Wrap;
    val, end := 0, start;
    while true
      invariant start <= end <= |s| && 0 <= Value(s[start..end], base)
      invariant val == Value(s[start..end], base) || Value(s[start..end], base) > LONG_MAX
      invariant DigitsEnd(s, end, base) == DigitsEnd(s, start, base)
      decreases |s| - end
    {
      var dig := Digit(At(s, end));
      if dig < 0 || dig >= base { break; }
      ValueGrows(s, start, end, base);
      Larger(Value(s[start..end], base), base, dig);
      WrapSmall(val * base + dig);
      end, val := end + 1, Wrap(val * base + dig);
    }
  }

  lemma Larger(v: int, base: int, dig: int)
    requires v >= 0 && base >= 1 && dig >= 0
    ensures v * base + dig >= v
  {
  }

  lemma ValueGrows(s: string, i: nat, j: nat, base: int)
    requires i <= j < |s|
    ensures Value(s[i..j + 1], base) == Value(s[i..j], base) * base + DigitOf(s[j])
  {
    var t := s[i..j + 1];
    assert t[..|t| - 1] == s[i..j];
  }

  /** Tells digits and letters apart. */
  method Digit(c: char) returns (dig: int)
    ensures if DigitOf(c) < 36 then dig == DigitOf(c) else dig < 0
    ensures c == '\0' ==> DigitOf(c) == 36
  {
    if '0' <= c <= '9' {
      dig := c as int - '0' as int;
    } else if 'a' <= c <= 'z' {
      dig := c as int - 'a' as int + 10;
    } else if 'A' <= c <= 'Z' {
      dig := c as int - 'A' as int + 10;
    } else {
      dig := -1;
    }
  }

  // ----- printing and reading back ------------------------------------------------------------------------------

  predicate HexChar(c: char) {
    '0' <= c <= '9' || 'a' <= c <= 'f'
  }

  /** All of `s` are digits of `base`, as `printnum` writes them. */
  ghost predicate AllDigits(s: string, base: int) {
    forall k {:trigger s[k]} :: 0 <= k < |s| ==> IsDigit(s[k], base) && HexChar(s[k])
  }

  lemma DigitReadsBack(d: nat)
    requires d < 16
    ensures DigitOf(DigitChar(d)) == d && HexChar(DigitChar(d))
  {
  }

  lemma Recompose(num: nat, base: nat)
    requires base >= 2
    ensures num / base * base + num % base == num && num % base < base
    ensures num >= base ==> num / base < num
    ensures num < base ==> num % base == num
  {
  }

  lemma {:induction false} DigitsAreDigits(num: nat, base: nat)
    requires 2 <= base <= 16
    ensures AllDigits(Digits(num, base), base) && Value(Digits(num, base), base) == num
  {
    hide DigitOf, DigitChar, HexChar, Value, AllDigits;
    var t, d := if num < base then "" else Digits(num / base, base), num % base;
    Recompose(num, base);
    DigitReadsBack(d);
    ValueSnoc(t, DigitChar(d), base);
    if num >= base {
      DigitsAreDigits(num / base, base);
    } else {
      NoDigitsYet(base);
    }
    OneMoreDigit(t, DigitChar(d), base);
  }

  /** Digits are '0' to '9' and 'a' to 'f', and the first is 0 only if the number is. */
  lemma {:induction false} FirstDigit(num: nat, base: nat)
    requires 2 <= base <= 16
    ensures |Digits(num, base)| >= 1 && (Digits(num, base)[0] == '0' <==> num == 0)
    ensures forall c :: c in Digits(num, base) ==> '0' <= c <= '9' || 'a' <= c <= 'f'
  {
    hide DigitChar;
    DigitIs(num % base);
    Recompose(num, base);
    if num >= base {
      FirstDigit(num / base, base);
    }
  }

  lemma DigitIs(d: nat)
    requires d < 16
    ensures DigitChar(d) == '0' <==> d == 0
    ensures '0' <= DigitChar(d) <= '9' || 'a' <= DigitChar(d) <= 'f'
  {
  }

  lemma NoDigitsYet(base: int)
    ensures AllDigits("", base)
  {
  }

  lemma OneMoreDigit(t: string, c: char, base: int)
    requires AllDigits(t, base) && DigitOf(c) < base <= 36 && HexChar(c)
    ensures AllDigits(t + [c], base)
  {
  }

  lemma ValueSnoc(t: string, c: char, base: int)
    ensures Value("", base) == 0 && Value(t + [c], base) == Value(t, base) * base + DigitOf(c)
  {
    assert (t + [c])[..|t|] == t;
  }

  lemma {:induction false} ZerosBefore(k: int, s: string, base: int)
    ensures Value(Repeat('0', k) + s, base) == Value(s, base)
    decreases |s|, k
  {
    var t := Repeat('0', k) + s;
    if s != "" {
      ZerosBefore(k, s[..|s| - 1], base);
      assert t[..|t| - 1] == Repeat('0', k) + s[..|s| - 1];
    } else if k > 0 {
      ZerosBefore(k - 1, s, base);
      assert t[..|t| - 1] == Repeat('0', k - 1) + s;
    }
  }

  lemma PaddedLength(num: nat, base: nat, width: int, padc: char)
    requires 2 <= base <= 16
    ensures |Padded(num, base, width, padc)| ==
            if width > |Digits(num, base)| then width else |Digits(num, base)|
  {
  }

  /** Digits from place `i` to the end. */
  lemma {:induction false} DigitsToEnd(s: CString, i: nat, base: int)
    requires i <= |s| && forall k :: i <= k < |s| ==> IsDigit(s[k], base)
    ensures DigitsEnd(s, i, base) == |s|
    decreases |s| - i
  {
    if i < |s| { DigitsToEnd(s, i + 1, base); }
  }

  /** Digits from place `i` up to place `e`. */
  lemma {:induction false} DigitsTo(s: CString, i: nat, e: nat, base: int)
    requires i <= e <= |s| && (forall k :: i <= k < e ==> IsDigit(s[k], base)) && !IsDigit(At(s, e), base)
    ensures DigitsEnd(s, i, base) == e
    decreases |s| - i
  {
    if i < e { DigitsTo(s, i + 1, e, base); }
  }

  lemma {:induction false} BlanksTo(s: CString, i: nat, e: nat)
    requires i <= e <= |s| && (forall k :: i <= k < e ==> Blank(s[k])) && !Blank(At(s, e))
    ensures BlanksEnd(s, i) == e
    decreases |s| - i
  {
    if i < e { BlanksTo(s, i + 1, e); }
  }

  /** A digit is no blank, sign or prefix. */
  lemma HexCharIs(c: char)
    requires HexChar(c)
    ensures c != '\0' && c != '-' && c != '+' && c != 'x' && !Blank(c)
  {
  }

  ghost predicate NoNul(s: string) {
    forall k :: 0 <= k < |s| ==> s[k] != '\0'
  }

  lemma PaddedIsString(num: nat, base: nat, width: int, padc: char)
    requires 2 <= base <= 16 && padc != '\0'
    ensures NoNul(Padded(num, base, width, padc))
  {
    hide HexChar, IsDigit, Digits;
    DigitsAreDigits(num, base);
    forall k | 0 <= k < |Digits(num, base)|
      ensures Digits(num, base)[k] != '\0'
    {
      HexCharIs(Digits(num, base)[k]);
    }
  }

  /** Digits from place `i` on, without a prefix that could be taken for "0x". */
  lemma DigitsParse(s: CString, i: nat, base: nat)
    requires base == 8 || base == 10 || base == 16
    requires i < |s| && (forall k :: 0 <= k < i ==> Blank(s[k])) && AllDigits(s[i..], base)
    ensures Parse(s, base) == InRange(Value(s[i..], base), false, |s|)
  {
    hide IsDigit, HexChar, Blank, Value, InRange;
    forall k | i <= k < |s|
      ensures IsDigit(s[k], base) && s[k] != '-' && s[k] != '+' && s[k] != 'x' && !Blank(s[k])
    {
      assert s[i..][k - i] == s[k];
      HexCharIs(s[k]);
    }
    BlanksTo(s, 0, i);
    DigitsToEnd(s, i, base);
    assert s[i..|s|] == s[i..];
  }

  /** A minus and then digits. */
  lemma MinusParse(s: CString, base: nat)
    requires base == 8 || base == 10 || base == 16
    requires |s| >= 2 && s[0] == '-' && AllDigits(s[1..], base)
    ensures Parse(s, base) == InRange(Value(s[1..], base), true, |s|)
  {
    hide IsDigit, HexChar, Value, InRange;
    forall k | 1 <= k < |s|
      ensures IsDigit(s[k], base) && s[k] != 'x'
    {
      assert s[1..][k - 1] == s[k];
      HexCharIs(s[k]);
    }
    DigitsToEnd(s, 1, base);
    assert s[1..|s|] == s[1..];
  }

  /** A minus and then something else is read as 0, and reading stops there. */
  lemma MinusStops(s: CString, base: nat)
    requires base == 8 || base == 10 || base == 16
    requires |s| >= 2 && s[0] == '-' && (s[1] == '-' || s[1] == ' ')
    ensures Parse(s, base) == Some((0, 1))
  {
    hide Value;
    Signs(base);
    assert s[1..1] == "";
    assert Value("", base) == 0 by { ValueSnoc("", '0', base); }
  }

  lemma Signs(base: nat)
    ensures !IsDigit('-', base) && !IsDigit(' ', base)
  {
  }

  lemma PaddedDigits(num: nat, base: nat, width: int)
    requires 2 <= base <= 16
    ensures AllDigits(Digits(num, base), base) && AllDigits(Padded(num, base, width, '0'), base)
    ensures Value(Digits(num, base), base) == Value(Padded(num, base, width, '0'), base) == num
  {
    hide Digits, Value, DigitOf;
    DigitsAreDigits(num, base);
    ZeroIsDigit(base);
    ZerosBefore(width - |Digits(num, base)|, Digits(num, base), base);
  }

  lemma ZeroIsDigit(base: nat)
    requires base >= 2
    ensures HexChar('0') && IsDigit('0', base)
  {
  }

  /** `strtol` reads `s` as the number `v`, to its last character. */
  ghost predicate ReadsAs(s: string, base: int, v: int) {
    NoNul(s) && Parse(s, base).Some? && Parse(s, base).value.0 == v && Parse(s, base).value.1 == |s|
  }

  predicate PadChar(c: char) {
    c == ' ' || c == '0' || c == '-'
  }

  /** The number of pad characters. */
  function Pads(num: nat, base: nat, width: int): nat
    requires 2 <= base <= 16
  {
    var n := |Digits(num, base)|;
    if width > n then width - n else 0
  }

  lemma PadsIs(num: nat, base: nat, width: int, padc: char)
    requires 2 <= base <= 16
    ensures var digits, pads := Digits(num, base), Pads(num, base, width);
      && Padded(num, base, width, padc) == Repeat(padc, pads) + digits
      && (pads == 0 ==> Padded(num, base, width, padc) == digits == Padded(num, base, width, '0'))
  {
  }

  /**
   * A number printed in base 8, 10 or 16 reads back as itself, to the last character, exactly if it is at most
   * `LONG_MAX` and not padded with minuses, but for the one case "-0".
   */
  lemma PrintThenParseIff(num: nat, base: nat, width: int, padc: char)
    requires (base == 8 || base == 10 || base == 16) && PadChar(padc)
    ensures NoNul(Padded(num, base, width, padc))
    ensures ReadsAs(Padded(num, base, width, padc), base, num) <==>
            num <= LONG_MAX && var pads := Pads(num, base, width); pads == 0 || padc != '-' || (pads == 1 && num == 0)
  {
    hide Digits, Value, Parse, IsDigit, HexChar, Padded;
    var s, digits, pads := Padded(num, base, width, padc), Digits(num, base), Pads(num, base, width);
    PaddedIsString(num, base, width, padc);
    PaddedDigits(num, base, width);
    PadsIs(num, base, width, padc);
    if pads == 0 || padc == '0' {
      assert s[0..] == s;
      DigitsParse(s, 0, base);
    } else if padc == ' ' {
      assert s[pads..] == digits;
      DigitsParse(s, pads, base);
    } else if pads == 1 {
      assert s[1..] == digits;
      MinusParse(s, base);
    } else {
      MinusStops(s, base);
    }
  }

  /** What `%p` prints reads back in base 16 exactly if it is at most `LONG_MAX` and not padded, or with zeros. */
  lemma PointerReadsBackIff(num: nat, width: int, padc: char)
    requires PadChar(padc)
    ensures NoNul("0x" + Padded(num, 16, width, padc))
    ensures ReadsAs("0x" + Padded(num, 16, width, padc), 16, num) <==>
            num <= LONG_MAX && (Pads(num, 16, width) == 0 || padc == '0')
  {
    hide Digits, Value, IsDigit, HexChar, Padded;
    var s, body := "0x" + Padded(num, 16, width, padc), Padded(num, 16, width, padc);
    PaddedIsString(num, 16, width, padc);
    PaddedDigits(num, 16, width);
    PadsIs(num, 16, width, padc);
    Signs(16);
    assert NoNul(s);
    assert Header(s, 16) == (2, false, 16);
    assert s[2..] == s[2..|s|] == body;
    if Pads(num, 16, width) == 0 || padc == '0' {
      forall k | 2 <= k < |s|
        ensures IsDigit(s[k], 16)
      {
        assert s[k] == body[k - 2];
      }
      DigitsToEnd(s, 2, 16);
    } else {
      assert s[2] == padc;
    }
  }

  // ----- reading a number part by part --------------------------------------------------------------------------

  /** `c` is the digit or letter, of either case, for `v`. */
  predicate StandsFor(c: char, v: nat) {
    var n := c as int;
    (v < 10 && n == 48 + v) || (10 <= v < 36 && (n == 97 + v - 10 || n == 65 + v - 10))
  }

  function Power(b: nat, n: nat): nat {
    if n == 0 then 1 else b * Power(b, n - 1)
  }

  /** The number with these digits, each with its place value. */
  function Sum(vs: seq<nat>, b: nat): nat {
    if vs == [] then 0 else vs[0] * Power(b, |vs| - 1) + Sum(vs[1..], b)
  }

  /** Nothing comes before the digits in base `b` but what `base` allows: "0x" for 16, "0" for 8 if `base` is 0. */
  predicate PrefixFor(base: int, prefix: string, tail: string, b: nat) {
    || ((base == 0 || base == 16) && prefix == "0x" && b == 16)
    || (base == 0 && prefix == "0" && b == 8 && (tail == "" || tail[0] != 'x'))
    || (base == 0 && prefix == "" && b == 10 && (tail == "" || tail[0] != '0'))
    || (base == b > 0 && prefix == "" && (base == 16 ==> !("0x" <= tail)))
  }

  lemma SumSnocStep(v0: nat, p: nat, b: nat, s: nat, v: nat)
    ensures v0 * (b * p) + (s * b + v) == (v0 * p + s) * b + v
  {
  }

  lemma {:induction false} SumSnoc(vs: seq<nat>, v: nat, b: nat)
    ensures Sum(vs + [v], b) == Sum(vs, b) * b + v
  {
    var all := vs + [v];
    if vs == [] {
      assert all[1..] == [];
      assert Power(b, 0) == 1;
    } else {
      assert all[1..] == vs[1..] + [v];
      SumSnoc(vs[1..], v, b);
      SumSnocStep(vs[0], Power(b, |vs| - 1), b, Sum(vs[1..], b), v);
    }
  }

  lemma {:induction false} ValueIsSum(ds: string, vs: seq<nat>, b: nat)
    requires |ds| == |vs| && forall k :: 0 <= k < |ds| ==> StandsFor(ds[k], vs[k])
    ensures Value(ds, b) == Sum(vs, b)
  {
    if ds != "" {
      var n := |ds| - 1;
      ValueIsSum(ds[..n], vs[..n], b);
      assert vs == vs[..n] + [vs[n]];
      SumSnoc(vs[..n], vs[n], b);
      StandsForIs(ds[n], vs[n]);
    }
  }

  lemma StandsForIs(c: char, v: nat)
    requires StandsFor(c, v)
    ensures DigitOf(c) == v < 36
  {
  }

  /** What stands for no digit of the base is none. */
  lemma NoDigit(c: char, b: nat)
    requires forall v :: 0 <= v < b && v < 36 ==> !StandsFor(c, v)
    ensures !IsDigit(c, b)
  {
    if IsDigit(c, b) { assert StandsFor(c, DigitOf(c)); }
  }

  /**
   * Whatever text `strtol` is given, seen as blanks and tabs, a sign, a prefix, digits and a rest that starts with no
   * digit: it reads the number that the digits stand for, and stops at the rest.
   */
  lemma NumberRead(s: CString, base: int, pre: string, sign: string, prefix: string, ds: string, vs: seq<nat>,
                   rest: string, b: nat)
    requires s == pre + sign + prefix + ds + rest && (sign == "" || sign == "+" || sign == "-")
    requires forall k :: 0 <= k < |pre| ==> pre[k] == ' ' || pre[k] == '\t'
    requires sign == "" ==> var tail := prefix + ds + rest;
      tail == "" || (tail[0] != ' ' && tail[0] != '\t' && tail[0] != '+' && tail[0] != '-')
    requires PrefixFor(base, prefix, ds + rest, b)
    requires |ds| == |vs| && forall k :: 0 <= k < |ds| ==> StandsFor(ds[k], vs[k]) && vs[k] < b
    requires rest == "" || forall v :: 0 <= v < b && v < 36 ==> !StandsFor(rest[0], v)
    ensures var v: int, e := Sum(vs, b), |pre| + |sign| + |prefix| + |ds|;
      && ParseEnd(s, base) == e
      && Parse(s, base) == if v <= LONG_MAX then Some((if sign == "-" then -v else v, e)) else None
  {
    hide Header, PrefixFor, DigitsEnd, Value, Sum, StandsFor;
    var h := |pre| + |sign| + |prefix|;
    Regroup(pre, sign, prefix, ds, rest);
    HeaderRead(s, base, pre, sign, prefix, ds + rest, b);
    DigitsRead(s, h, ds, vs, rest, b);
  }

  lemma Regroup(a: string, b: string, c: string, d: string, e: string)
    ensures a + b + c + d + e == a + b + c + (d + e) && (a + b + c + d + e)[|a| + |b| + |c|..] == d + e
    ensures c + d + e == c + (d + e)
  {
  }

  lemma DigitsRead(s: CString, h: nat, ds: string, vs: seq<nat>, rest: string, b: nat)
    requires h <= |s| && s[h..] == ds + rest
    requires |ds| == |vs| && forall k :: 0 <= k < |ds| ==> StandsFor(ds[k], vs[k]) && vs[k] < b
    requires rest == "" || forall v :: 0 <= v < b && v < 36 ==> !StandsFor(rest[0], v)
    ensures DigitsEnd(s, h, b) == h + |ds| && Value(s[h..h + |ds|], b) == Sum(vs, b)
  {
    hide Value, Sum;
    var e := h + |ds|;
    forall k | h <= k < e
      ensures IsDigit(s[k], b)
    {
      assert s[k] == s[h..][k - h] == ds[k - h];
      StandsForIs(ds[k - h], vs[k - h]);
    }
    if rest == "" {
      assert e == |s| && !IsDigit('\0', b);
    } else {
      assert s[e] == s[h..][|ds|] == rest[0];
      NoDigit(rest[0], b);
    }
    DigitsTo(s, h, e, b);
    assert s[h..e] == s[h..][..|ds|] == ds;
    ValueIsSum(ds, vs, b);
  }

  lemma HeaderRead(s: CString, base: int, pre: string, sign: string, prefix: string, tail: string, b: nat)
    requires s == pre + sign + prefix + tail && (sign == "" || sign == "+" || sign == "-")
    requires forall k :: 0 <= k < |pre| ==> pre[k] == ' ' || pre[k] == '\t'
    requires sign == "" ==> var all := prefix + tail;
      all == "" || (all[0] != ' ' && all[0] != '\t' && all[0] != '+' && all[0] != '-')
    requires PrefixFor(base, prefix, tail, b)
    ensures Header(s, base) == (|pre| + |sign| + |prefix|, sign == "-", b)
  {
    hide Header, PrefixFor, BlanksEnd;
    var i := |pre|;
    var rest := sign + (prefix + tail);
    assert s == pre + rest;
    assert s[i..] == rest;
    forall k | 0 <= k < i
      ensures Blank(s[k])
    {
      assert s[k] == pre[k];
    }
    FromAt(s, i);
    BlanksTo(s, 0, i);
    SignRead(s, base, i, sign, prefix, tail, b);
  }

  lemma SignRead(s: CString, base: int, i: nat, sign: string, prefix: string, tail: string, b: nat)
    requires i <= |s| && s[i..] == sign + (prefix + tail) && (sign == "" || sign == "+" || sign == "-")
    requires BlanksEnd(s, 0) == i
    requires sign == "" ==> var all := prefix + tail; all == "" || (all[0] != '+' && all[0] != '-')
    requires PrefixFor(base, prefix, tail, b)
    ensures Header(s, base) == (i + |sign| + |prefix|, sign == "-", b)
  {
    hide BlanksEnd, PrefixFor, First, Header;
    var j, all := i + |sign|, prefix + tail;
    assert s[j..] == s[i..][|sign|..] == all;
    PrefixChars(base, prefix, tail, b);
    FirstTwo(s, j);
    FirstTwo(s, i);
    SignChar(sign, all);
    FirstIs(all);
    HeaderAt(s, base, i, j);
  }

  lemma FirstIs(all: string)
    ensures all != "" ==> First(all) == all[0]
    ensures all == "" ==> First(all) == '\0'
  {
  }

  /** The header in terms of the characters at the place of the sign and behind it. */
  lemma HeaderAt(s: CString, base: int, i: nat, j: nat)
    requires BlanksEnd(s, 0) == i <= |s|
    requires var c := At(s, i); j == if c == '+' || c == '-' then i + 1 else i
    ensures j <= |s|
    ensures var neg, hex := At(s, i) == '-', At(s, j) == '0' && At(s, j + 1) == 'x';
      Header(s, base) ==
        if (base == 0 || base == 16) && hex then (j + 2, neg, 16)
        else if base == 0 && At(s, j) == '0' then (j + 1, neg, 8)
        else (j, neg, if base == 0 then 10 else base)
  {
    hide BlanksEnd;
  }

  lemma SignChar(sign: string, all: string)
    requires sign == "" || sign == "+" || sign == "-"
    ensures First(sign + all) == if sign == "" then First(all) else if sign == "+" then '+' else '-'
    ensures |sign| == if sign == "" then 0 else 1
  {
  }

  /** The first character of what is left of a string. */
  function First(s: string): char {
    if s == "" then '\0' else s[0]
  }

  lemma FirstTwo(s: CString, j: nat)
    requires j <= |s|
    ensures At(s, j) == First(s[j..]) && (j < |s| ==> At(s, j + 1) == First(s[j..][1..]))
  {
    FromAt(s, j);
    if j < |s| {
      FromAt(s, j + 1);
      assert s[j + 1..] == s[j..][1..];
    }
  }

  /** The prefix as the first two characters show it. */
  lemma PrefixChars(base: int, prefix: string, tail: string, b: nat)
    requires PrefixFor(base, prefix, tail, b)
    ensures var all := prefix + tail;
      var hex := First(all) == '0' && First(all[1..]) == 'x';
      (|prefix|, b) ==
        if (base == 0 || base == 16) && hex then (2, 16)
        else if base == 0 && First(all) == '0' then (1, 8)
        else (0, if base == 0 then 10 else base)
  {
  }

  lemma FromAt(s: CString, i: nat)
    requires i <= |s|
    ensures At(s, i) == if s[i..] == "" then '\0' else s[i..][0]
  {
  }

  // ----- signed numbers -----------------------------------------------------------------------------------------

  function Abs(v: int): nat {
    if v < 0 then -v else v
  }

  /** What `%d` prints: the sign before the padding. */
  function Signed(v: int, width: int, padc: char): string {
    (if v < 0 then "-" else "") + Padded(Abs(v), 10, width, padc)
  }

  /** The padding lets a signed number be read back. */
  predicate PaddingReadsBack(v: int, width: int, padc: char) {
    var pads := Pads(Abs(v), 10, width);
    pads == 0 || padc == '0' || (padc == ' ' && v >= 0) || (padc == '-' && pads == 1 && v == 0)
  }

  /**
   * What `%ld` prints reads back exactly if the magnitude is at most `LONG_MAX` and there is no padding, or it is with
   * zeros, or with blanks before a number that is not negative, or the output is "-0".
   */
  lemma SignedReadsBackIff(v: int, width: int, padc: char)
    requires PadChar(padc)
    ensures NoNul(Signed(v, width, padc))
    ensures ReadsAs(Signed(v, width, padc), 10, v) <==> -LONG_MAX <= v <= LONG_MAX && PaddingReadsBack(v, width, padc)
  {
    hide Digits, Value, Parse, HexChar, IsDigit, Padded;
    PaddedIsString(Abs(v), 10, width, padc);
    var s: CString := Signed(v, width, padc);
    if v >= 0 {
      assert s == Padded(v, 10, width, padc);
      PrintThenParseIff(v, 10, width, padc);
    } else {
      PaddedDigits(-v, 10, width);
      PadsIs(-v, 10, width, padc);
      assert s[1..] == Padded(-v, 10, width, padc);
      if Pads(-v, 10, width) == 0 || padc == '0' {
        MinusParse(s, 10);
      } else {
        MinusStops(s, 10);
      }
    }
  }
}
