/** The format interpreter of the kernel's and the user library's `printf`, and `vsnprintf` on top of it. */
module Format {
  import opened Bytes
  import opened Numbers
  import opened Options

  const E_UNSPECIFIED := 1
  const E_BAD_PROC := 2
  const E_INVAL := 3
  const E_NO_MEM := 4
  const E_NO_FREE_PROC := 5
  const E_FAULT := 6
  const E_INVAL_ELF := 8
  const E_KILLED := 9
  const E_PANIC := 10
  const E_NO_DEV := 13
  const E_NA_DEV := 14
  const E_BUSY := 15
  const E_NOENT := 16
  const E_ISDIR := 17
  const E_NOTDIR := 18
  const E_XDEV := 19
  const E_UNIMP := 20
  const E_SEEK := 21
  const E_MAX_OPEN := 22
  const E_EXISTS := 23
  const E_NOTEMPTY := 24

  /** The arguments as they lie in their 64-bit slots, and the strings that pointers lead to. */
  type Args = nat -> u64
  type Memory = u64 -> CString

  // ----- arguments ----------------------------------------------------------------------------------------------

  function Low32(w: u64): u32 {
    w % 0x1_0000_0000
  }

  function Int32(w: u64): int {
    if Low32(w) < 0x8000_0000 then Low32(w) else Low32(w) - 0x1_0000_0000
  }

  function Int64(w: u64): int {
    if w < 0x8000_0000_0000_0000 then w else w - 0x1_0000_0000_0000_0000
  }

  /** `getuint`: one `l` is as good as two. */
  function GetUint(w: u64, lflag: nat): u64 {
    if lflag >= 1 then w else Low32(w)
  }

  function GetInt(w: u64, lflag: nat): int {
    if lflag >= 1 then Int64(w) else Int32(w)
  }

  // ----- an escape's flags --------------------------------------------------------------------------------------

  /** What has been read of an escape; `arg` is the number of arguments taken so far. */
  datatype Flags = Flags(padc: char, width: int, precision: int, lflag: nat, alt: bool, arg: nat)

  function NoFlags(arg: nat): Flags {
    Flags(' ', -1, -1, 0, false, arg)
  }

  /** The first number is the width, any later one the precision. */
  function SetNumber(fl: Flags, v: int): Flags {
    if fl.width < 0 then fl.(width := v, precision := -1) else fl.(precision := v)
  }

  predicate IsFlag(c: char) {
    c == '-' || '0' <= c <= '9' || c == '*' || c == '.' || c == '#' || c == 'l'
  }

  /** What the flags from place `i` on come to, and the place of the conversion character after them. */
  function Scan(f: CString, i: nat, fl: Flags, args: Args): (r: (nat, Flags))
    requires i <= |f|
    ensures i <= r.0 <= |f| && !IsFlag(At(f, r.0)) && fl.arg <= r.1.arg
    ensures forall k :: i <= k < r.0 ==> f[k] != '%'
    ensures PadChar(fl.padc) ==> PadChar(r.1.padc)
    decreases |f| - i
  {
    var c := At(f, i);
    if c == '-' || c == '0' then Scan(f, i + 1, fl.(padc := c), args)
    else if '1' <= c <= '9' then
      var e := DigitsEnd(f, i, 10);
      assert IsDigit(f[i], 10);
      Scan(f, e, SetNumber(fl, Value(f[i..e], 10)), args)
    else if c == '*' then Scan(f, i + 1, SetNumber(fl, Int32(args(fl.arg))).(arg := fl.arg + 1), args)
    else if c == '.' then Scan(f, i + 1, if fl.width < 0 then fl.(width := 0) else fl, args)
    else if c == '#' then Scan(f, i + 1, fl.(alt := true), args)
    else if c == 'l' then Scan(f, i + 1, fl.(lflag := fl.lflag + 1), args)
    else (i, fl)
  }

  // ----- conversions --------------------------------------------------------------------------------------------

  const MAXERROR := 24

  /** The messages for error codes; 7, 11 and 12 have none. */
  function Message(err: nat): Option<string> {
    match err
    case 1 => Some("unspecified error")
    case 2 => Some("bad process")
    case 3 => Some("invalid parameter")
    case 4 => Some("out of memory")
    case 5 => Some("out of processes")
    case 6 => Some("segmentation fault")
    case 8 => Some("invalid elf file")
    case 9 => Some("process is killed")
    case 10 => Some("panic failure")
    case 13 => Some("no such device")
    case 14 => Some("device not available")
    case 15 => Some("device/file is busy")
    case 16 => Some("no such file or directory")
    case 17 => Some("is a directory")
    case 18 => Some("not a directory")
    case 19 => Some("cross device link")
    case 20 => Some("unimplemented feature")
    case 21 => Some("illegal seek")
    case 22 => Some("too many files are open")
    case 23 => Some("file or directory already exists")
    case 24 => Some("directory is not empty")
    case _ => None
  }

  function ErrorText(err: nat): string {
    match Message(err)
    case Some(text) => text
    case None => "error " + Digits(err, 10)
  }

  /** How much of a string `%s` prints. */
  function Shown(p: CString, precision: int): nat {
    if 0 <= precision < |p| then precision else |p|
  }

  function Plain(c: char, alt: bool): char {
    if alt && (c < ' ' || c > '~') then '?' else c
  }

  function PlainText(p: string, alt: bool): string {
    seq(|p|, k requires 0 <= k < |p| => Plain(p[k], alt))
  }

  /** `%s`: blanks or zeros before the text, or blanks after it with the flag `-`. */
  function StringText(p: CString, fl: Flags): string {
    var n := Shown(p, fl.precision);
    var pad := fl.width - n;
    (if fl.padc != '-' then Repeat(fl.padc, pad) else "")
    + PlainText(p[..n], fl.alt)
    + (if fl.padc == '-' then Repeat(' ', pad) else "")
  }

  /** What a conversion prints, and the number of arguments taken after it; nothing if it is not known. */
  function Convert(c: char, fl: Flags, args: Args, mem: Memory): Option<(string, nat)> {
    var w := args(fl.arg);
    match c
    case 'c' => Some(([(w % 256) as char], fl.arg + 1))
    case 'e' => Some((ErrorText(Abs(Int32(w))), fl.arg + 1))
    case 's' => Some((StringText(if w == 0 then "(null)" else mem(w), fl), fl.arg + 1))
    case 'd' => Some((Signed(GetInt(w, fl.lflag), fl.width, fl.padc), fl.arg + 1))
    case 'u' => Some((Padded(GetUint(w, fl.lflag), 10, fl.width, fl.padc), fl.arg + 1))
    case 'o' => Some((Padded(GetUint(w, fl.lflag), 8, fl.width, fl.padc), fl.arg + 1))
    case 'p' => Some(("0x" + Padded(w, 16, fl.width, fl.padc), fl.arg + 1))
    case 'x' => Some((Padded(GetUint(w, fl.lflag), 16, fl.width, fl.padc), fl.arg + 1))
    case '%' => Some(("%", fl.arg))
    case _ => None
  }

  /** All that is printed for the format from place `i` on, with `arg` arguments taken. */
  function Output(f: CString, i: nat, arg: nat, args: Args, mem: Memory): string
    requires i <= |f|
    decreases |f| - i
  {
    if i == |f| then ""
    else if f[i] != '%' then [f[i]] + Output(f, i + 1, arg, args, mem)
    else
      var (j, fl) := Scan(f, i + 1, NoFlags(arg), args);
      match Convert(At(f, j), fl, args, mem)
      case Some((text, arg')) => text + Output(f, j + 1, arg', args, mem)
      case None => "%" + Output(f, i + 1, fl.arg, args, mem)
  }

  const INT_MIN := -0x8000_0000
  const INT_MAX := 0x7FFF_FFFF
  const LONG_MIN := -0x8000_0000_0000_0000

  /**
   * No `%e` that is reached takes INT_MIN, whose negation wraps to itself; with it the table of messages is indexed out
   * of its bounds.
   */
  predicate Defined(f: CString, i: nat, arg: nat, args: Args, mem: Memory)
    requires i <= |f|
    decreases |f| - i
  {
    if i == |f| then true
    else if f[i] != '%' then Defined(f, i + 1, arg, args, mem)
    else
      var (j, fl) := Scan(f, i + 1, NoFlags(arg), args);
      match Convert(At(f, j), fl, args, mem)
      case Some((_, arg')) => ErrorDefined(At(f, j), fl, args) && Defined(f, j + 1, arg', args, mem)
      case None => Defined(f, i + 1, fl.arg, args, mem)
  }

  /** What 32-bit arithmetic makes of a number. */
  function Wrap32(x: int): int {
    (x + 0x8000_0000) % 0x1_0000_0000 - 0x8000_0000
  }

  predicate ErrorDefined(c: char, fl: Flags, args: Args) {
    c == 'e' ==> Int32(args(fl.arg)) != INT_MIN
  }

  /** Without an `e` in it a format is defined for all arguments. */
  lemma {:induction false} DefinedWithoutErrors(f: CString, i: nat, arg: nat, args: Args, mem: Memory)
    requires i <= |f| && 'e' !in f
    ensures Defined(f, i, arg, args, mem)
    decreases |f| - i
  {
    hide Scan, Convert;
    if i < |f| {
      if f[i] != '%' {
        DefinedWithoutErrors(f, i + 1, arg, args, mem);
      } else {
        var (j, fl) := Scan(f, i + 1, NoFlags(arg), args);
        EndIsUnknown(fl, args, mem);
        match Convert(At(f, j), fl, args, mem)
        case Some((_, arg')) => DefinedWithoutErrors(f, j + 1, arg', args, mem);
        case None => DefinedWithoutErrors(f, i + 1, fl.arg, args, mem);
      }
    }
  }

  // ----- properties of the interpreter --------------------------------------------------------------------------

  lemma {:induction false} LiteralRun(f: CString, i: nat, j: nat, arg: nat, args: Args, mem: Memory)
    requires i <= j <= |f| && forall k :: i <= k < j ==> f[k] != '%'
    ensures Output(f, i, arg, args, mem) == f[i..j] + Output(f, j, arg, args, mem)
    decreases j - i
  {
    hide Output;
    if i < j {
      OutputPlain(f, i, arg, args, mem);
      LiteralRun(f, i + 1, j, arg, args, mem);
      Glue(f, i, j, Output(f, j, arg, args, mem));
    }
  }

  lemma OutputPlain(f: CString, i: nat, arg: nat, args: Args, mem: Memory)
    requires i < |f| && f[i] != '%'
    ensures Output(f, i, arg, args, mem) == [f[i]] + Output(f, i + 1, arg, args, mem)
  {
    hide Scan, Convert;
  }

  /** A format without escapes prints as it is. */
  lemma NoEscapes(f: CString, args: Args, mem: Memory)
    requires forall k :: 0 <= k < |f| ==> f[k] != '%'
    ensures Output(f, 0, 0, args, mem) == f
  {
    LiteralRun(f, 0, |f|, 0, args, mem);
    assert f[0..|f|] == f;
  }

  /**
   * An escape whose conversion is not known, the end of the format included, prints as it stands in the format; but
   * the arguments that its stars took are gone.
   */
  lemma UnknownIsLiteral(f: CString, i: nat, j: nat, fl: Flags, arg: nat, args: Args, mem: Memory)
    requires i < |f| && f[i] == '%' && Scan(f, i + 1, NoFlags(arg), args) == (j, fl)
    requires Convert(At(f, j), fl, args, mem).None?
    ensures Output(f, i, arg, args, mem) == f[i..j] + Output(f, j, fl.arg, args, mem)
  {
    hide Output, Convert, Scan;
    UnknownRewinds(f, i, j, fl, arg, args, mem);
    LiteralRun(f, i + 1, j, fl.arg, args, mem);
    Glue(f, i, j, Output(f, j, fl.arg, args, mem));
  }

  lemma Glue(f: string, i: nat, j: nat, rest: string)
    requires i < j <= |f|
    ensures [f[i]] + (f[i + 1..j] + rest) == f[i..j] + rest
  {
    assert f[i..j] == [f[i]] + f[i + 1..j];
  }

  lemma UnknownRewinds(f: CString, i: nat, j: nat, fl: Flags, arg: nat, args: Args, mem: Memory)
    requires i < |f| && f[i] == '%' && Scan(f, i + 1, NoFlags(arg), args) == (j, fl)
    requires Convert(At(f, j), fl, args, mem).None?
    ensures Output(f, i, arg, args, mem) == "%" + Output(f, i + 1, fl.arg, args, mem)
  {
    hide Scan, Convert;
  }

  /** `%e` prints just what the nested call with "error %d" prints. */
  lemma NestedError(err: nat, args: Args, mem: Memory)
    requires Message(err).None? && args(0) == err < 0x8000_0000
    ensures Output("error %d", 0, 0, args, mem) == ErrorText(err)
  {
    hide Message, Output, Digits, Scan, Convert;
    ErrorFormat("error %d", args, mem);
    assert Int32(args(0)) == err;
    assert Padded(err, 10, -1, ' ') == Digits(err, 10);
  }

  lemma ErrorFormat(f: CString, args: Args, mem: Memory)
    requires f == "error %d"
    ensures Output(f, 0, 0, args, mem) == "error " + Signed(Int32(args(0)), -1, ' ')
  {
    hide Convert, Signed, Padded;
    LiteralRun(f, 0, 6, 0, args, mem);
    assert f[0..6] == "error ";
    assert Scan(f, 7, NoFlags(0), args) == (7, NoFlags(0));
    DecimalConversion(NoFlags(0), args, mem);
    assert Output(f, 8, 1, args, mem) == "";
  }

  lemma DecimalConversion(fl: Flags, args: Args, mem: Memory)
    ensures Convert('d', fl, args, mem) == Some((Signed(GetInt(args(fl.arg), fl.lflag), fl.width, fl.padc), fl.arg + 1))
  {
  }

  /** The field is as wide as asked for, or as the text. */
  lemma StringTextLength(p: CString, fl: Flags)
    ensures |StringText(p, fl)| == if fl.width > Shown(p, fl.precision) then fl.width else Shown(p, fl.precision)
  {
  }

  /** The format is one escape: its flags end at the last character. */
  predicate OneEscape(f: CString, args: Args) {
    |f| >= 2 && f[0] == '%' && Scan(f, 1, NoFlags(0), args).0 + 1 == |f|
  }

  /** The flags of a format that is one escape. */
  function FlagsOf(f: CString, args: Args): (fl: Flags)
    requires OneEscape(f, args)
    ensures PadChar(fl.padc)
  {
    Scan(f, 1, NoFlags(0), args).1
  }

  /** A format that is one `%e` escape is defined exactly if its argument is not INT_MIN. */
  lemma OneErrorDefinedIff(f: CString, args: Args, mem: Memory)
    requires OneEscape(f, args) && f[|f| - 1] == 'e'
    ensures Defined(f, 0, 0, args, mem) <==> Int32(args(FlagsOf(f, args).arg)) != INT_MIN
  {
    hide Scan;
    var fl := FlagsOf(f, args);
    assert Convert('e', fl, args, mem).Some?;
    assert Defined(f, |f|, fl.arg + 1, args, mem);
  }

  lemma OneConversion(f: CString, args: Args, mem: Memory)
    requires OneEscape(f, args) && Convert(f[|f| - 1], FlagsOf(f, args), args, mem).Some?
    ensures Output(f, 0, 0, args, mem) == Convert(f[|f| - 1], FlagsOf(f, args), args, mem).value.0
  {
    hide Scan, Convert;
    var (text, arg) := Convert(f[|f| - 1], FlagsOf(f, args), args, mem).value;
    assert Output(f, |f|, arg, args, mem) == "";
    assert Output(f, 0, 0, args, mem) == text + "";
  }

  /**
   * A format that is one `%...d` escape prints a number that `strtol` reads back, to the last character, exactly if
   * the number is not LONG_MIN, and there is no padding, or it is with zeros, or with blanks before a number that is
   * not negative, or the output is "-0".
   */
  lemma DecimalReadsBackIff(f: CString, args: Args, mem: Memory)
    requires OneEscape(f, args) && f[|f| - 1] == 'd'
    ensures var fl := FlagsOf(f, args);
      var v, text := GetInt(args(fl.arg), fl.lflag), Output(f, 0, 0, args, mem);
      NoNul(text) && (ReadsAs(text, 10, v) <==> v > LONG_MIN && PaddingReadsBack(v, fl.width, fl.padc))
  {
    var fl, c := FlagsOf(f, args), f[|f| - 1];
    hide Convert, ReadsAs, Signed, Pads, Output, NoNul, OneEscape, FlagsOf;
    DecimalConversion(fl, args, mem);
    OneConversion(f, args, mem);
    SignedReadsBackIff(GetInt(args(fl.arg), fl.lflag), fl.width, fl.padc);
  }

  /** The base in which a conversion prints an unsigned number. */
  function BaseOf(c: char): nat {
    if c == 'o' then 8 else if c == 'x' then 16 else 10
  }

  /**
   * A format that is one `%...u`, `%...o` or `%...x` escape prints what reads back exactly if the number is at most
   * LONG_MAX and not padded with minuses, but for "-0".
   */
  lemma UnsignedReadsBackIff(f: CString, args: Args, mem: Memory)
    requires OneEscape(f, args) && f[|f| - 1] in "uox"
    ensures var fl, base := FlagsOf(f, args), BaseOf(f[|f| - 1]);
      var num, text := GetUint(args(fl.arg), fl.lflag), Output(f, 0, 0, args, mem);
      var pads := Pads(num, base, fl.width);
      && NoNul(text)
      && (ReadsAs(text, base, num) <==> num <= LONG_MAX && (pads == 0 || fl.padc != '-' || (pads == 1 && num == 0)))
  {
    var fl, c := FlagsOf(f, args), f[|f| - 1];
    hide Convert, ReadsAs, Padded, Pads, Output, NoNul, OneEscape, FlagsOf, GetUint;
    UnsignedConversion(c, fl, args, mem);
    OneConversion(f, args, mem);
    PrintThenParseIff(GetUint(args(fl.arg), fl.lflag), BaseOf(c), fl.width, fl.padc);
  }

  /** What `%s` takes: the string its argument leads to, or "(null)". */
  function TextOf(w: u64, mem: Memory): CString {
    if w == 0 then "(null)" else mem(w)
  }

  /**
   * `out` is the field of a string: the string, or as much as the precision allows, character by character, with `#`
   * a '?' for each one that is not between ' ' and '~'; and up to the width the pad character before it, or with `-`
   * blanks behind it.
   */
  ghost predicate FieldOf(out: string, p: CString, fl: Flags) {
    var n := if 0 <= fl.precision < |p| then fl.precision else |p|;
    var pads := if fl.width > n then fl.width - n else 0;
    var at := if fl.padc == '-' then 0 else pads;
    && |out| == pads + n
    && (!fl.alt ==> out[at..at + n] == p[..n])
    && (forall k :: 0 <= k < n ==> out[at + k] == if fl.alt && !(' ' <= p[k] <= '~') then '?' else p[k])
    && (forall k :: 0 <= k < at ==> out[k] == fl.padc)
    && (forall k :: at + n <= k < |out| ==> out[k] == ' ')
  }

  /** A format that is one `%...s` escape prints the field of its string. */
  lemma StringPrinted(f: CString, args: Args, mem: Memory)
    requires OneEscape(f, args) && f[|f| - 1] == 's'
    ensures FieldOf(Output(f, 0, 0, args, mem), TextOf(args(FlagsOf(f, args).arg), mem), FlagsOf(f, args))
  {
    var fl := FlagsOf(f, args);
    hide OneEscape, FlagsOf, Output, StringText, FieldOf;
    StringConversion(fl, args, mem);
    OneConversion(f, args, mem);
    StringTextIsField(TextOf(args(fl.arg), mem), fl);
  }

  lemma StringTextIsField(p: CString, fl: Flags)
    ensures FieldOf(StringText(p, fl), p, fl)
  {
    var n := Shown(p, fl.precision);
    var before := if fl.padc != '-' then Repeat(fl.padc, fl.width - n) else "";
    var behind := if fl.padc == '-' then Repeat(' ', fl.width - n) else "";
    var text := PlainText(p[..n], fl.alt);
    PlainTextIs(p[..n], fl.alt);
    assert StringText(p, fl) == before + text + behind;
    hide PlainText, StringText, Repeat;
    FieldParts(before, text, behind, p, fl);
  }

  lemma FieldParts(before: string, text: string, behind: string, p: CString, fl: Flags)
    requires var n := if 0 <= fl.precision < |p| then fl.precision else |p|;
      var pads := if fl.width > n then fl.width - n else 0;
      && |text| == n && |before| == (if fl.padc == '-' then 0 else pads) && |before| + |behind| == pads
      && (!fl.alt ==> text == p[..n])
      && (forall k :: 0 <= k < n ==> text[k] == if fl.alt && !(' ' <= p[k] <= '~') then '?' else p[k])
    requires forall k :: 0 <= k < |before| ==> before[k] == fl.padc
    requires forall k :: 0 <= k < |behind| ==> behind[k] == ' '
    ensures FieldOf(before + text + behind, p, fl)
  {
    Three(before, text, behind);
  }

  lemma PlainTextIs(p: string, alt: bool)
    ensures |PlainText(p, alt)| == |p| && (!alt ==> PlainText(p, alt) == p)
    ensures forall k :: 0 <= k < |p| ==> PlainText(p, alt)[k] == if alt && !(' ' <= p[k] <= '~') then '?' else p[k]
  {
  }

  lemma Three(a: string, b: string, c: string)
    ensures var s := a + b + c;
      && |s| == |a| + |b| + |c| && s[|a|..|a| + |b|] == b
      && (forall k :: 0 <= k < |a| ==> s[k] == a[k]) && (forall k :: 0 <= k < |b| ==> s[|a| + k] == b[k])
      && (forall k :: |a| + |b| <= k < |s| ==> s[k] == c[k - |a| - |b|])
  {
  }

  lemma StringConversion(fl: Flags, args: Args, mem: Memory)
    ensures Convert('s', fl, args, mem) == Some((StringText(TextOf(args(fl.arg), mem), fl), fl.arg + 1))
  {
  }

  // ----- flags, width and precision as they are written ---------------------------------------------------------

  lemma ScanNumber(f: CString, i: nat, n: nat, fl: Flags, args: Args)
    requires n > 0 && i + |Digits(n, 10)| < |f| && f[i..i + |Digits(n, 10)|] == Digits(n, 10)
    requires !('0' <= f[i + |Digits(n, 10)|] <= '9')
    ensures Scan(f, i, fl, args) == Scan(f, i + |Digits(n, 10)|, SetNumber(fl, n), args)
  {
    hide Digits, Value, SetNumber;
    var d := Digits(n, 10);
    var e := i + |d|;
    DigitsAreDigits(n, 10);
    FirstDigit(n, 10);
    forall k | i <= k < e
      ensures IsDigit(f[k], 10)
    {
      assert f[k] == d[k - i];
    }
    DigitsTo(f, i, e, 10);
    assert f[i] == d[0];
    DecimalDigit(f[i]);
    hide Scan;
    ScanAtDigit(f, i, fl, args);
  }

  lemma DecimalDigit(c: char)
    requires IsDigit(c, 10)
    ensures '0' <= c <= '9'
  {
  }

  lemma ScanAtDigit(f: CString, i: nat, fl: Flags, args: Args)
    requires i < |f| && '1' <= f[i] <= '9'
    ensures var e := DigitsEnd(f, i, 10);
      e > i && Scan(f, i, fl, args) == Scan(f, e, SetNumber(fl, Value(f[i..e], 10)), args)
  {
    assert IsDigit(f[i], 10);
  }

  lemma {:induction false} ScanLs(f: CString, i: nat, e: nat, fl: Flags, args: Args)
    requires i <= e < |f| && (forall k :: i <= k < e ==> f[k] == 'l') && !IsFlag(f[e])
    ensures Scan(f, i, fl, args) == (e, fl.(lflag := fl.lflag + (e - i)))
    decreases e - i
  {
    if i < e { ScanLs(f, i + 1, e, fl.(lflag := fl.lflag + 1), args); }
  }

  function WidthText(width: nat): string {
    if width > 0 then Digits(width, 10) else ""
  }

  function PrecisionText(precision: nat): string {
    if precision > 0 then "." + Digits(precision, 10) else ""
  }

  /** An escape as it is commonly written: a pad character, a width, a period and a precision, `#`, `l` and a letter. */
  function Escape(pad: string, width: nat, precision: nat, alt: bool, ls: nat, c: char): string {
    "%" + pad + WidthText(width) + PrecisionText(precision) + (if alt then "#" else "") + Repeat('l', ls) + [c]
  }

  predicate Letter(c: char) {
    c in "csdupoxe%"
  }

  function Padding(pad: string): Flags {
    NoFlags(0).(padc := if pad == "" then ' ' else pad[0])
  }

  function WithWidth(fl: Flags, width: nat): Flags {
    if width > 0 then fl.(width := width) else fl
  }

  function WithPrecision(fl: Flags, precision: nat): Flags {
    if precision > 0 then fl.(width := if fl.width < 0 then 0 else fl.width, precision := precision) else fl
  }

  /**
   * Its flags are what it says.  A width that is not given is no width, or 0 if there is a precision; a precision that
   * is not given is none.
   */
  lemma EscapeRead(f: CString, pad: string, width: nat, precision: nat, alt: bool, ls: nat, c: char, args: Args)
    requires f == Escape(pad, width, precision, alt, ls, c) && (pad == "" || pad == "-" || pad == "0")
    requires Letter(c)
    ensures OneEscape(f, args)
    ensures var fl := FlagsOf(f, args);
      && fl.padc == (if pad == "" then ' ' else pad[0])
      && fl.width == (if width > 0 then width else if precision > 0 then 0 else -1)
      && fl.precision == (if precision > 0 then precision else -1)
      && fl.lflag == ls && fl.alt == alt && fl.arg == 0
  {
    var fl := Padding(pad);
    var fl3 := WithPrecision(WithWidth(fl, width), precision).(alt := alt, lflag := ls);
    hide Digits, Scan, Escape, Repeat, OneEscape, FlagsOf, WidthText, PrecisionText;
    EscapeScanned(f, pad, width, precision, alt, ls, c, args);
    ScanIs(f, fl3, args);
  }

  lemma EscapeScanned(f: CString, pad: string, width: nat, precision: nat, alt: bool, ls: nat, c: char, args: Args)
    requires f == Escape(pad, width, precision, alt, ls, c) && (pad == "" || pad == "-" || pad == "0")
    requires Letter(c)
    ensures |f| >= 2 && f[0] == '%'
    ensures var fl := Padding(pad);
      Scan(f, 1, NoFlags(0), args) ==
      (|f| - 1, WithPrecision(WithWidth(fl, width), precision).(alt := alt, lflag := ls))
  {
    hide *;
    EscapeParts(f, pad, width, precision, alt, ls, c);
    PaddingIs(pad);
    var b, fl := 1 + |pad| + |WidthText(width)|, Padding(pad);
    PadRead(f, pad, args);
    WidthRead(f, 1 + |pad|, width, fl, args);
    LsOfNone(fl, width, precision);
    EscapeBack(f, b, precision, alt, ls, c, WithWidth(fl, width), args);
  }

  lemma EscapeBack(f: CString, b: nat, precision: nat, alt: bool, ls: nat, c: char, fl: Flags, args: Args)
    requires var p := b + |PrecisionText(precision)|;
      p < |f| && f[b..p] == PrecisionText(precision) && !('0' <= f[p] <= '9') && Letter(c)
      && f[p..] == (if alt then "#" else "") + Repeat('l', ls) + [c]
    requires var fl3 := WithPrecision(fl, precision); fl3.lflag == 0 && !fl3.alt
    ensures Scan(f, b, fl, args) == (|f| - 1, WithPrecision(fl, precision).(alt := alt, lflag := ls))
  {
    hide *;
    PrecisionRead(f, b, precision, fl, args);
    RestRead(f, b + |PrecisionText(precision)|, alt, ls, c, WithPrecision(fl, precision), args);
  }

  /** Where the parts of an escape lie. */
  lemma EscapeParts(f: string, pad: string, width: nat, precision: nat, alt: bool, ls: nat, c: char)
    requires f == Escape(pad, width, precision, alt, ls, c) && Letter(c)
    ensures var a := 1 + |pad|;
      var b := a + |WidthText(width)|;
      var p := b + |PrecisionText(precision)|;
      && p < |f| && f[0] == '%' && f[1..a] == pad && f[a..b] == WidthText(width) && f[b..p] == PrecisionText(precision)
      && f[p..] == (if alt then "#" else "") + Repeat('l', ls) + [c]
      && !('0' <= f[b] <= '9') && !('0' <= f[p] <= '9')
  {
    hide Digits, WidthText, PrecisionText;
    var hash, l := if alt then "#" else "", Repeat('l', ls);
    var p := 1 + |pad| + |WidthText(width)| + |PrecisionText(precision)|;
    Seven("%", pad, WidthText(width), PrecisionText(precision), hash, l, [c]);
    NotDigits(c, l, hash, precision);
    assert f[p] == f[p..][0];
    assert f[p - |PrecisionText(precision)|] == f[p - |PrecisionText(precision)|..][0];
  }

  lemma PaddingIs(pad: string)
    ensures Padding(pad).width == Padding(pad).precision == -1 && Padding(pad).lflag == 0 && !Padding(pad).alt
  {
  }

  lemma LsOfNone(fl: Flags, width: nat, precision: nat)
    ensures var fl3 := WithPrecision(WithWidth(fl, width), precision); fl3.lflag == fl.lflag && fl3.alt == fl.alt
    ensures WithWidth(fl, width).precision == fl.precision
  {
  }

  /** What comes behind the digits is no digit. */
  lemma NotDigits(c: char, l: string, hash: string, precision: nat)
    requires Letter(c) && (hash == "" || hash == "#") && (forall k :: 0 <= k < |l| ==> l[k] == 'l')
    ensures !('0' <= (hash + l + [c])[0] <= '9')
    ensures !('0' <= (PrecisionText(precision) + hash + l + [c])[0] <= '9')
  {
    hide Digits;
  }

  /** Where the parts of a text lie that is put together from seven. */
  lemma Seven(s0: string, s1: string, s2: string, s3: string, s4: string, s5: string, s6: string)
    requires |s0| == 1
    ensures var f, a := s0 + s1 + s2 + s3 + s4 + s5 + s6, 1 + |s1|;
      var b := a + |s2|;
      var p := b + |s3|;
      && |f| == p + |s4| + |s5| + |s6| && f[0] == s0[0] && f[1..a] == s1 && f[a..b] == s2 && f[b..p] == s3
      && f[p..] == s4 + s5 + s6 && f[b..] == s3 + s4 + s5 + s6
  {
  }

  lemma PadRead(f: CString, pad: string, args: Args)
    requires pad == "" || pad == "-" || pad == "0"
    requires 1 + |pad| <= |f| && f[1..1 + |pad|] == pad
    ensures Scan(f, 1, NoFlags(0), args) ==
            Scan(f, 1 + |pad|, Padding(pad), args)
  {
    hide Scan;
    if pad != "" {
      assert f[1] == f[1..1 + |pad|][0];
      ScanOne(f, 1, NoFlags(0), args);
    }
  }

  lemma WidthRead(f: CString, a: nat, width: nat, fl: Flags, args: Args)
    requires var b := a + |WidthText(width)|; b < |f| && f[a..b] == WidthText(width) && !('0' <= f[b] <= '9')
    requires fl.width == fl.precision == -1
    ensures Scan(f, a, fl, args) == Scan(f, a + |WidthText(width)|, WithWidth(fl, width), args)
  {
    hide Scan, Digits;
    if width > 0 { ScanNumber(f, a, width, fl, args); }
  }

  lemma PrecisionRead(f: CString, b: nat, precision: nat, fl: Flags, args: Args)
    requires var p := b + |PrecisionText(precision)|;
      p < |f| && f[b..p] == PrecisionText(precision) && !('0' <= f[p] <= '9')
    ensures Scan(f, b, fl, args) == Scan(f, b + |PrecisionText(precision)|, WithPrecision(fl, precision), args)
  {
    hide Scan, Digits;
    if precision > 0 {
      var p, d := b + |PrecisionText(precision)|, Digits(precision, 10);
      assert f[b] == f[b..p][0] == '.';
      assert f[b + 1..p] == f[b..p][1..] == d;
      ScanOne(f, b, fl, args);
      ScanNumber(f, b + 1, precision, if fl.width < 0 then fl.(width := 0) else fl, args);
    }
  }

  lemma RestRead(f: CString, p: nat, alt: bool, ls: nat, c: char, fl: Flags, args: Args)
    requires p <= |f| && f[p..] == (if alt then "#" else "") + Repeat('l', ls) + [c] && Letter(c)
    requires fl.lflag == 0 && !fl.alt
    ensures Scan(f, p, fl, args) == (|f| - 1, fl.(alt := alt, lflag := ls))
  {
    hide Scan;
    var h := p + if alt then 1 else 0;
    if alt {
      assert f[p] == f[p..][0];
      ScanOne(f, p, fl, args);
    }
    assert f[|f| - 1] == f[p..][|f| - 1 - p] == c;
    forall k | h <= k < |f| - 1
      ensures f[k] == 'l'
    {
      assert f[k] == f[p..][k - p];
    }
    ScanLs(f, h, |f| - 1, fl.(alt := alt), args);
  }

  lemma ScanIs(f: CString, fl: Flags, args: Args)
    requires |f| >= 2 && f[0] == '%' && Scan(f, 1, NoFlags(0), args) == (|f| - 1, fl)
    ensures OneEscape(f, args) && FlagsOf(f, args) == fl
  {
    hide Scan;
  }

  lemma ScanOne(f: CString, i: nat, fl: Flags, args: Args)
    requires i < |f|
    ensures f[i] == '-' || f[i] == '0' ==> Scan(f, i, fl, args) == Scan(f, i + 1, fl.(padc := f[i]), args)
    ensures f[i] == '.' ==>
      Scan(f, i, fl, args) == Scan(f, i + 1, if fl.width < 0 then fl.(width := 0) else fl, args)
    ensures f[i] == '#' ==> Scan(f, i, fl, args) == Scan(f, i + 1, fl.(alt := true), args)
  {
  }

  /** Width and precision from arguments; a negative width is then taken for 0, because a precision follows. */
  lemma StarsRead(f: CString, args: Args)
    requires f == "%*.*s"
    ensures OneEscape(f, args)
    ensures var w, p := Int32(args(0)), Int32(args(1));
      FlagsOf(f, args) == Flags(' ', if w < 0 then 0 else w, p, 0, false, 2)
  {
    var w := Int32(args(0));
    var fl1 := Flags(' ', w, -1, 0, false, 1);
    var fl2 := fl1.(width := if w < 0 then 0 else w);
    assert Scan(f, 4, fl2.(precision := Int32(args(1)), arg := 2), args) ==
           (4, fl2.(precision := Int32(args(1)), arg := 2));
    assert Scan(f, 3, fl2, args) == (4, fl2.(precision := Int32(args(1)), arg := 2));
    assert Scan(f, 2, fl1, args) == Scan(f, 3, fl2, args);
    assert Scan(f, 1, NoFlags(0), args) == Scan(f, 2, fl1, args);
  }

  /** There are messages for the codes from 1 to 24 but for three of them. */
  lemma Messages(err: nat)
    ensures Message(err).Some? <==> 1 <= err <= 24 && err != 7 && err != 11 && err != 12
  {
  }

  /** The messages by the names of the codes. */
  lemma FirstMessages()
    ensures Message(E_UNSPECIFIED) == Some("unspecified error")
    ensures Message(E_BAD_PROC) == Some("bad process")
    ensures Message(E_INVAL) == Some("invalid parameter")
    ensures Message(E_NO_MEM) == Some("out of memory")
    ensures Message(E_NO_FREE_PROC) == Some("out of processes")
    ensures Message(E_FAULT) == Some("segmentation fault")
    ensures Message(E_INVAL_ELF) == Some("invalid elf file")
    ensures Message(E_KILLED) == Some("process is killed")
  {
  }

  lemma MoreMessages()
    ensures Message(E_PANIC) == Some("panic failure")
    ensures Message(E_NO_DEV) == Some("no such device")
    ensures Message(E_NA_DEV) == Some("device not available")
    ensures Message(E_BUSY) == Some("device/file is busy")
    ensures Message(E_NOENT) == Some("no such file or directory")
    ensures Message(E_ISDIR) == Some("is a directory")
  {
  }

  lemma LaterMessages()
    ensures Message(E_NOTDIR) == Some("not a directory")
    ensures Message(E_XDEV) == Some("cross device link")
    ensures Message(E_UNIMP) == Some("unimplemented feature")
    ensures Message(E_SEEK) == Some("illegal seek")
  {
  }

  lemma LastMessages()
    ensures Message(E_MAX_OPEN) == Some("too many files are open")
    ensures Message(E_EXISTS) == Some("file or directory already exists")
    ensures Message(E_NOTEMPTY) == Some("directory is not empty")
  {
  }

  lemma NoFlagsRead(f: CString, args: Args)
    requires |f| == 2 && f[0] == '%' && !IsFlag(f[1])
    ensures OneEscape(f, args) && FlagsOf(f, args) == NoFlags(0)
  {
    assert Scan(f, 1, NoFlags(0), args) == (1, NoFlags(0));
  }

  lemma SignedPlain(v: int)
    ensures Signed(v, -1, ' ') == if v < 0 then "-" + Digits(-v, 10) else Digits(v, 10)
  {
    hide Digits;
  }

  /** The plain conversions, on their own. */
  lemma PlainConversions(f: CString, args: Args, mem: Memory)
    requires |f| == 2 && f[0] == '%' && f[1] in "sdc%"
    ensures var w, out := args(0), Output(f, 0, 0, args, mem);
      && (f[1] == 's' ==> out == if w == 0 then "(null)" else mem(w))
      && (f[1] == 'd' ==> var v := Int32(w); out == if v < 0 then "-" + Digits(-v, 10) else Digits(v, 10))
      && (f[1] == 'c' ==> out == [(w % 256) as char])
      && (f[1] == '%' ==> out == "%")
  {
    NoFlagsRead(f, args);
    hide Scan, OneEscape, FlagsOf, Output, Digits, PlainText, Message, Signed, Padded;
    OneConversion(f, args, mem);
    PlainTextIs(TextOf(args(0), mem), false);
    SignedPlain(Int32(args(0)));
  }

  /** An argument of 32 bits is the low half of its slot, with its sign extended if it is signed; one of 64 is all. */
  lemma ArgumentIs(w: u64, lflag: nat)
    ensures lflag == 0 ==> 0 <= GetUint(w, 0) < 0x1_0000_0000 && (w - GetUint(w, 0)) % 0x1_0000_0000 == 0
    ensures lflag == 0 ==>
      -0x8000_0000 <= GetInt(w, 0) < 0x8000_0000 && (w - GetInt(w, 0)) % 0x1_0000_0000 == 0
    ensures lflag > 0 ==> GetUint(w, lflag) == w
    ensures lflag > 0 ==> -0x8000_0000_0000_0000 <= GetInt(w, lflag) < 0x8000_0000_0000_0000
    ensures lflag > 0 ==> (w - GetInt(w, lflag)) % 0x1_0000_0000_0000_0000 == 0
  {
  }

  lemma UnsignedConversion(c: char, fl: Flags, args: Args, mem: Memory)
    requires c in "uox"
    ensures Convert(c, fl, args, mem) ==
            Some((Padded(GetUint(args(fl.arg), fl.lflag), BaseOf(c), fl.width, fl.padc), fl.arg + 1))
  {
  }

  /**
   * A format that is one `%...p` escape prints an address that reads back exactly if it is at most LONG_MAX and not
   * padded, or padded with zeros.
   */
  lemma AddressReadsBackIff(f: CString, args: Args, mem: Memory)
    requires OneEscape(f, args) && f[|f| - 1] == 'p'
    ensures var fl := FlagsOf(f, args);
      var w, text := args(fl.arg), Output(f, 0, 0, args, mem);
      && NoNul(text)
      && (ReadsAs(text, 16, w) <==> w <= LONG_MAX && (Pads(w, 16, fl.width) == 0 || fl.padc == '0'))
  {
    var fl, c := FlagsOf(f, args), f[|f| - 1];
    hide Convert, ReadsAs, Padded, Pads, Output, NoNul, OneEscape, FlagsOf;
    PointerConversion(fl, args, mem);
    OneConversion(f, args, mem);
    PointerReadsBackIff(args(fl.arg), fl.width, fl.padc);
  }

  lemma PointerConversion(fl: Flags, args: Args, mem: Memory)
    ensures Convert('p', fl, args, mem) == Some(("0x" + Padded(args(fl.arg), 16, fl.width, fl.padc), fl.arg + 1))
  {
  }

  /** The address of the kernel itself, printed with `%p`, is lost. */
  lemma KernelAddressLost(args: Args, mem: Memory)
    requires args(0) == 0xFFFF_FFFF_C020_0000
    ensures !ReadsAs(Output("%p", 0, 0, args, mem), 16, 0xFFFF_FFFF_C020_0000)
  {
    var f: CString := "%p";
    assert Scan(f, 1, NoFlags(0), args) == (1, NoFlags(0));
    AddressReadsBackIff(f, args, mem);
  }

  lemma Quotient(num: nat, base: nat)
    requires 2 <= base
    ensures num >= base ==> num / base < num
    ensures num % base < base
  {
  }

  lemma PaddedStep(num: nat, base: nat, width: int, padc: char)
    requires 2 <= base <= 16
    ensures Padded(num, base, width, padc) ==
            (if num < base then Repeat(padc, width - 1) else Padded(num / base, base, width - 1, padc))
            + [DigitChar(num % base)]
  {
    hide Digits, DigitChar;
    DigitsNext(num, base);
  }

  lemma DigitsNext(num: nat, base: nat)
    requires 2 <= base <= 16
    ensures Digits(num, base) == (if num < base then "" else Digits(num / base, base)) + [DigitChar(num % base)]
  {
  }

  // ----- the buffer ---------------------------------------------------------------------------------------------

  /** `sprintbuf`; `buf` and `ebuf` are places in `str`. */
  class PrintBuf {
    const str: array<char>
    const ebuf: nat
    var buf: nat
    var cnt: int

    /** All that was put, whether there was room or not, and what the array held at first. */
    ghost var emitted: string
    ghost const before: string

    constructor (str: array<char>, size: nat)
      requires 1 <= size <= str.Length
      ensures Valid() && this.str == str && ebuf == size - 1 && emitted == "" && before == str[..]
    {
      this.str, ebuf, buf, cnt := str, size - 1, 0, 0;
      emitted, before := "", str[..];
    }

    /** The first part of `emitted`, as much as there is room for, and behind it what was there before. */
    ghost predicate Valid()
      reads this, str
    {
      && ebuf < str.Length == |before| && cnt == |emitted|
      && buf == (if |emitted| < ebuf then |emitted| else ebuf)
      && str[..] == emitted[..buf] + before[buf..]
    }

    /** `sprintputch`. */
    method Putch(ch: char)
      requires Valid()
      modifies this, str
      ensures Valid() && emitted == old(emitted) + [ch]
    {
      cnt := cnt + 1;
      if buf < ebuf {
        str[buf] := ch;
        buf := buf + 1;
      }
      emitted := emitted + [ch];
    }

    method PadOut(c: char, n: int)
      requires Valid()
      modifies this, str
      ensures Valid() && emitted == old(emitted) + Repeat(c, n)
    {
      var width := n;
      while width > 0
        invariant Valid() && (n >= 0 ==> width >= 0) && (n < 0 ==> width == n)
        invariant emitted == old(emitted) + Repeat(c, n - width)
      {
        Putch(c);
        width := width - 1;
        assert Repeat(c, n - width) == Repeat(c, n - width - 1) + [c];
      }
    }

    /** `printnum`. */
    method PrintNum(num: nat, base: nat, width: int, padc: char)
      requires Valid() && 2 <= base <= 16
      modifies this, str
      ensures Valid() && emitted == old(emitted) + Padded(num, base, width, padc)
      decreases num
    {
      hide Padded, Digits, DigitChar, Valid;
      PaddedStep(num, base, width, padc);
      Quotient(num, base);
      var result, mod := num / base, num % base;
      if num >= base {
        PrintNum(result, base, width - 1, padc);
      } else {
        PadOut(padc, width - 1);
      }
      Putch(DigitChar(mod));
    }

    /** Puts the terminator where the output ends. */
    method Terminate() returns (n: int)
      requires Valid()
      modifies str
      ensures n == |emitted|
      ensures var k := if |emitted| <= ebuf then |emitted| else ebuf;
        str[..] == emitted[..k] + ['\0'] + before[k + 1..]
    {
      ghost var was := str[..];
      str[buf] := '\0';
      n := cnt;
      assert str[..] == was[buf := '\0'];
    }

    // ----- the conversions --------------------------------------------------------------------------------------

    /** `%s`; a negative precision, as an unsigned length, is no limit to `strnlen`. */
    method PrintString(p: CString, fl: Flags)
      requires Valid()
      modifies this, str
      ensures Valid() && emitted == old(emitted) + StringText(p, fl)
    {
      hide Valid, PlainText, Repeat, StringText, Shown;
      StringTextIs(p, fl);
      var width := fl.width;
      if width > 0 && fl.padc != '-' {
        var len := Strnlen(p, if fl.precision < 0 then |p| else fl.precision);
        ShownIs(p, fl.precision);
        width := width - len;
        PadOut(fl.padc, width);
        if width > 0 { width := 0; }
      }
      var k := PutShown(p, fl.precision, fl.alt);
      PadOut(' ', width - k);
    }

    /** The characters of a string, as many as the precision allows. */
    method PutShown(p: CString, precision: int, alt: bool) returns (k: nat)
      requires Valid()
      modifies this, str
      ensures Valid() && k == Shown(p, precision) && emitted == old(emitted) + PlainText(p[..k], alt)
    {
      hide Valid, Plain;
      k := 0;
      while At(p, k) != '\0' && (precision < 0 || k < precision)
        invariant k <= Shown(p, precision) && Valid() && emitted == old(emitted) + PlainText(p[..k], alt)
        decreases |p| - k
      {
        Putch(Plain(p[k], alt));
        assert PlainText(p[..k + 1], alt) == PlainText(p[..k], alt) + [Plain(p[k], alt)];
        k := k + 1;
      }
    }

    /**
     * The part of the switch that prints; `known` is false for an unrecognised escape, and `ok` is false if the
     * program reads outside its table.
     */
    method PrintConversion(c: char, fl: Flags, args: Args, mem: Memory) returns (ok: bool, known: bool, arg: nat)
      requires Valid()
      modifies this, str
      ensures Valid() && (ok <==> ErrorDefined(c, fl, args)) && (known <==> Convert(c, fl, args, mem).Some?)
      ensures ok && known ==>
        emitted == old(emitted) + Convert(c, fl, args, mem).value.0 && arg == Convert(c, fl, args, mem).value.1
      ensures !ok || !known ==> emitted == old(emitted)
    {
      hide Valid, Padded, StringText, Message;
      ok, known, arg := true, true, fl.arg + 1;
      var w := args(fl.arg);
      match c
      case 'c' => Putch((w % 256) as char);
      case 'e' => ok := PrintError(Int32(w));
      case 's' => PrintString(if w == 0 then "(null)" else mem(w), fl);
      case 'd' =>
        var v := GetInt(w, fl.lflag);
        if v < 0 { Putch('-'); }
        PrintNum(Abs(v), 10, fl.width, fl.padc);
      case 'u' => PrintNum(GetUint(w, fl.lflag), 10, fl.width, fl.padc);
      case 'o' => PrintNum(GetUint(w, fl.lflag), 8, fl.width, fl.padc);
      case 'p' =>
        Putch('0');
        Putch('x');
        PrintNum(w, 16, fl.width, fl.padc);
      case 'x' => PrintNum(GetUint(w, fl.lflag), 16, fl.width, fl.padc);
      case '%' => Putch('%'); arg := fl.arg;
      case _ => known := false;
    }

    /**
     * `%e`: the message, or what the nested format "error %d" comes to; `ok` is false if the number is still negative
     * after its sign was changed, as the table has no such place.
     */
    method PrintError(num: int) returns (ok: bool)
      requires Valid() && INT_MIN <= num <= INT_MAX
      modifies this, str
      ensures Valid() && (ok <==> num != INT_MIN)
      ensures emitted == if ok then old(emitted) + ErrorText(Abs(num)) else old(emitted)
    {
      hide Valid, Message, Padded, Digits;
      var err := num;
      if err < 0 { err := Wrap32(0 - err); }
      if err > MAXERROR {
        NoMessage(err);
        ErrorTextIs(err);
        PutText("error ");
        PrintNum(err, 10, -1, ' ');
      } else if err < 0 {
        return false;
      } else {
        ErrorTextIs(err);
        var message := Message(err);
        if message.Some? {
          PutText(message.value);
        } else {
          PutText("error ");
          PrintNum(err, 10, -1, ' ');
        }
      }
      return true;
    }

    method PutText(text: string)
      requires Valid()
      modifies this, str
      ensures Valid() && emitted == old(emitted) + text
    {
      hide Valid;
      var k := 0;
      while k < |text|
        invariant k <= |text| && Valid() && emitted == old(emitted) + text[..k]
      {
        Putch(text[k]);
        k := k + 1;
      }
      assert text[..k] == text;
    }

    // ----- the interpreter --------------------------------------------------------------------------------------

    /**
     * `vprintfmt`: what is put is what the format means, whatever becomes of it in the buffer; the program reads
     * outside its table exactly if the format is not defined.
     */
    method VPrintFmt(f: CString, args: Args, mem: Memory) returns (ok: bool)
      requires Valid()
      modifies this, str
      ensures Valid() && (ok <==> Defined(f, 0, 0, args, mem))
      ensures ok ==> emitted == old(emitted) + Output(f, 0, 0, args, mem)
    {
      hide Valid, Scan, Convert, Output, Defined;
      var i, arg := 0, 0;
      while true
        invariant i <= |f| && Valid() && (Defined(f, 0, 0, args, mem) <==> Defined(f, i, arg, args, mem))
        invariant old(emitted) + Output(f, 0, 0, args, mem) == emitted + Output(f, i, arg, args, mem)
        decreases |f| - i
      {
        i := PutLiteral(f, i, arg, args, mem);
        if i == |f| {
          OutputEnd(f, arg, args, mem);
          return true;
        }
        ok, i, arg := PutEscape(f, i, arg, args, mem);
        if !ok { return; }
      }
    }

    /** Everything up to the next '%' or the end. */
    method PutLiteral(f: CString, i: nat, ghost arg: nat, ghost args: Args, ghost mem: Memory) returns (j: nat)
      requires Valid() && i <= |f|
      modifies this, str
      ensures Valid() && i <= j <= |f| && (j < |f| ==> f[j] == '%')
      ensures Defined(f, i, arg, args, mem) <==> Defined(f, j, arg, args, mem)
      ensures old(emitted) + Output(f, i, arg, args, mem) == emitted + Output(f, j, arg, args, mem)
    {
      hide Valid, Output, Defined, Scan, Convert;
      j := i;
      while At(f, j) != '%' && At(f, j) != '\0'
        invariant i <= j <= |f| && Valid() && emitted == old(emitted) + f[i..j]
        invariant Defined(f, i, arg, args, mem) <==> Defined(f, j, arg, args, mem)
        invariant forall k :: i <= k < j ==> f[k] != '%'
        decreases |f| - j
      {
        DefinedPlain(f, j, arg, args, mem);
        Longer(f, i, j);
        Putch(f[j]);
        j := j + 1;
      }
      LiteralRun(f, i, j, arg, args, mem);
    }

    /** One escape; after an unrecognised one the scan goes back to just behind its '%'. */
    method PutEscape(f: CString, i: nat, arg: nat, args: Args, mem: Memory)
      returns (ok: bool, i': nat, arg': nat)
      requires Valid() && i < |f| && f[i] == '%'
      modifies this, str
      ensures Valid() && i < i' <= |f|
      ensures Defined(f, i, arg, args, mem) <==> ok && Defined(f, i', arg', args, mem)
      ensures ok ==> old(emitted) + Output(f, i, arg, args, mem) == emitted + Output(f, i', arg', args, mem)
    {
      hide Valid, Scan, Convert, Output, Defined, ErrorDefined;
      var j, fl := ReadFlags(f, i + 1, arg, args);
      EndIsUnknown(fl, args, mem);
      DefinedMoves(f, i, j, fl, arg, args, mem);
      var known;
      ok, known, arg' := PrintConversion(At(f, j), fl, args, mem);
      if known {
        i' := j + 1;
        KnownIs(f, i, j, fl, arg, args, mem);
      } else {
        Putch('%');
        i', arg' := j, fl.arg;
        while f[i' - 1] != '%'
          invariant i < i' <= j
          decreases i'
        {
          i' := i' - 1;
        }
        UnknownRewinds(f, i, j, fl, arg, args, mem);
      }
    }
  }

  lemma NoMessage(err: nat)
    requires err > MAXERROR
    ensures Message(err).None?
  {
  }

  lemma ErrorTextIs(err: nat)
    ensures Message(err).Some? ==> ErrorText(err) == Message(err).value
    ensures Message(err).None? ==> ErrorText(err) == "error " + Padded(err, 10, -1, ' ')
  {
    hide Message, Digits;
    assert Padded(err, 10, -1, ' ') == Digits(err, 10);
  }

  lemma ShownIs(p: CString, precision: int)
    ensures Shown(p, precision) == if 0 <= precision < |p| then precision else |p|
  {
  }

  /** The two ways in which the loops of `%s` put a string in its field. */
  lemma StringTextIs(p: CString, fl: Flags)
    ensures var n := Shown(p, fl.precision);
      var text, pad := PlainText(p[..n], fl.alt), fl.width - n;
      if fl.width > 0 && fl.padc != '-' then
        forall w {:trigger Repeat(' ', w)} ::
          w <= 0 ==> StringText(p, fl) == Repeat(fl.padc, pad) + text + Repeat(' ', w)
      else StringText(p, fl) == text + Repeat(' ', pad)
  {
  }

  lemma Longer(f: string, i: nat, j: nat)
    requires i <= j < |f|
    ensures f[i..j + 1] == f[i..j] + [f[j]]
  {
  }

  lemma DefinedPlain(f: CString, i: nat, arg: nat, args: Args, mem: Memory)
    requires i < |f| && f[i] != '%'
    ensures Defined(f, i, arg, args, mem) <==> Defined(f, i + 1, arg, args, mem)
  {
    hide Scan, Convert;
  }

  lemma OutputEnd(f: CString, arg: nat, args: Args, mem: Memory)
    ensures Output(f, |f|, arg, args, mem) == "" && Defined(f, |f|, arg, args, mem)
  {
  }

  lemma EndIsUnknown(fl: Flags, args: Args, mem: Memory)
    ensures Convert('\0', fl, args, mem).None?
  {
  }

  /** An escape is defined if its conversion is and what follows it, or follows the percent sign of an unknown one. */
  lemma DefinedMoves(f: CString, i: nat, j: nat, fl: Flags, arg: nat, args: Args, mem: Memory)
    requires i < |f| && f[i] == '%' && Scan(f, i + 1, NoFlags(arg), args) == (j, fl)
    ensures var r := Convert(At(f, j), fl, args, mem);
      Defined(f, i, arg, args, mem) <==>
        ErrorDefined(At(f, j), fl, args) &&
        if r.Some? then j < |f| && Defined(f, j + 1, r.value.1, args, mem) else Defined(f, i + 1, fl.arg, args, mem)
    ensures Convert(At(f, j), fl, args, mem).None? ==> ErrorDefined(At(f, j), fl, args)
  {
    hide Scan;
    assert Convert('e', fl, args, mem).Some?;
    EndIsUnknown(fl, args, mem);
  }

  lemma KnownIs(f: CString, i: nat, j: nat, fl: Flags, arg: nat, args: Args, mem: Memory)
    requires i < |f| && f[i] == '%' && Scan(f, i + 1, NoFlags(arg), args) == (j, fl)
    requires j < |f| && Convert(At(f, j), fl, args, mem).Some?
    ensures var (text, arg') := Convert(At(f, j), fl, args, mem).value;
      Output(f, i, arg, args, mem) == text + Output(f, j + 1, arg', args, mem)
  {
    hide Scan, Convert;
  }

  /** The `reswitch` loop over an escape's flags. */
  method ReadFlags(f: CString, i: nat, arg: nat, args: Args) returns (j: nat, fl: Flags)
    requires i <= |f|
    ensures (j, fl) == Scan(f, i, NoFlags(arg), args)
  {
    j, fl := i, NoFlags(arg);
    while IsFlag(At(f, j))
      invariant i <= j <= |f| && Scan(f, j, fl, args) == Scan(f, i, NoFlags(arg), args)
      decreases |f| - j
    {
      var c := At(f, j);
      if c == '-' || c == '0' {
        j, fl := j + 1, fl.(padc := c);
      } else if '1' <= c <= '9' {
        var v, e := ReadNumber(f, j);
        j, fl := e, SetNumber(fl, v);
      } else if c == '*' {
        j, fl := j + 1, SetNumber(fl, Int32(args(fl.arg))).(arg := fl.arg + 1);
      } else if c == '.' {
        if fl.width < 0 { fl := fl.(width := 0); }
        j := j + 1;
      } else if c == '#' {
        j, fl := j + 1, fl.(alt := true);
      } else {
        j, fl := j + 1, fl.(lflag := fl.lflag + 1);
      }
    }
  }

  /** The digits of a width or precision. */
  method ReadNumber(f: CString, i: nat) returns (v: int, e: nat)
    requires i < |f| && '1' <= f[i] <= '9'
    ensures e == DigitsEnd(f, i, 10) && v == Value(f[i..e], 10) && e > i
  {
    v, e := 0, i;
    while '0' <= At(f, e) <= '9'
      invariant i <= e <= |f| && v == Value(f[i..e], 10) && DigitsEnd(f, e, 10) == DigitsEnd(f, i, 10)
      decreases |f| - e
    {
      ValueGrows(f, i, e, 10);
      v, e := v * 10 + (f[e] as int - '0' as int), e + 1;
    }
  }

  method Strnlen(s: CString, len: nat) returns (cnt: nat)
    ensures cnt == if len < |s| then len else |s|
  {
    cnt := 0;
    while cnt < len && At(s, cnt) != '\0'
      invariant cnt <= |s| && cnt <= len
    {
      cnt := cnt + 1;
    }
  }

  /**
   * `vsnprintf`: the length of the whole output is returned, of which the buffer holds as much as fits before a
   * terminator, and behind the terminator nothing is changed.
   */
  method VSnprintf(str: array?<char>, size: nat, f: CString, args: Args, mem: Memory) returns (ok: bool, n: int)
    requires str != null ==> size <= str.Length
    modifies if str == null then {} else {str}
    ensures ok <==> str == null || size == 0 || Defined(f, 0, 0, args, mem)
    ensures str == null || size == 0 ==> n == -3 && (str != null ==> str[..] == old(str[..]))
    ensures ok && str != null && size > 0 ==>
      var text := Output(f, 0, 0, args, mem);
      var k := if |text| < size then |text| else size - 1;
      n == |text| && str[..] == text[..k] + ['\0'] + old(str[..])[k + 1..]
  {
    hide Output;
    if str == null || size == 0 { return true, -E_INVAL; }
    ok, n := FormatInto(str, size, f, args, mem);
  }

  method FormatInto(str: array<char>, size: nat, f: CString, args: Args, mem: Memory) returns (ok: bool, n: int)
    requires 1 <= size <= str.Length
    modifies str
    ensures ok <==> Defined(f, 0, 0, args, mem)
    ensures ok ==>
      var text := Output(f, 0, 0, args, mem);
      var k := if |text| < size then |text| else size - 1;
      n == |text| && str[..] == text[..k] + ['\0'] + old(str[..])[k + 1..]
  {
    hide Output, Defined, PrintBuf.Valid;
    var b := new PrintBuf(str, size);
    n := 0;
    ok := b.VPrintFmt(f, args, mem);
    if !ok { return; }
    n := b.Terminate();
    assert b.emitted == Output(f, 0, 0, args, mem);
  }
}
