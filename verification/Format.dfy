/** What each conversion of the formatter prints, and what a whole format string
    prints for a list of arguments. */
module Format {
  import opened Bits
  import opened Numerals
  import opened Wrappers

  /** A parsed conversion specification. Precision -1 stands for none given. */
  datatype Conv = Conv(left: bool, plus: bool, space: bool, alt: bool, zero: bool, width: nat, precision: int)

  const PLAIN := Conv(false, false, false, false, false, 0, -1)

  predicate ConvOk(c: Conv) {
    c.precision >= -1
  }

  function Precision(c: Conv): nat
    requires ConvOk(c)
  {
    if c.precision == -1 then 1 else c.precision
  }

  function Max(a: int, b: int): int {
    if a < b then b else a
  }

  /** Fill up with spaces to the field width. */
  function Pad(left: bool, body: string, width: int): (s: string)
    ensures |s| == Max(width, |body|)
  {
    if left then body + Repeat(' ', width - |body|) else Repeat(' ', width - |body|) + body
  }

  function SignOf(c: Conv, sign: int): string {
    if sign == -1 then "" else if sign == 1 then "-" else if c.plus then "+" else if c.space then " " else ""
  }

  /** The digits of a value, at least one unless the precision is zero. */
  function Numeral(v: nat, radix: nat, upper: bool, c: Conv): string
    requires IsRadix(radix) && ConvOk(c)
  {
    if v == 0 then (if Precision(c) != 0 then "0" else "") else Digits(v, radix, upper)
  }

  function FieldWidth(c: Conv): nat {
    if c.zero then 0 else c.width
  }

  /** Digits of %d, %i (sign 0 or 1) and %u (sign -1) behind their zeros. The
      precision counts the sign; zero padding trades field width for precision. */
  function NumberD(c: Conv, sign: int, absv: nat): string
    requires ConvOk(c)
  {
    var s, digits := |SignOf(c, sign)|, Numeral(absv, 10, false, c);
    var p := if c.zero && Precision(c) + s < c.width then c.width else Precision(c);
    Repeat('0', p - |digits| - s) + digits
  }

  function FormatD(c: Conv, sign: int, absv: nat): string
    requires ConvOk(c)
  {
    Pad(c.left, SignOf(c, sign) + NumberD(c, sign, absv), FieldWidth(c))
  }

  function LeadO(c: Conv, v: nat): string
    requires ConvOk(c)
  {
    if (v == 0 && Precision(c) != 0) || c.alt then "0" else ""
  }

  /** Digits of %o behind their zeros; the alternative form puts one 0 in front. */
  function NumberO(c: Conv, v: nat): string
    requires ConvOk(c)
  {
    var digits := LeadO(c, v) + Digits(v, 8, false);
    var p := if c.zero && Precision(c) < c.width then c.width else Precision(c);
    Repeat('0', p - |digits|) + digits
  }

  function FormatO(c: Conv, v: nat): string
    requires ConvOk(c)
  {
    Pad(c.left, NumberO(c, v), FieldWidth(c))
  }

  lemma ShapeD(c: Conv, sign: int, absv: nat, precision: nat)
    requires ConvOk(c)
    requires precision == if c.zero && Precision(c) + |SignOf(c, sign)| < c.width then c.width else Precision(c)
    ensures var digits := Numeral(absv, 10, false, c);
      NumberD(c, sign, absv) == Repeat('0', precision - |digits| - |SignOf(c, sign)|) + digits
  {
  }

  lemma ShapeO(c: Conv, v: nat, precision: nat)
    requires ConvOk(c) && precision == if c.zero && Precision(c) < c.width then c.width else Precision(c)
    ensures var digits := LeadO(c, v) + Digits(v, 8, false);
      FormatO(c, v) == Pad(c.left, "" + (Repeat('0', precision - |digits|) + digits), FieldWidth(c))
  {
    hide Digits, LeadO;
    assert "" + NumberO(c, v) == NumberO(c, v);
  }

  function Prefix(c: Conv, v: nat, upper: bool): string {
    if v != 0 && c.alt then (if upper then "0X" else "0x") else ""
  }

  /** Digits of %x, %X and %p behind their zeros. */
  function NumberX(c: Conv, v: nat, upper: bool): string
    requires ConvOk(c)
  {
    var prefix, digits := |Prefix(c, v, upper)|, Numeral(v, 16, upper, c);
    var p := if c.zero && Precision(c) < c.width - prefix then c.width - prefix else Precision(c);
    Repeat('0', p - |digits|) + digits
  }

  lemma ShapeX(c: Conv, v: nat, upper: bool, precision: nat)
    requires ConvOk(c)
    requires precision ==
      if c.zero && Precision(c) < c.width - |Prefix(c, v, upper)| then c.width - |Prefix(c, v, upper)| else Precision(c)
    ensures var digits := Numeral(v, 16, upper, c);
      NumberX(c, v, upper) == Repeat('0', precision - |digits|) + digits
  {
  }

  function FormatX(c: Conv, v: nat, upper: bool): string
    requires ConvOk(c)
  {
    Pad(c.left, Prefix(c, v, upper) + NumberX(c, v, upper), FieldWidth(c))
  }

  /** %c. */
  function FormatC(c: Conv, ch: char): string {
    if c.width == 0 then [ch] else Pad(c.left, [ch], c.width)
  }

  predicate AnyFlag(c: Conv) {
    c.left || c.plus || c.space || c.alt || c.zero
  }

  /** %s; any flag at all justifies to the left. */
  function FormatS(c: Conv, s: string): string
    requires ConvOk(c)
  {
    Pad(AnyFlag(c), if c.precision != -1 && |s| > c.precision then s[..c.precision] else s, c.width)
  }

  /** %d of a signed 32-bit integer. */
  function FormatInt(c: Conv, n: int): string
    requires ConvOk(c) && -0x8000_0000 <= n < 0x8000_0000
  {
    FormatD(c, if n < 0 then 1 else 0, if n < 0 then -n else n)
  }

  /* ---- printing and reading back ---- */

  lemma DigitsStart(v: nat)
    requires v > 0
    ensures var d := Digits(v, 10, false); d != [] && IsDigit(d[0])
    decreases v
  {
    DigitCharValue(v % 10, false);
    if v / 10 > 0 {
      DigitsStart(v / 10);
      assert Digits(v, 10, false)[0] == Digits(v / 10, 10, false)[0];
    }
  }

  /** A padded number between its sign and trailing spaces reads as its value. */
  lemma NumberRead(zeros: int, v: nat, c: Conv, tail: string)
    requires ConvOk(c) && (tail == [] || !IsDigit(tail[0]))
    ensures LeadingNumber(Repeat('0', zeros) + Numeral(v, 10, false, c) + tail, 0) == v
  {
    var d := Numeral(v, 10, false, c);
    assert Repeat('0', zeros) + d + tail == Repeat('0', |Repeat('0', zeros)|) + (d + tail);
    ZerosSkipped(|Repeat('0', zeros)|, d + tail);
    if v == 0 {
      if d == "0" { assert (d + tail)[1..] == tail; } else { assert d + tail == tail; }
    } else {
      DigitsRead(v, tail);
    }
  }

  /** Zeros, digits and trailing spaces without a sign. */
  lemma UnsignedNumberRead(num: string, zeros: int, v: nat, c: Conv, tail: string)
    requires ConvOk(c) && v < WORD && tail == Repeat(' ', |tail|)
    requires num == Repeat('0', zeros) + Numeral(v, 10, false, c) + tail
    ensures Atoi(num) == Signed(v)
  {
    var z, d := Repeat('0', zeros), Numeral(v, 10, false, c);
    FirstDigit(zeros, v, c);
    if |z + d| == 0 {
      assert num == Repeat(' ', |tail|) + "";
      AtoiSpaces(|tail|, "");
    } else {
      NumberRead(zeros, v, c, tail);
      assert num[0] == (z + d)[0];
      AtoiPlain(num);
    }
  }

  lemma FirstDigit(zeros: int, v: nat, c: Conv)
    requires ConvOk(c)
    ensures var num := Repeat('0', zeros) + Numeral(v, 10, false, c);
      if num == "" then v == 0 else IsDigit(num[0])
  {
    if v > 0 { DigitsStart(v); }
  }

  /** The text after leading spaces: sign, zeros, digits, trailing spaces. */
  lemma SignedNumberRead(s: string, num: string, zeros: int, v: nat, c: Conv, tail: string)
    requires ConvOk(c) && v < WORD && s in {"", "-", "+", " "} && tail == Repeat(' ', |tail|)
    requires num == Repeat('0', zeros) + Numeral(v, 10, false, c) + tail
    ensures Atoi(s + num) == Signed(if s == "-" then Neg(v) else v)
  {
    if s == "-" || s == "+" {
      NumberRead(zeros, v, c, tail);
      assert s == [s[0]];
      AtoiSigned(s[0], num);
    } else {
      UnsignedNumberRead(num, zeros, v, c, tail);
      assert s == Repeat(' ', |s|) by { assert Repeat(' ', 1) == [' '] + Repeat(' ', 0); }
      AtoiSpaces(|s|, num);
    }
  }

  /** atoi undoes every signed or unsigned decimal conversion, for every flag,
      width and precision, modulo 2^32. */
  lemma AtoiUndoesD(c: Conv, sign: int, v: nat)
    requires ConvOk(c) && v < WORD
    ensures Atoi(FormatD(c, sign, v)) == Signed(if sign == 1 then Neg(v) else v)
  {
    hide Digits, LeadingNumber, Atoi;
    var s, num := SignOf(c, sign), NumberD(c, sign, v);
    var zeros := |num| - |Numeral(v, 10, false, c)|;
    assert num == Repeat('0', zeros) + Numeral(v, 10, false, c);
    var gap := Repeat(' ', FieldWidth(c) - |s + num|);
    assert gap == Repeat(' ', |gap|);
    if c.left {
      SignedNumberRead(s, num + gap, zeros, v, c, gap);
      assert s + num + gap == s + (num + gap);
    } else {
      assert num + "" == num;
      SignedNumberRead(s, num, zeros, v, c, "");
      AtoiSpaces(|gap|, s + num);
    }
  }

  /** In particular every 32-bit integer, the least one included, survives %d and atoi. */
  lemma AtoiUndoesPrint(c: Conv, n: int)
    requires ConvOk(c) && -0x8000_0000 <= n < 0x8000_0000
    ensures Atoi(FormatInt(c, n)) == n
  {
    AtoiUndoesD(c, if n < 0 then 1 else 0, if n < 0 then -n else n);
  }

  /* ---- field lengths ---- */

  lemma DigitsNonempty(v: nat, radix: nat, upper: bool)
    requires v > 0 && IsRadix(radix)
    ensures |Digits(v, radix, upper)| >= 1
  {
  }

  /** Without zero padding a field is as long as the longest of its width, its
      precision, and its digits with the sign. */
  lemma LengthD(c: Conv, sign: int, v: nat)
    requires ConvOk(c) && !c.zero
    ensures |FormatD(c, sign, v)| ==
      Max(c.width, Max(Precision(c), |Numeral(v, 10, false, c)| + |SignOf(c, sign)|))
  {
  }

  /** A field falls short of its width exactly when zero padding meets an explicit
      precision that, with the sign, reaches the width but without it does not. */
  lemma FieldReachesWidth(c: Conv, sign: int, v: nat)
    requires ConvOk(c)
    ensures var s := |SignOf(c, sign)|;
      |FormatD(c, sign, v)| < c.width <==>
        c.zero && c.precision != -1 && c.width - s <= c.precision < c.width
        && |Numeral(v, 10, false, c)| + s < c.width
  {
    if v > 0 { DigitsNonempty(v, 10, false); }
  }

  /** "%05.4d" of -1 prints "-001", four characters in a field of five. */
  lemma ShortField()
    ensures var c := PLAIN.(zero := true, width := 5, precision := 4);
      FormatInt(c, -1) == "-001" && |"-001"| < 5
  {
    assert Digits(1, 10, false) == "1";
    assert Repeat('0', 2) == "00" && Repeat(' ', -4) == "";
  }

  /** The digits of %x, %X, %p and %o, zeros included, denote the printed value. */
  lemma NumbersDenote(c: Conv, v: nat, upper: bool)
    requires ConvOk(c)
    ensures Denotes(NumberX(c, v, upper), 16) == v && Denotes(NumberO(c, v), 8) == v
  {
    var x := Numeral(v, 16, upper, c);
    NumeralDenotes(v, 16, upper, c);
    ZerosDenote(|NumberX(c, v, upper)| - |x|, x, 16);
    assert NumberX(c, v, upper) == Repeat('0', |NumberX(c, v, upper)| - |x|) + x;
    DenotesO(c, v);
  }

  lemma DenotesO(c: Conv, v: nat)
    requires ConvOk(c)
    ensures Denotes(NumberO(c, v), 8) == v
  {
    var d := Digits(v, 8, false);
    var digits := LeadO(c, v) + d;
    DigitsDenote(v, 8, false);
    ZerosDenote(|LeadO(c, v)|, d, 8);
    assert LeadO(c, v) == Repeat('0', |LeadO(c, v)|);
    ZerosDenote(|NumberO(c, v)| - |digits|, digits, 8);
    assert NumberO(c, v) == Repeat('0', |NumberO(c, v)| - |digits|) + digits;
  }

  lemma NumeralDenotes(v: nat, radix: nat, upper: bool, c: Conv)
    requires ConvOk(c) && IsRadix(radix)
    ensures Denotes(Numeral(v, radix, upper, c), radix) == v
  {
    if v > 0 { DigitsDenote(v, radix, upper); }
    assert "0"[..0] == "" && Denotes("0", radix) == Denotes("", radix) * radix + 0;
  }

  lemma {:induction false} ZerosDenote(n: int, d: string, radix: nat)
    ensures Denotes(Repeat('0', n) + d, radix) == Denotes(d, radix)
    decreases |d|, n
  {
    if d != [] {
      var c := d[|d| - 1];
      ZerosDenote(n, d[..|d| - 1], radix);
      assert (Repeat('0', n) + d)[..|Repeat('0', n) + d| - 1] == Repeat('0', n) + d[..|d| - 1];
    } else if n > 0 {
      ZerosDenote(n - 1, d, radix);
      RepeatMore('0', n - 1);
      assert (Repeat('0', n) + d)[..n - 1] == Repeat('0', n - 1) + d;
    } else {
      assert Repeat('0', n) + d == d;
    }
  }

  /* ---- format strings ---- */

  /** A promoted argument: a 32-bit word, a string, or a pointer for %n to store through. */
  datatype Arg = Word(w: nat) | Str(s: string) | Count

  /** A conversion specification as parsed: up to the conversion character at `next`. */
  datatype Parsed = Parsed(conv: Conv, next: nat, args: seq<Arg>)

  predicate IsFlag(ch: char) {
    ch == '-' || ch == '+' || ch == ' ' || ch == '#' || ch == '0'
  }

  function SetFlag(c: Conv, ch: char): Conv {
    match ch
    case '-' => c.(left := true)
    case '+' => c.(plus := true)
    case ' ' => c.(space := true)
    case '#' => c.(alt := true)
    case '0' => c.(zero := true)
    case _ => c
  }

  function ParseFlags(f: string, i: nat, c: Conv): (r: (Conv, nat))
    requires i <= |f|
    ensures i <= r.1 <= |f| && r.0.width == c.width && r.0.precision == c.precision
    decreases |f| - i
  {
    if i < |f| && IsFlag(f[i]) then ParseFlags(f, i + 1, SetFlag(c, f[i])) else (c, i)
  }

  function ParseNumber(f: string, i: nat, acc: nat): (r: (nat, nat))
    requires i <= |f|
    ensures i <= r.1 <= |f|
    decreases |f| - i
  {
    if i < |f| && IsDigit(f[i]) then ParseNumber(f, i + 1, acc * 10 + DigitValue(f[i])) else (acc, i)
  }

  /** The next argument as a signed integer. */
  function NextInt(args: seq<Arg>): Option<int> {
    if args != [] && args[0].Word? && args[0].w < WORD then Some(Signed(args[0].w)) else None
  }

  /** Field width: a number, or * for an argument; a negative argument justifies left. */
  function ParseWidth(f: string, i: nat, args: seq<Arg>, c: Conv): (r: Option<Parsed>)
    requires i <= |f|
    ensures r.Some? ==> i <= r.value.next <= |f| && r.value.conv.precision == c.precision
  {
    if i < |f| && f[i] == '*' then
      match NextInt(args)
      case None => None
      case Some(n) =>
        if n == -0x8000_0000 then None
        else if n < 0 then Some(Parsed(c.(width := -n, left := true), i + 1, args[1..]))
        else Some(Parsed(c.(width := n), i + 1, args[1..]))
    else
      var (n, j) := ParseNumber(f, i, 0);
      Some(Parsed(c.(width := n), j, args))
  }

  /** Precision: none, a number (0 if empty), * for an argument; negative means none. */
  function ParsePrecision(f: string, i: nat, args: seq<Arg>, c: Conv): (r: Option<Parsed>)
    requires i <= |f| && ConvOk(c)
    ensures r.Some? ==> i <= r.value.next <= |f| && ConvOk(r.value.conv)
  {
    if i >= |f| || f[i] != '.' then Some(Parsed(c.(precision := -1), i, args))
    else if i + 1 < |f| && f[i + 1] == '-' then
      Some(Parsed(c.(precision := -1), ParseNumber(f, i + 2, 0).1, args))
    else if i + 1 < |f| && f[i + 1] == '*' then
      match NextInt(args)
      case None => None
      case Some(n) => Some(Parsed(c.(precision := if n < 0 then -1 else n), i + 2, args[1..]))
    else
      var (n, j) := ParseNumber(f, i + 1, 0);
      Some(Parsed(c.(precision := n), j, args))
  }

  /** From behind the % to the conversion character. */
  function ParseConv(f: string, i: nat, args: seq<Arg>): (r: Option<Parsed>)
    requires i <= |f|
    ensures r.Some? ==> i <= r.value.next <= |f| && ConvOk(r.value.conv)
  {
    var (c, j) := ParseFlags(f, i, PLAIN);
    match ParseWidth(f, j, args, c)
    case None => None
    case Some(p) => ParsePrecision(f, p.next, p.args, p.conv)
  }

  /** What a conversion prints; None where the arguments do not fit it. */
  function Convert(ch: char, c: Conv, args: seq<Arg>): (r: Option<(string, seq<Arg>)>)
    requires ConvOk(c)
  {
    if ch == '%' then Some(("%", args))
    else if ch == 'n' then
      if args != [] && args[0].Count? then Some(("", args[1..])) else None
    else if ch == 's' then
      if args != [] && args[0].Str? then Some((FormatS(c, args[0].s), args[1..])) else None
    else if ch in {'c', 'd', 'i', 'u', 'o', 'x', 'X', 'p'} then
      if args != [] && args[0].Word? && args[0].w < WORD then Some((ConvertWord(ch, c, args[0].w), args[1..])) else None
    else Some(("", args))
  }

  function ConvertWord(ch: char, c: Conv, w: nat): string
    requires ConvOk(c) && w < WORD
  {
    if ch == 'c' then FormatC(c, (w % 256) as char)
    else if ch == 'd' || ch == 'i' then FormatInt(c, Signed(w))
    else if ch == 'u' then FormatD(c, -1, w)
    else if ch == 'o' then FormatO(c, w)
    else FormatX(c, w, ch != 'x')
  }

  /** What a format string prints from position i on; None where the arguments do
      not fit the conversions, which C leaves undefined. */
  function Printed(f: string, i: nat, args: seq<Arg>): Option<string>
    requires i <= |f|
    decreases |f| - i
  {
    if i == |f| then Some("")
    else if f[i] != '%' then Prepend([f[i]], Printed(f, i + 1, args))
    else match ParseConv(f, i + 1, args)
      case None => None
      case Some(p) =>
        if p.next == |f| then Some("")
        else match Convert(f[p.next], p.conv, p.args)
          case None => None
          case Some(out) => Prepend(out.0, Printed(f, p.next + 1, out.1))
  }

  /** What the %n conversions from position i on store, in order, after `written`
      characters: the number of characters in front of each. */
  function Counts(f: string, i: nat, args: seq<Arg>, written: int): seq<int>
    requires i <= |f|
    decreases |f| - i
  {
    if i == |f| then []
    else if f[i] != '%' then Counts(f, i + 1, args, written + 1)
    else match ParseConv(f, i + 1, args)
      case None => []
      case Some(p) =>
        if p.next == |f| then []
        else match Convert(f[p.next], p.conv, p.args)
          case None => []
          case Some(out) =>
            (if f[p.next] == 'n' then [written] else []) + Counts(f, p.next + 1, out.1, written + |out.0|)
  }

  function Prepend(s: string, r: Option<string>): Option<string> {
    match r
    case None => None
    case Some(t) => Some(s + t)
  }

  lemma PrependNothing(r: Option<string>)
    ensures Prepend("", r) == r
  {
    if r.Some? { assert "" + r.value == r.value; }
  }

  lemma PrependTwice(a: string, b: string, r: Option<string>)
    ensures Prepend(a, Prepend(b, r)) == Prepend(a + b, r)
  {
    if r.Some? { assert a + (b + r.value) == a + b + r.value; }
  }
}
