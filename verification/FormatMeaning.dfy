/** What the formatter puts for a conversion letter, said by the letter alone: the
    radix, the case, the sign, the least number of digits, and the side of the
    spaces. What is said determines the text. */
module FormatMeaning {
  import opened Bits
  import opened Format
  import opened Numerals
  import opened Wrappers

  const NUMBER_LETTERS := {'d', 'i', 'u', 'o', 'x', 'X', 'p'}

  const CONVERSIONS := NUMBER_LETTERS + {'c', 's', '%', 'n'}

  /** Characters of flags, widths and precisions. */
  const SPEC_CHARS := {'-', '+', ' ', '#', '.', '*', '0', '1', '2', '3', '4', '5', '6', '7', '8', '9'}

  /* ---- what a letter asks for ---- */

  function Radix(ch: char): nat {
    if ch == 'o' then 8 else if ch in {'x', 'X', 'p'} then 16 else 10
  }

  predicate UpperCase(ch: char) {
    ch == 'X' || ch == 'p'
  }

  /** d and i take the word as a signed integer. */
  predicate Negative(ch: char, w: nat) {
    (ch == 'd' || ch == 'i') && w >= 0x8000_0000
  }

  function Magnitude(ch: char, w: nat): nat
    requires w < WORD
  {
    if Negative(ch, w) then WORD - w else w
  }

  /** The sign of d and i, and the prefix of the alternative form of x, X and p. */
  function Lead(ch: char, c: Conv, w: nat): string {
    match ch
    case 'd' => SignText(c, w)
    case 'i' => SignText(c, w)
    case 'x' => if c.alt && w != 0 then "0x" else ""
    case 'X' => if c.alt && w != 0 then "0X" else ""
    case 'p' => if c.alt && w != 0 then "0X" else ""
    case _ => ""
  }

  function SignText(c: Conv, w: nat): string {
    if w >= 0x8000_0000 then "-" else if c.plus then "+" else if c.space then " " else ""
  }

  /** The least number of digits: the precision, or what fills the width with zeros.
      For decimal conversions the precision counts the sign. */
  function LeastDigits(ch: char, c: Conv, w: nat): int
    requires ConvOk(c)
  {
    var lead := |Lead(ch, c, w)|;
    var one := if Precision(c) == 0 then 0 else 1;
    if Radix(ch) == 10 then Max(one, (if c.zero && Precision(c) + lead < c.width then c.width else Precision(c)) - lead)
    else if c.zero && Precision(c) < c.width - lead then c.width - lead
    else Precision(c)
  }

  predicate DigitOf(d: char, radix: nat, upper: bool) {
    || ('0' <= d <= '9' && d as int - '0' as int < radix)
    || (radix == 16 && if upper then 'A' <= d <= 'F' else 'a' <= d <= 'f')
  }

  /** s are digits that denote v, at least `least` of them, and with more than that
      no zero in front. `octal` puts one zero in front of the others. */
  ghost predicate IsNumeral(s: string, v: nat, radix: nat, upper: bool, least: int, octal: bool) {
    && (forall i :: 0 <= i < |s| ==> DigitOf(s[i], radix, upper))
    && Denotes(s, radix) == v
    && |s| >= least
    && (octal ==> s != "" && s[0] == '0' && (|s| > least && |s| > 1 ==> s[1] != '0'))
    && (!octal && |s| > least && |s| > 0 ==> s[0] != '0')
  }

  /** The body with spaces up to the width: behind it if `left`, else in front of it. */
  ghost predicate Justified(text: string, body: string, width: nat, left: bool) {
    && |text| == (if |body| < width then width else |body|)
    && (if left then text[..|body|] == body else text[|text| - |body|..] == body)
    && (forall i :: 0 <= i < |text| && (if left then |body| <= i else i < |text| - |body|) ==> text[i] == ' ')
  }

  /** What a number letter prints for a word. Zero padding leaves no spaces. */
  ghost predicate IsField(text: string, ch: char, c: Conv, w: nat)
    requires ConvOk(c) && w < WORD
  {
    exists s ::
      && IsNumeral(s, Magnitude(ch, w), Radix(ch), UpperCase(ch), LeastDigits(ch, c, w), ch == 'o' && c.alt)
      && Justified(text, Lead(ch, c, w) + s, if c.zero then 0 else c.width, c.left)
  }

  /* ---- it determines the text ---- */

  lemma DigitUnique(a: char, b: char, radix: nat, upper: bool)
    requires IsRadix(radix) && DigitOf(a, radix, upper) && DigitOf(b, radix, upper)
    ensures DigitValue(a) < radix && DigitValue(b) < radix && (DigitValue(a) == DigitValue(b) ==> a == b)
  {
  }

  lemma {:induction false} SameLength(s: string, t: string, radix: nat, upper: bool)
    requires IsRadix(radix) && |s| == |t| && Denotes(s, radix) == Denotes(t, radix)
    requires forall i :: 0 <= i < |s| ==> DigitOf(s[i], radix, upper) && DigitOf(t[i], radix, upper)
    ensures s == t
    decreases |s|
  {
    hide DigitOf, DigitValue;
    if s != "" {
      var n := |s| - 1;
      DigitUnique(s[n], t[n], radix, upper);
      LastDigit(Denotes(s[..n], radix), DigitValue(s[n]), Denotes(t[..n], radix), DigitValue(t[n]), radix);
      SameLength(s[..n], t[..n], radix, upper);
      assert s == s[..n] + [s[n]] && t == t[..n] + [t[n]];
    }
  }

  lemma LastDigit(q: nat, d: nat, q': nat, d': nat, radix: nat)
    requires IsRadix(radix) && d < radix && d' < radix && q * radix + d == q' * radix + d'
    ensures q == q' && d == d'
  {
  }

  lemma RepeatAll(ch: char, n: nat)
    ensures forall i :: 0 <= i < n ==> Repeat(ch, n)[i] == ch
  {
  }

  /** A numeral does not have two lengths. */
  lemma NotLonger(s: string, t: string, v: nat, radix: nat, upper: bool, least: int, octal: bool)
    requires IsRadix(radix)
    requires IsNumeral(s, v, radix, upper, least, octal) && IsNumeral(t, v, radix, upper, least, octal)
    ensures |t| <= |s|
  {
    if |s| < |t| {
      var z := Repeat('0', |t| - |s|);
      ZerosDenote(|t| - |s|, s, radix);
      RepeatAll('0', |t| - |s|);
      SameLength(z + s, t, radix, upper);
    }
  }

  lemma NumeralUnique(s: string, t: string, v: nat, radix: nat, upper: bool, least: int, octal: bool)
    requires IsRadix(radix)
    requires IsNumeral(s, v, radix, upper, least, octal) && IsNumeral(t, v, radix, upper, least, octal)
    ensures s == t
  {
    NotLonger(s, t, v, radix, upper, least, octal);
    NotLonger(t, s, v, radix, upper, least, octal);
    SameLength(s, t, radix, upper);
  }

  lemma JustifiedUnique(text: string, text': string, body: string, width: nat, left: bool)
    requires Justified(text, body, width, left) && Justified(text', body, width, left)
    ensures text == text'
  {
    var n, b := |text|, |body|;
    if left {
      assert text == text[..b] + text[b..] && text' == text'[..b] + text'[b..];
    } else {
      assert text == text[..n - b] + text[n - b..] && text' == text'[..n - b] + text'[n - b..];
    }
  }

  /** At most one text is what a letter asks for. */
  lemma FieldUnique(text: string, text': string, ch: char, c: Conv, w: nat)
    requires ConvOk(c) && w < WORD && IsField(text, ch, c, w) && IsField(text', ch, c, w)
    ensures text == text'
  {
    var v, radix, upper, least, octal :=
      Magnitude(ch, w), Radix(ch), UpperCase(ch), LeastDigits(ch, c, w), ch == 'o' && c.alt;
    var lead, width := Lead(ch, c, w), if c.zero then 0 else c.width;
    var s :| IsNumeral(s, v, radix, upper, least, octal) && Justified(text, lead + s, width, c.left);
    var t :| IsNumeral(t, v, radix, upper, least, octal) && Justified(text', lead + t, width, c.left);
    NumeralUnique(s, t, v, radix, upper, least, octal);
    JustifiedUnique(text, text', lead + s, width, c.left);
  }

  /* ---- the formatter prints it ---- */

  lemma PadJustifies(left: bool, body: string, width: nat)
    ensures Justified(Pad(left, body, width), body, width, left)
  {
    var n := if |body| < width then width - |body| else 0;
    RepeatAll(' ', n);
    assert Repeat(' ', width - |body|) == Repeat(' ', n);
  }

  lemma {:induction false} DigitsAre(v: nat, radix: nat, upper: bool)
    requires IsRadix(radix)
    ensures forall i :: 0 <= i < |Digits(v, radix, upper)| ==> DigitOf(Digits(v, radix, upper)[i], radix, upper)
    ensures v > 0 ==> Digits(v, radix, upper) != "" && Digits(v, radix, upper)[0] != '0'
    decreases v
  {
    if v > 0 { DigitsAre(Quot(v, radix), radix, upper); }
  }

  /** Zeros in front of the digits of a value, as many as wanted. */
  lemma ZerosNumeral(v: nat, radix: nat, upper: bool, least: nat, zeros: nat, octal: bool)
    requires IsRadix(radix)
    requires var d := |Digits(v, radix, upper)| + (if octal then 1 else 0);
      zeros == (if least > d then least - d else 0) + (if octal then 1 else 0)
    ensures IsNumeral(Repeat('0', zeros) + Digits(v, radix, upper), v, radix, upper, least, octal)
  {
    var d := Digits(v, radix, upper);
    DigitsAre(v, radix, upper);
    DigitsDenote(v, radix, upper);
    NoDigits(radix, upper);
    hide Digits, Denotes, DigitOf;
    ZerosDenote(zeros, d, radix);
    ZerosInFront(zeros, d, radix, upper);
  }

  lemma ZerosInFront(zeros: nat, d: string, radix: nat, upper: bool)
    requires radix > 0 && forall i :: 0 <= i < |d| ==> DigitOf(d[i], radix, upper)
    ensures var s := Repeat('0', zeros) + d;
      && |s| == zeros + |d| && (forall i :: 0 <= i < |s| ==> DigitOf(s[i], radix, upper))
      && (zeros > 0 ==> s[0] == '0') && (zeros == 0 && d != "" ==> s[0] == d[0])
      && (zeros == 1 && d != "" ==> s[1] == d[0])
  {
    RepeatAll('0', zeros);
    assert DigitOf('0', radix, upper);
    hide DigitOf;
  }

  lemma NumeralZeros(v: nat, radix: nat, upper: bool, c: Conv, zeros: nat)
    requires IsRadix(radix) && ConvOk(c)
    ensures Repeat('0', zeros) + Numeral(v, radix, upper, c) ==
      Repeat('0', if v == 0 && Precision(c) != 0 then zeros + 1 else zeros) + Digits(v, radix, upper)
  {
    RepeatMore('0', zeros);
    if v == 0 {
      assert Digits(0, radix, upper) == "";
      assert Repeat('0', zeros) + "" == Repeat('0', zeros) && Repeat('0', zeros + 1) + "" == Repeat('0', zeros + 1);
    }
  }

  lemma NoDigits(radix: nat, upper: bool)
    requires IsRadix(radix)
    ensures Digits(0, radix, upper) == ""
  {
  }

  lemma NegativeRepeat(n: int)
    requires n <= 0
    ensures Repeat('0', n) == Repeat('0', 0)
  {
  }

  lemma DecimalWord(ch: char, c: Conv, w: nat, sign: int)
    requires ConvOk(c) && w < WORD && (ch == 'd' || ch == 'i' || ch == 'u')
    requires sign == if ch == 'u' then -1 else if w >= 0x8000_0000 then 1 else 0
    ensures SignOf(c, sign) == Lead(ch, c, w)
    ensures ConvertWord(ch, c, w) ==
      Pad(c.left, Lead(ch, c, w) + NumberD(c, sign, Magnitude(ch, w)), if c.zero then 0 else c.width)
    ensures var s := |SignOf(c, sign)|;
      LeastDigits(ch, c, w) == Max(if Precision(c) == 0 then 0 else 1,
        (if c.zero && Precision(c) + s < c.width then c.width else Precision(c)) - s)
  {
    hide NumberD, Pad;
    assert ConvertWord(ch, c, w) == FormatD(c, sign, Magnitude(ch, w));
  }

  lemma MeansD(ch: char, c: Conv, w: nat)
    requires ConvOk(c) && w < WORD && (ch == 'd' || ch == 'i' || ch == 'u')
    ensures IsField(ConvertWord(ch, c, w), ch, c, w)
  {
    var sign := if ch == 'u' then -1 else if w >= 0x8000_0000 then 1 else 0;
    var number := NumberD(c, sign, Magnitude(ch, w));
    DecimalWord(ch, c, w, sign);
    hide IsNumeral, Justified, Pad, NumberD, Precision, SignOf, Lead, IsField, ConvertWord, LeastDigits, Magnitude;
    NumberDMeans(c, sign, Magnitude(ch, w), LeastDigits(ch, c, w));
    PadJustifies(c.left, Lead(ch, c, w) + number, if c.zero then 0 else c.width);
    FieldFrom(ConvertWord(ch, c, w), ch, c, w, number);
  }

  lemma FieldFrom(text: string, ch: char, c: Conv, w: nat, s: string)
    requires ConvOk(c) && w < WORD
    requires IsNumeral(s, Magnitude(ch, w), Radix(ch), UpperCase(ch), LeastDigits(ch, c, w), ch == 'o' && c.alt)
    requires Justified(text, Lead(ch, c, w) + s, if c.zero then 0 else c.width, c.left)
    ensures IsField(text, ch, c, w)
  {
  }

  lemma NumberDMeans(c: Conv, sign: int, v: nat, least: int)
    requires ConvOk(c)
    requires var s := |SignOf(c, sign)|;
      least == Max(if Precision(c) == 0 then 0 else 1,
                   (if c.zero && Precision(c) + s < c.width then c.width else Precision(c)) - s)
    ensures IsNumeral(NumberD(c, sign, v), v, 10, false, least, false)
  {
    hide IsNumeral, Digits;
    var s, digits := |SignOf(c, sign)|, Numeral(v, 10, false, c);
    var p := if c.zero && Precision(c) + s < c.width then c.width else Precision(c);
    var k := p - |digits| - s;
    if k < 0 { NegativeRepeat(k); }
    var zeros := if k < 0 then 0 else k;
    NumeralZeros(v, 10, false, c, zeros);
    NoDigits(10, false);
    if v > 0 { DigitsNonempty(v, 10, false); }
    ZerosNumeral(v, 10, false, least, if v == 0 && Precision(c) != 0 then zeros + 1 else zeros, false);
  }

  lemma MeansO(c: Conv, w: nat)
    requires ConvOk(c) && w < WORD
    ensures IsField(ConvertWord('o', c, w), 'o', c, w)
  {
    var width := if c.zero then 0 else c.width;
    var number := NumberO(c, w);
    OctalWord(c, w);
    hide IsNumeral, Justified, Pad, NumberO, Precision, IsField, ConvertWord, LeastDigits;
    NumberOMeans(c, w, LeastDigits('o', c, w));
    PadJustifies(c.left, "" + number, width);
    OctalField(ConvertWord('o', c, w), c, w, number);
  }

  lemma OctalField(text: string, c: Conv, w: nat, s: string)
    requires ConvOk(c) && w < WORD && IsNumeral(s, w, 8, false, LeastDigits('o', c, w), c.alt)
    requires Justified(text, "" + s, if c.zero then 0 else c.width, c.left)
    ensures IsField(text, 'o', c, w)
  {
    hide IsNumeral, Justified, LeastDigits;
    FieldFrom(text, 'o', c, w, s);
  }

  lemma OctalWord(c: Conv, w: nat)
    requires ConvOk(c) && w < WORD
    ensures ConvertWord('o', c, w) == Pad(c.left, "" + NumberO(c, w), if c.zero then 0 else c.width)
    ensures LeastDigits('o', c, w) == if c.zero && Precision(c) < c.width then c.width else Precision(c)
  {
    hide NumberO, Pad;
    assert "" + NumberO(c, w) == NumberO(c, w);
  }

  lemma NumberOMeans(c: Conv, v: nat, least: int)
    requires ConvOk(c) && least == if c.zero && Precision(c) < c.width then c.width else Precision(c)
    ensures IsNumeral(NumberO(c, v), v, 8, false, least, c.alt)
  {
    hide IsNumeral, Digits;
    var lead, d := LeadO(c, v), Digits(v, 8, false);
    var k := least - |lead + d|;
    if k < 0 { NegativeRepeat(k); }
    var zeros := if k < 0 then 0 else k;
    RepeatMore('0', zeros);
    NoDigits(8, false);
    assert Repeat('0', zeros) + (lead + d) == Repeat('0', zeros + |lead|) + d;
    ZerosNumeral(v, 8, false, least, zeros + |lead|, c.alt);
  }

  lemma MeansX(ch: char, c: Conv, w: nat)
    requires ConvOk(c) && w < WORD && ch in {'x', 'X', 'p'}
    ensures IsField(ConvertWord(ch, c, w), ch, c, w)
  {
    var upper, lead, least := UpperCase(ch), Lead(ch, c, w), LeastDigits(ch, c, w);
    var width := if c.zero then 0 else c.width;
    assert Prefix(c, w, upper) == lead && ConvertWord(ch, c, w) == FormatX(c, w, upper);
    var number := NumberX(c, w, upper);
    hide IsNumeral, Justified, Pad, NumberX, Precision, IsField;
    NumberXMeans(c, w, upper, least);
    PadJustifies(c.left, lead + number, width);
    FieldFrom(ConvertWord(ch, c, w), ch, c, w, number);
  }

  lemma NumberXMeans(c: Conv, v: nat, upper: bool, least: int)
    requires ConvOk(c)
    requires var s := |Prefix(c, v, upper)|;
      least == if c.zero && Precision(c) < c.width - s then c.width - s else Precision(c)
    ensures IsNumeral(NumberX(c, v, upper), v, 16, upper, least, false)
  {
    hide IsNumeral, Digits;
    var digits := Numeral(v, 16, upper, c);
    var k := least - |digits|;
    if k < 0 { NegativeRepeat(k); }
    var zeros := if k < 0 then 0 else k;
    NumeralZeros(v, 16, upper, c, zeros);
    NoDigits(16, upper);
    ZerosNumeral(v, 16, upper, least, if v == 0 && Precision(c) != 0 then zeros + 1 else zeros, false);
  }

  /** A number letter prints its word as the letter says: in radix 8 for o, 16 for
      x, X and p, 10 for the others, signed for d and i. It uses up one argument. */
  lemma NumbersMean(ch: char, c: Conv, w: nat, rest: seq<Arg>)
    requires ConvOk(c) && w < WORD && ch in NUMBER_LETTERS
    ensures var r := Convert(ch, c, [Word(w)] + rest);
      r.Some? && r.value.1 == rest && forall text: string :: text == r.value.0 <==> IsField(text, ch, c, w)
  {
    var r := Convert(ch, c, [Word(w)] + rest);
    assert r == Some((ConvertWord(ch, c, w), ([Word(w)] + rest)[1..]));
    if ch == 'd' || ch == 'i' || ch == 'u' {
      MeansD(ch, c, w);
    } else if ch == 'o' {
      MeansO(c, w);
    } else {
      MeansX(ch, c, w);
    }
    forall text | IsField(text, ch, c, w) ensures text == r.value.0 {
      FieldUnique(text, r.value.0, ch, c, w);
    }
  }

  /** %c puts one character, %s a prefix of its string: all of it, or as much as the
      precision allows. The spaces stand behind a string if any flag was given, and
      behind a character only for the flag '-'. */
  lemma TextMeans(c: Conv, w: nat, s: string, rest: seq<Arg>)
    requires ConvOk(c) && w < WORD
    ensures var r := Convert('c', c, [Word(w)] + rest);
      r.Some? && r.value.1 == rest && Justified(r.value.0, [(w % 256) as char], c.width, c.left)
    ensures var r := Convert('s', c, [Str(s)] + rest);
      && r.Some? && r.value.1 == rest
      && var k := if 0 <= c.precision < |s| then c.precision else |s|;
      Justified(r.value.0, s[..k], c.width, c.left || c.plus || c.space || c.alt || c.zero)
  {
    CharMeans(c, w, rest);
    StringMeans(c, s, rest);
    hide Justified, Convert;
  }

  lemma AloneJustified(ch: char, left: bool)
    ensures Justified([ch], [ch], 0, left)
  {
  }

  lemma CharMeans(c: Conv, w: nat, rest: seq<Arg>)
    requires ConvOk(c) && w < WORD
    ensures var r := Convert('c', c, [Word(w)] + rest);
      r.Some? && r.value.1 == rest && Justified(r.value.0, [(w % 256) as char], c.width, c.left)
  {
    hide Justified, Pad;
    var ch := (w % 256) as char;
    PadJustifies(c.left, [ch], c.width);
    assert ([Word(w)] + rest)[1..] == rest;
    AloneJustified(ch, c.left);
  }

  lemma StringMeans(c: Conv, s: string, rest: seq<Arg>)
    requires ConvOk(c)
    ensures var r := Convert('s', c, [Str(s)] + rest);
      && r.Some? && r.value.1 == rest
      && var k := if 0 <= c.precision < |s| then c.precision else |s|;
      Justified(r.value.0, s[..k], c.width, c.left || c.plus || c.space || c.alt || c.zero)
  {
    hide Justified, Pad;
    var k := if 0 <= c.precision < |s| then c.precision else |s|;
    assert s[..|s|] == s && ([Str(s)] + rest)[1..] == rest;
    PadJustifies(AnyFlag(c), s[..k], c.width);
  }

  /* ---- how a specification is written ---- */

  ghost predicate AllFlags(s: string) {
    forall i :: 0 <= i < |s| ==> s[i] in {'-', '+', ' ', '#', '0'}
  }

  ghost predicate AllDigits(s: string) {
    forall i :: 0 <= i < |s| ==> '0' <= s[i] <= '9'
  }

  /** The flags in any order and number: each is on exactly if its character is there. */
  lemma {:induction false} FlagsMean(f: string, i: nat, j: nat, c: Conv)
    requires i <= j <= |f| && AllFlags(f[i..j]) && (j < |f| ==> f[j] !in {'-', '+', ' ', '#', '0'})
    ensures var fl := f[i..j];
      ParseFlags(f, i, c) == (Conv(c.left || '-' in fl, c.plus || '+' in fl, c.space || ' ' in fl,
                                   c.alt || '#' in fl, c.zero || '0' in fl, c.width, c.precision), j)
    decreases j - i
  {
    if i < j {
      FlagsTail(f[i..j], f[i], f[i + 1..j]);
      FlagsMean(f, i + 1, j, SetFlag(c, f[i]));
    }
  }

  lemma FlagsTail(s: string, ch: char, tail: string)
    requires AllFlags(s) && |s| == |tail| + 1 && s[0] == ch && s[1..] == tail
    ensures AllFlags(tail) && IsFlag(ch)
    ensures forall x :: x in s <==> x == ch || x in tail
  {
    assert s == [ch] + tail;
    forall i | 0 <= i < |tail| ensures tail[i] in {'-', '+', ' ', '#', '0'} {
      assert tail[i] == s[i + 1];
    }
  }

  /** A run of digits is the number it denotes in radix 10; no digits are 0. */
  lemma NumberMeans(f: string, i: nat, j: nat)
    requires i <= j <= |f| && AllDigits(f[i..j]) && (j < |f| ==> !('0' <= f[j] <= '9'))
    ensures ParseNumber(f, i, 0) == (Denotes(f[i..j], 10), j)
  {
    assert f[i..i] == "";
    NumberFrom(f, i, i, j);
  }

  lemma {:induction false} NumberFrom(f: string, i: nat, m: nat, j: nat)
    requires i <= m <= j <= |f| && AllDigits(f[i..j]) && (j < |f| ==> !('0' <= f[j] <= '9'))
    ensures ParseNumber(f, m, Denotes(f[i..m], 10)) == (Denotes(f[i..j], 10), j)
    decreases j - m
  {
    if m < j {
      assert f[i..j][m - i] == f[m];
      assert f[i..m + 1] == f[i..m] + [f[m]];
      DenotesAppend(f[i..m], f[m], 10);
      NumberFrom(f, i, m + 1, j);
    }
  }

  /** The field width: the number it is written as ... */
  lemma WidthMeans(f: string, i: nat, j: nat, args: seq<Arg>, c: Conv)
    requires i <= j <= |f| && AllDigits(f[i..j]) && (j < |f| ==> !('0' <= f[j] <= '9'))
    requires i == j < |f| ==> f[i] != '*'
    ensures ParseWidth(f, i, args, c) == Some(Parsed(c.(width := Denotes(f[i..j], 10)), j, args))
  {
    assert i < j ==> f[i..j][0] == f[i];
    NumberMeans(f, i, j);
  }

  /** ... or for a * the magnitude of an argument, which justifies left if negative. */
  lemma StarWidthMeans(f: string, i: nat, w: nat, args: seq<Arg>, c: Conv)
    requires i < |f| && f[i] == '*' && w < WORD && w != 0x8000_0000
    ensures var n := Signed(w);
      ParseWidth(f, i, [Word(w)] + args, c) ==
      Some(Parsed(c.(width := if n < 0 then -n else n, left := c.left || n < 0), i + 1, args))
  {
    assert ([Word(w)] + args)[1..] == args;
  }

  /** The precision: none without a point; behind a point the number, 0 if there
      are no digits; behind ".-" none, and the digits there are skipped. */
  lemma PrecisionMeans(f: string, i: nat, j: nat, args: seq<Arg>, c: Conv)
    requires ConvOk(c) && i <= |f|
    ensures (i == |f| || f[i] != '.') ==> ParsePrecision(f, i, args, c) == Some(Parsed(c.(precision := -1), i, args))
    ensures i < j <= |f| && f[i] == '.' && AllDigits(f[i + 1..j]) && (j < |f| ==> !('0' <= f[j] <= '9'))
      && (j == i + 1 < |f| ==> f[j] != '-' && f[j] != '*')
      ==> ParsePrecision(f, i, args, c) == Some(Parsed(c.(precision := Denotes(f[i + 1..j], 10)), j, args))
    ensures i + 1 < j <= |f| && f[i] == '.' && f[i + 1] == '-' && AllDigits(f[i + 2..j])
      && (j < |f| ==> !('0' <= f[j] <= '9'))
      ==> ParsePrecision(f, i, args, c) == Some(Parsed(c.(precision := -1), j, args))
  {
    if i < j <= |f| && f[i] == '.' && AllDigits(f[i + 1..j]) && (j < |f| ==> !('0' <= f[j] <= '9')) {
      assert i + 1 < j ==> f[i + 1..j][0] == f[i + 1];
      NumberMeans(f, i + 1, j);
    }
    if i + 1 < j <= |f| && AllDigits(f[i + 2..j]) && (j < |f| ==> !('0' <= f[j] <= '9')) { NumberMeans(f, i + 2, j); }
  }

  /** Behind ".*" the precision is an argument; a negative one stands for none. */
  lemma StarPrecisionMeans(f: string, i: nat, w: nat, args: seq<Arg>, c: Conv)
    requires ConvOk(c) && i + 1 < |f| && f[i] == '.' && f[i + 1] == '*' && w < WORD
    ensures var n := Signed(w);
      ParsePrecision(f, i, [Word(w)] + args, c) ==
      Some(Parsed(c.(precision := if n < 0 then -1 else n), i + 2, args))
  {
    assert ([Word(w)] + args)[1..] == args;
  }

  /* ---- whole directives ---- */

  /** Flags from i to j, a width from j to k, and from k to l a point and a
      precision, or nothing: written with digits. */
  ghost predicate IsSpec(f: string, i: nat, j: nat, k: nat, l: nat) {
    && i <= j <= k <= l < |f|
    && AllFlags(f[i..j]) && f[j] !in {'-', '+', ' ', '#', '0', '*'}
    && AllDigits(f[j..k]) && !('0' <= f[k] <= '9')
    && if f[k] == '.' then
         k < l && AllDigits(f[k + 1..l]) && !('0' <= f[l] <= '9') && (l == k + 1 ==> f[l] != '-' && f[l] != '*')
       else l == k
  }

  /** The conversion such a text specifies. */
  ghost function SpecConv(f: string, i: nat, j: nat, k: nat, l: nat): (c: Conv)
    requires IsSpec(f, i, j, k, l)
    ensures ConvOk(c)
  {
    var flags := f[i..j];
    Conv('-' in flags, '+' in flags, ' ' in flags, '#' in flags, '0' in flags,
      Denotes(f[j..k], 10), if l > k then Denotes(f[k + 1..l], 10) else -1)
  }

  lemma SpecMeans(f: string, i: nat, j: nat, k: nat, l: nat, args: seq<Arg>)
    requires IsSpec(f, i, j, k, l)
    ensures ParseConv(f, i, args) == Some(Parsed(SpecConv(f, i, j, k, l), l, args))
  {
    FlagsMean(f, i, j, PLAIN);
    var c := ParseFlags(f, i, PLAIN).0;
    WidthMeans(f, j, k, args, c);
    PrecisionMeans(f, k, l, args, c.(width := Denotes(f[j..k], 10)));
    hide ParseFlags, ParseWidth, ParsePrecision, Denotes;
  }

  /** From position i on a field is printed, and then what the format prints from
      `next` on for the rest of the arguments. */
  ghost predicate PrintsField(f: string, i: nat, ch: char, c: Conv, w: nat, next: nat, rest: seq<Arg>)
    requires ConvOk(c) && w < WORD && i <= |f| && next <= |f|
  {
    exists text :: IsField(text, ch, c, w) && Printed(f, i, [Word(w)] + rest) == Prepend(text, Printed(f, next, rest))
  }

  /** A directive with a number letter, anywhere in a format: it prints the field
      that its flags, width and precision ask for, and the rest of the format
      goes on with the rest of the arguments. */
  lemma NumberPrints(f: string, i: nat, j: nat, k: nat, l: nat, w: nat, rest: seq<Arg>)
    requires i < |f| && f[i] == '%' && IsSpec(f, i + 1, j, k, l) && f[l] in NUMBER_LETTERS && w < WORD
    ensures PrintsField(f, i, f[l], SpecConv(f, i + 1, j, k, l), w, l + 1, rest)
  {
    var c, args := SpecConv(f, i + 1, j, k, l), [Word(w)] + rest;
    SpecMeans(f, i + 1, j, k, l, args);
    NumbersMean(f[l], c, w, rest);
    hide IsField, SpecConv, IsSpec;
    DirectivePrints(f, i, c, l, args, rest);
  }

  lemma DirectivePrints(f: string, i: nat, c: Conv, l: nat, args: seq<Arg>, rest: seq<Arg>)
    requires i < |f| && f[i] == '%' && l < |f| && ConvOk(c) && ParseConv(f, i + 1, args) == Some(Parsed(c, l, args))
    requires Convert(f[l], c, args).Some? && Convert(f[l], c, args).value.1 == rest && i < l
    ensures Printed(f, i, args) == Prepend(Convert(f[l], c, args).value.0, Printed(f, l + 1, rest))
  {
    hide ParseConv, Convert, Prepend;
  }

  /** In particular the letter alone. */
  lemma LetterPrints(ch: char, w: nat)
    requires ch in NUMBER_LETTERS && w < WORD
    ensures var r := Printed("%" + [ch], 0, [Word(w)]);
      r.Some? && IsField(r.value, ch, PLAIN, w)
  {
    var f := "%" + [ch];
    assert f[1..1] == "" && [Word(w)] + [] == [Word(w)];
    NumberPrints(f, 0, 1, 1, 1, w, []);
    assert SpecConv(f, 1, 1, 1, 1) == PLAIN;
    hide IsField;
    var text :| IsField(text, ch, PLAIN, w) && Printed(f, 0, [Word(w)]) == Prepend(text, Printed(f, 2, []));
    assert text + "" == text;
  }

  /** Text without % prints itself, and only counts for a later %n. */
  lemma {:induction false} PlainText(f: string, i: nat, j: nat, args: seq<Arg>, written: int)
    requires i <= j <= |f| && forall k :: i <= k < j ==> f[k] != '%'
    ensures Printed(f, i, args) == Prepend(f[i..j], Printed(f, j, args))
    ensures Counts(f, i, args, written) == Counts(f, j, args, written + (j - i))
    decreases j - i
  {
    if i < j {
      PlainText(f, i + 1, j, args, written + 1);
      assert f[i..j] == [f[i]] + f[i + 1..j];
      PrependTwice([f[i]], f[i + 1..j], Printed(f, j, args));
    } else {
      assert f[i..j] == "";
      PrependNothing(Printed(f, i, args));
    }
  }

  /** Behind a % a letter that is no part of a specification stands for itself. */
  lemma LetterAlone(f: string, i: nat, args: seq<Arg>)
    requires i < |f| && f[i] !in SPEC_CHARS
    ensures ParseConv(f, i, args) == Some(Parsed(PLAIN, i, args))
  {
    assert f[i..i] == "";
    SpecMeans(f, i, i, i, i, args);
  }

  /** "%%" prints one %, and a % at the end nothing. Neither uses up an argument. */
  lemma PercentPrints(f: string, i: nat, args: seq<Arg>, written: int)
    requires i < |f| && f[i] == '%' && (i + 1 < |f| ==> f[i + 1] == '%')
    ensures i + 1 == |f| ==> Printed(f, i, args) == Some("")
    ensures i + 1 < |f| ==>
      Printed(f, i, args) == Prepend("%", Printed(f, i + 2, args))
      && Counts(f, i, args, written) == Counts(f, i + 2, args, written + 1)
  {
    if i + 1 == |f| {
      assert ParseConv(f, i + 1, args) == Some(Parsed(PLAIN, i + 1, args));
    } else {
      LetterAlone(f, i + 1, args);
      hide ParseConv;
    }
  }

  /** A letter that is no conversion prints nothing and uses up no argument. */
  lemma OtherPrints(f: string, i: nat, args: seq<Arg>, written: int)
    requires i + 1 < |f| && f[i] == '%' && f[i + 1] !in SPEC_CHARS && f[i + 1] !in CONVERSIONS
    ensures Printed(f, i, args) == Printed(f, i + 2, args)
    ensures Counts(f, i, args, written) == Counts(f, i + 2, args, written)
  {
    LetterAlone(f, i + 1, args);
    OtherConverts(f[i + 1], args);
    hide ParseConv, Convert;
    PrependNothing(Printed(f, i + 2, args));
  }

  lemma OtherConverts(ch: char, args: seq<Arg>)
    requires ch !in CONVERSIONS
    ensures Convert(ch, PLAIN, args) == Some(("", args)) && ch != 'n'
  {
  }

  /** "%n" prints nothing and stores how much was put in front of it. */
  lemma CountStores(f: string, i: nat, args: seq<Arg>, written: int)
    requires i + 1 < |f| && f[i] == '%' && f[i + 1] == 'n'
    ensures Printed(f, i, [Count] + args) == Printed(f, i + 2, args)
    ensures Counts(f, i, [Count] + args, written) == [written] + Counts(f, i + 2, args, written)
  {
    LetterAlone(f, i + 1, [Count] + args);
    assert ([Count] + args)[1..] == args;
    hide ParseConv;
    PrependNothing(Printed(f, i + 2, args));
  }
}
