/** The formatter as the library runs it: characters go one by one to a sink,
    digits pass through a small buffer in reverse. */
module Printf {
  import opened Bits
  import opened Numerals
  import opened Format
  import opened CString
  import opened Wrappers

  class Printer {
    /** Everything put so far, and everything stored by %n. */
    var out: string
    var counts: seq<int>

    constructor ()
      ensures out == "" && counts == []
    {
      out, counts := "", [];
    }

    method Putc(ch: char)
      modifies this`out
      ensures out == old(out) + [ch]
    {
      out := out + [ch];
    }

    method PrintNch(ch: char, n: int)
      modifies this`out
      ensures out == old(out) + Repeat(ch, n)
    {
      var i := 0;
      while i < n
        invariant 0 <= i && (n < 0 || i <= n) && (n < 0 ==> i == 0)
        invariant out == old(out) + Repeat(ch, i)
      {
        Putc(ch);
        RepeatMore(ch, i);
        i := i + 1;
      }
    }

    method PrintStr(s: string)
      modifies this`out
      ensures out == old(out) + s
    {
      for i := 0 to |s|
        invariant out == old(out) + s[..i]
      {
        Putc(s[i]);
        assert s[..i] + [s[i]] == s[..i + 1];
      }
      assert s[..|s|] == s;
    }

    method PrintC(c: Conv, ch: char) returns (n: int)
      modifies this`out
      ensures out == old(out) + FormatC(c, ch) && n == |FormatC(c, ch)|
    {
      if c.width != 0 {
        if c.left {
          Putc(ch);
          PrintNch(' ', c.width - 1);
        } else {
          PrintNch(' ', c.width - 1);
          Putc(ch);
        }
        return c.width;
      }
      Putc(ch);
      n := 1;
    }

    method PrintS(c: Conv, str: string) returns (n: int)
      requires ConvOk(c)
      modifies this`out
      ensures out == old(out) + FormatS(c, str) && n == |FormatS(c, str)|
    {
      var len := |str|;
      if c.precision != -1 && len > c.precision { len := c.precision; }
      var nspace := c.width - len;
      if nspace < 0 { nspace := 0; }
      assert str[..|str|] == str;
      if AnyFlag(c) {
        PrintStr(str[..len]);
        PrintNch(' ', nspace);
      } else {
        PrintNch(' ', nspace);
        PrintStr(str[..len]);
      }
      n := nspace + len;
    }

    /** The digits of v, least significant first, in the front of a buffer. */
    method ReverseDigits(v: nat, radix: nat, upper: bool) returns (buf: array<char>, bufc: nat)
      requires v < WORD && IsRadix(radix)
      ensures fresh(buf) && buf.Length == 64 && bufc <= 11
      ensures Backwards(buf[..bufc]) == Digits(v, radix, upper)
    {
      buf := new char[64](_ => ' ');
      bufc := 0;
      var rest: nat := v;
      WordFitsDigits(v, radix, upper);
      while rest != 0
        invariant |Digits(rest, radix, upper)| + bufc == |Digits(v, radix, upper)|
        invariant bufc <= 11
        invariant Digits(v, radix, upper) == Digits(rest, radix, upper) + Backwards(buf[..bufc])
        decreases rest
      {
        ghost var before := buf[..bufc];
        MoveDigit(rest, radix, upper, before);
        buf[bufc] := DigitChar(Rem(rest, radix), upper);
        assert buf[..bufc + 1] == before + [buf[bufc]];
        bufc := bufc + 1;
        rest := Quot(rest, radix);
      }
    }

    /** Put the first n characters of a buffer, last one first. */
    method PrintBackwards(buf: array<char>, n: nat)
      requires n <= buf.Length
      modifies this`out
      ensures out == old(out) + Backwards(buf[..n])
    {
      var i := n;
      while i > 0
        invariant 0 <= i <= n
        invariant old(out) + Backwards(buf[..n]) == out + Backwards(buf[..i])
      {
        i := i - 1;
        assert buf[..i + 1] == buf[..i] + [buf[i]];
        BackwardsAppend(buf[..i], buf[i]);
        Putc(buf[i]);
      }
    }

    /** Prefix, zeros and digits, filled up with spaces to the width. `number` is
        the text of the zeros and digits, `field` that of the whole field. */
    method PrintField(left: bool, prefix: string, zeros: int, buf: array<char>, bufc: nat, width: nat,
                      ghost number: string, ghost field: string)
      returns (n: int)
      requires bufc <= buf.Length && number == Repeat('0', zeros) + Backwards(buf[..bufc])
      requires field == Pad(left, prefix + number, width)
      modifies this`out
      ensures out == old(out) + field && n == |field|
    {
      var numzero := if zeros < 0 then 0 else zeros;
      var numspace := width - numzero - bufc - |prefix|;
      if numspace < 0 { numspace := 0; }
      assert Repeat('0', numzero) == Repeat('0', zeros);
      assert Repeat(' ', numspace) == Repeat(' ', width - |prefix + number|);
      ghost var before, gap := out, Repeat(' ', numspace);
      if left {
        PrintPrefixed(prefix, numzero, buf, bufc, number);
        PrintNch(' ', numspace);
        assert out == before + ((prefix + number) + gap);
      } else {
        PrintNch(' ', numspace);
        PrintPrefixed(prefix, numzero, buf, bufc, number);
        assert out == before + (gap + (prefix + number));
      }
      n := numspace + |prefix| + numzero + bufc;
    }

    method PrintPrefixed(prefix: string, numzero: int, buf: array<char>, bufc: nat, ghost number: string)
      requires bufc <= buf.Length && number == Repeat('0', numzero) + Backwards(buf[..bufc])
      modifies this`out
      ensures out == old(out) + (prefix + number)
    {
      ghost var before := out;
      PrintStr(prefix);
      PrintNch('0', numzero);
      PrintBackwards(buf, bufc);
      assert out == before + prefix + number;
    }

    method PrintD(c: Conv, sign: int, absv: nat) returns (n: int)
      requires ConvOk(c) && absv < WORD
      modifies this`out
      ensures out == old(out) + FormatD(c, sign, absv) && n == |FormatD(c, sign, absv)|
    {
      var precision: nat := if c.precision == -1 then 1 else c.precision;
      var buf, bufc := NumeralDigits(c, absv, 10, false);
      ghost var digits := Backwards(buf[..bufc]);
      var sgn := SignOf(c, sign);
      var width := c.width;
      if c.zero && precision + |sgn| < width { precision := width; }
      if c.zero { width := 0; }
      ghost var number := Repeat('0', precision - bufc - |sgn|) + digits;
      ShapeD(c, sign, absv, precision);
      n := PrintField(c.left, sgn, precision - bufc - |sgn|, buf, bufc, width, number, FormatD(c, sign, absv));
    }

    method PrintO(c: Conv, v: nat) returns (n: int)
      requires ConvOk(c) && v < WORD
      modifies this`out
      ensures out == old(out) + FormatO(c, v) && n == |FormatO(c, v)|
    {
      var precision: nat := if c.precision == -1 then 1 else c.precision;
      var buf, bufc := OctalDigits(c, v);
      ghost var digits := Backwards(buf[..bufc]);
      var width := c.width;
      if c.zero && precision < width { precision := width; }
      if c.zero { width := 0; }
      ghost var number := Repeat('0', precision - bufc) + digits;
      ShapeO(c, v, precision);
      n := PrintField(c.left, "", precision - bufc, buf, bufc, width, number, FormatO(c, v));
    }

    method PrintX(c: Conv, v: nat, upper: bool) returns (n: int)
      requires ConvOk(c) && v < WORD
      modifies this`out
      ensures out == old(out) + FormatX(c, v, upper) && n == |FormatX(c, v, upper)|
    {
      var precision: nat := if c.precision == -1 then 1 else c.precision;
      var buf, bufc := NumeralDigits(c, v, 16, upper);
      ghost var digits := Backwards(buf[..bufc]);
      var prefix := Prefix(c, v, upper);
      var width := c.width;
      if c.zero && precision < width - |prefix| { precision := width - |prefix|; }
      if c.zero { width := 0; }
      ghost var number := Repeat('0', precision - bufc) + digits;
      ShapeX(c, v, upper, precision);
      n := PrintField(c.left, prefix, precision - bufc, buf, bufc, width, number, FormatX(c, v, upper));
    }

    /** The digits of a decimal or hexadecimal value, with a 0 for zero unless the
        precision is zero. */
    method NumeralDigits(c: Conv, v: nat, radix: nat, upper: bool) returns (buf: array<char>, bufc: nat)
      requires ConvOk(c) && v < WORD && IsRadix(radix)
      ensures fresh(buf) && bufc <= buf.Length && Backwards(buf[..bufc]) == Numeral(v, radix, upper, c)
    {
      buf, bufc := ReverseDigits(v, radix, upper);
      if v > 0 { DigitsNonempty(v, radix, upper); }
      bufc := ZeroDigit(buf, bufc, bufc == 0 && c.precision != 0);
    }

    /** The digits of an octal value, with a 0 in front in the alternative form. */
    method OctalDigits(c: Conv, v: nat) returns (buf: array<char>, bufc: nat)
      requires ConvOk(c) && v < WORD
      ensures fresh(buf) && bufc <= buf.Length && Backwards(buf[..bufc]) == LeadO(c, v) + Digits(v, 8, false)
    {
      buf, bufc := ReverseDigits(v, 8, false);
      if v > 0 { DigitsNonempty(v, 8, false); }
      bufc := ZeroDigit(buf, bufc, (bufc == 0 && c.precision != 0) || c.alt);
    }

    /** Print one converted argument. */
    method PrintArg(ch: char, c: Conv, args: seq<Arg>) returns (n: int, rest: seq<Arg>)
      requires ConvOk(c) && ch != 'n' && Convert(ch, c, args).Some?
      modifies this`out
      ensures var o := Convert(ch, c, args).value; out == old(out) + o.0 && n == |o.0| && rest == o.1
    {
      rest := args;
      match ch {
        case 'c' => n := PrintC(c, (args[0].w % 256) as char);
        case 's' => n := PrintS(c, args[0].s);
        case 'd' => n := PrintSigned(c, args[0].w);
        case 'i' => n := PrintSigned(c, args[0].w);
        case 'u' => n := PrintD(c, -1, args[0].w);
        case 'o' => n := PrintO(c, args[0].w);
        case 'x' => n := PrintX(c, args[0].w, false);
        case 'X' => n := PrintX(c, args[0].w, true);
        case 'p' => n := PrintX(c, args[0].w, true);
        case '%' => Putc('%'); return 1, rest;
        case _ => return 0, rest;
      }
      rest := args[1..];
    }

    /** %d of a word: its sign and magnitude. */
    method PrintSigned(c: Conv, w: nat) returns (n: int)
      requires ConvOk(c) && w < WORD
      modifies this`out
      ensures out == old(out) + FormatInt(c, Signed(w)) && n == |FormatInt(c, Signed(w))|
    {
      var absv := if Signed(w) < 0 then Neg(w) else w;
      n := PrintD(c, if Signed(w) < 0 then 1 else 0, absv);
    }

    /** Print one conversion, from its % on, after `written` characters; `text` is
        what it puts and `stored` what it stores. */
    method PrintDirective(f: string, i: nat, args: seq<Arg>, written: int)
        returns (n: int, next: nat, rest: seq<Arg>, ghost text: string, ghost stored: seq<int>)
      requires i < |f| && f[i] == '%' && Printed(f, i, args).Some?
      modifies this
      ensures i < next <= |f| && Prepend(text, Printed(f, next, rest)) == Printed(f, i, args)
      ensures stored + Counts(f, next, rest, written + n) == Counts(f, i, args, written)
      ensures out == old(out) + text && n == |text| && counts == old(counts) + stored
    {
      DirectiveParses(f, i, args, written);
      hide Printed, Counts, ParseConv, Prepend, Convert;
      stored := [];
      var c;
      c, next, rest := GetConv(f, i + 1, args);
      if next == |f| {
        n, text := 0, "";
        PrependNothing(Printed(f, next, rest));
        AtEnd(f, written, rest);
        return;
      }
      text := Convert(f[next], c, rest).value.0;
      if f[next] == 'n' {
        StoreOne(f[next], c, rest);
        counts, stored := counts + [written], [written];
        n, rest := 0, rest[1..];
      } else {
        n, rest := PrintArg(f[next], c, rest);
      }
      next := next + 1;
    }

    /** Print a format string; the result counts the characters put. */
    method Vprintf(f: string, args: seq<Arg>) returns (written: int)
      requires Printed(f, 0, args).Some?
      modifies this
      ensures var text := Printed(f, 0, args).value; out == old(out) + text && written == |text|
      ensures counts == old(counts) + Counts(f, 0, args, 0)
    {
      written := 0;
      var i, rest := 0, args;
      ghost var done, stored := "", [];
      BeginText(f, args);
      hide Continues, Printed, Counts, Prepend;
      while i < |f|
        invariant 0 <= i <= |f| && Continues(f, args, i, rest, done, stored)
        invariant out == old(out) + done && written == |done| && counts == old(counts) + stored
      {
        ghost var text, more := "", [];
        ghost var i0, rest0 := i, rest;
        ContinuesSome(f, args, i, rest, done, stored);
        if f[i] != '%' {
          Verbatim(f, i, rest, written);
          Putc(f[i]);
          text := [f[i]];
          written, i := written + 1, i + 1;
        } else {
          var n;
          n, i, rest, text, more := PrintDirective(f, i, rest, written);
          written := written + n;
        }
        ContinueText(f, args, i0, rest0, done, stored, i, rest, text, more);
        done, stored := done + text, stored + more;
      }
      EndText(f, args, rest, done, stored);
    }

    /** One more 0 in the buffer, where wanted; it will be printed first. */
    method ZeroDigit(buf: array<char>, bufc: nat, wanted: bool) returns (n: nat)
      requires bufc < buf.Length
      modifies buf
      ensures n == bufc + if wanted then 1 else 0
      ensures Backwards(buf[..n]) == (if wanted then "0" else "") + Backwards(old(buf[..bufc]))
    {
      n := bufc;
      if wanted {
        buf[n] := '0';
        n := n + 1;
        assert buf[..n] == old(buf[..bufc]) + ['0'];
        BackwardsAppend(old(buf[..bufc]), '0');
      }
    }
  }

  /** What a conversion means for the rest of its format. */
  lemma DirectiveParses(f: string, i: nat, args: seq<Arg>, written: int)
    requires i < |f| && f[i] == '%' && Printed(f, i, args).Some?
    ensures ParseConv(f, i + 1, args).Some?
    ensures var p := ParseConv(f, i + 1, args).value;
      if p.next == |f| then Printed(f, i, args) == Some("") && Counts(f, i, args, written) == [] else
        && Convert(f[p.next], p.conv, p.args).Some?
        && var o := Convert(f[p.next], p.conv, p.args).value;
        && Printed(f, i, args) == Prepend(o.0, Printed(f, p.next + 1, o.1))
        && Counts(f, i, args, written) ==
            (if f[p.next] == 'n' then [written] else []) + Counts(f, p.next + 1, o.1, written + |o.0|)
  {
  }

  lemma AtEnd(f: string, written: int, args: seq<Arg>)
    ensures Printed(f, |f|, args) == Some("") && Counts(f, |f|, args, written) == []
  {
  }

  /** %n puts nothing and uses up its argument. */
  lemma StoreOne(ch: char, c: Conv, args: seq<Arg>)
    requires ConvOk(c) && Convert(ch, c, args).Some? && ch == 'n'
    ensures args != [] && Convert(ch, c, args).value == ("", args[1..])
  {
  }

  /** An ordinary character prints itself. */
  lemma Verbatim(f: string, i: nat, args: seq<Arg>, written: int)
    requires i < |f| && f[i] != '%'
    ensures Printed(f, i, args) == Prepend([f[i]], Printed(f, i + 1, args))
    ensures Counts(f, i, args, written) == [] + Counts(f, i + 1, args, written + 1)
  {
  }

  /** With `done` put and `stored` stored, the rest of the format completes the whole. */
  predicate Continues(f: string, args: seq<Arg>, i: nat, rest: seq<Arg>, done: string, stored: seq<int>)
    requires i <= |f|
  {
    && Prepend(done, Printed(f, i, rest)) == Printed(f, 0, args)
    && stored + Counts(f, i, rest, |done|) == Counts(f, 0, args, 0)
  }

  lemma BeginText(f: string, args: seq<Arg>)
    ensures Continues(f, args, 0, args, "", [])
  {
    PrependNothing(Printed(f, 0, args));
  }

  lemma ContinuesSome(f: string, args: seq<Arg>, i: nat, rest: seq<Arg>, done: string, stored: seq<int>)
    requires i <= |f| && Continues(f, args, i, rest, done, stored) && Printed(f, 0, args).Some?
    ensures Printed(f, i, rest).Some?
  {
  }

  lemma ContinueText(f: string, args: seq<Arg>, i: nat, rest: seq<Arg>, done: string, stored: seq<int>,
                     j: nat, rest': seq<Arg>, text: string, more: seq<int>)
    requires i <= |f| && j <= |f| && Continues(f, args, i, rest, done, stored)
    requires Printed(f, i, rest) == Prepend(text, Printed(f, j, rest'))
    requires Counts(f, i, rest, |done|) == more + Counts(f, j, rest', |done| + |text|)
    ensures Continues(f, args, j, rest', done + text, stored + more)
  {
    hide Printed, Counts;
    PrependTwice(done, text, Printed(f, j, rest'));
  }

  lemma EndText(f: string, args: seq<Arg>, rest: seq<Arg>, done: string, stored: seq<int>)
    requires Continues(f, args, |f|, rest, done, stored)
    ensures Printed(f, 0, args) == Some(done) && Counts(f, 0, args, 0) == stored
  {
    assert Prepend(done, Some("")) == Some(done + "") && done + "" == done && stored + [] == stored;
  }

  /** Collect flag characters. */
  method GetFlags(f: string, start: nat) returns (c: Conv, i: nat)
    requires start <= |f|
    ensures (c, i) == ParseFlags(f, start, PLAIN)
  {
    c, i := PLAIN, start;
    while i < |f| && IsFlag(f[i])
      invariant start <= i <= |f|
      invariant ParseFlags(f, start, PLAIN) == ParseFlags(f, i, c)
    {
      c := SetFlag(c, f[i]);
      i := i + 1;
    }
  }

  /** Read a decimal number. */
  method GetInteger(f: string, start: nat) returns (n: nat, i: nat)
    requires start <= |f|
    ensures (n, i) == ParseNumber(f, start, 0)
  {
    n, i := 0, start;
    while i < |f| && IsDigit(f[i])
      invariant start <= i <= |f|
      invariant ParseNumber(f, start, 0) == ParseNumber(f, i, n)
    {
      n := n * 10 + DigitValue(f[i]);
      i := i + 1;
    }
  }

  /** Parse the field width. */
  method GetWidth(f: string, start: nat, args: seq<Arg>, c0: Conv) returns (c: Conv, i: nat, rest: seq<Arg>)
    requires start <= |f| && ParseWidth(f, start, args, c0).Some?
    ensures Some(Parsed(c, i, rest)) == ParseWidth(f, start, args, c0)
  {
    if start < |f| && f[start] == '*' {
      var w := Signed(args[0].w);
      c := if w < 0 then c0.(width := -w, left := true) else c0.(width := w);
      i, rest := start + 1, args[1..];
    } else {
      var n;
      n, i := GetInteger(f, start);
      c, rest := c0.(width := n), args;
    }
  }

  /** Parse the precision. */
  method GetPrecision(f: string, start: nat, args: seq<Arg>, c0: Conv) returns (c: Conv, i: nat, rest: seq<Arg>)
    requires start <= |f| && ConvOk(c0) && ParsePrecision(f, start, args, c0).Some?
    ensures Some(Parsed(c, i, rest)) == ParsePrecision(f, start, args, c0)
  {
    var n: nat;
    i, rest := start, args;
    if i >= |f| || f[i] != '.' {
      c := c0.(precision := -1);
    } else if i + 1 < |f| && f[i + 1] == '-' {
      n, i := GetInteger(f, i + 2);
      c := c0.(precision := -1);
    } else if i + 1 < |f| && f[i + 1] == '*' {
      var p := Signed(rest[0].w);
      i, rest := i + 2, rest[1..];
      c := c0.(precision := if p < 0 then -1 else p);
    } else {
      n, i := GetInteger(f, i + 1);
      c := c0.(precision := n);
    }
  }

  /** Parse a conversion specification up to its conversion character. */
  method GetConv(f: string, start: nat, args: seq<Arg>) returns (c: Conv, i: nat, rest: seq<Arg>)
    requires start <= |f| && ParseConv(f, start, args).Some?
    ensures Some(Parsed(c, i, rest)) == ParseConv(f, start, args)
  {
    c, i := GetFlags(f, start);
    c, i, rest := GetWidth(f, i, args, c);
    c, i, rest := GetPrecision(f, i, rest, c);
  }

  function Backwards(s: string): (r: string)
    ensures |r| == |s|
  {
    if s == [] then [] else [s[|s| - 1]] + Backwards(s[..|s| - 1])
  }

  lemma BackwardsAppend(s: string, c: char)
    ensures Backwards(s + [c]) == [c] + Backwards(s)
  {
    assert (s + [c])[..|s|] == s;
  }

  /** Taking the last digit off a number and appending it to the reversed digits. */
  lemma MoveDigit(rest: nat, radix: nat, upper: bool, done: string)
    requires rest > 0 && IsRadix(radix)
    ensures var c := DigitChar(Rem(rest, radix), upper); var less := Digits(Quot(rest, radix), radix, upper);
      && |less| + 1 == |Digits(rest, radix, upper)|
      && Digits(rest, radix, upper) + Backwards(done) == less + Backwards(done + [c])
  {
    var c, less := DigitChar(Rem(rest, radix), upper), Digits(Quot(rest, radix), radix, upper);
    BackwardsAppend(done, c);
    SwapEnds(less, c, Backwards(done));
  }

  lemma SwapEnds(a: string, c: char, b: string)
    ensures (a + [c]) + b == a + ([c] + b)
  {
  }

  lemma WordFitsDigits(v: nat, radix: nat, upper: bool)
    requires v < WORD && IsRadix(radix)
    ensures |Digits(v, radix, upper)| <= 11
  {
    var k := 11;
    Pow2Word();
    assert Pow2(3 * k) == 2 * Pow2(32);
    DigitsShort(v, radix, upper, k);
  }

  /** sprintf: print into a buffer and end it with a NUL. */
  method Sprintf(buffer: array<char>, f: string, args: seq<Arg>) returns (n: int, stored: seq<int>)
    requires Printed(f, 0, args).Some? && |Printed(f, 0, args).value| < buffer.Length
    modifies buffer
    ensures n == |Printed(f, 0, args).value| && stored == Counts(f, 0, args, 0)
    ensures buffer[..] == Printed(f, 0, args).value + [NUL] + old(buffer[n + 1..])
  {
    hide Printed, Counts;
    var p := new Printer();
    n := p.Vprintf(f, args);
    stored := p.counts;
    StoreString(buffer, p.out);
  }

  /** Characters and a closing NUL, one after the other. */
  method StoreString(buffer: array<char>, text: string)
    requires |text| < buffer.Length
    modifies buffer
    ensures buffer[..] == text + [NUL] + old(buffer[|text| + 1..])
  {
    for i := 0 to |text|
      invariant forall j :: 0 <= j < buffer.Length ==> buffer[j] == if j < i then text[j] else old(buffer[j])
    {
      buffer[i] := text[i];
    }
    buffer[|text|] := NUL;
  }

  /** A printed text without NULs is what the buffer holds as a C string. */
  lemma StoredText(buf: seq<char>, text: string)
    requires |text| < |buf| && text + [NUL] <= buf && NUL !in text
    ensures Text(buf) == text
  {
    assert (text + [NUL])[|text|] == NUL && text <= text + [NUL];
    TextUnique(buf, text);
  }
}
