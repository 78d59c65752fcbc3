/** Numerals and the library's atoi. Strings are sequences without their final NUL. */
module Numerals {
  import opened Bits

  predicate IsDigit(c: char) {
    '0' <= c <= '9'
  }

  predicate IsSpace(c: char) {
    c == ' ' || 9 <= c as int < 14
  }

  function Repeat(c: char, n: int): (s: string)
    ensures |s| == if n < 0 then 0 else n
    decreases if n < 0 then 0 else n
  {
    if n <= 0 then [] else [c] + Repeat(c, n - 1)
  }

  lemma {:induction false} RepeatMore(c: char, n: nat)
    ensures Repeat(c, n) + [c] == Repeat(c, n + 1)
  {
    if n > 0 {
      RepeatMore(c, n - 1);
      assert Repeat(c, n) + [c] == [c] + (Repeat(c, n - 1) + [c]);
    }
  }

  function DigitChar(d: nat, upper: bool): char
    requires d < 16
  {
    if d < 10 then '0' + d as char else (if upper then 'A' else 'a') + (d - 10) as char
  }

  function DigitValue(c: char): nat {
    if '0' <= c <= '9' then c as int - '0' as int
    else if 'A' <= c <= 'F' then c as int - 'A' as int + 10
    else if 'a' <= c <= 'f' then c as int - 'a' as int + 10
    else 0
  }

  /** The radixes of the formatter. */
  predicate IsRadix(radix: nat) {
    radix == 8 || radix == 10 || radix == 16
  }

  /** Quotient and remainder by a radix. */
  function Quot(v: nat, radix: nat): (q: nat)
    requires IsRadix(radix)
    ensures v > 0 ==> q < v
    ensures q <= v / 8
  {
    if radix == 8 then v / 8 else if radix == 10 then v / 10 else v / 16
  }

  function Rem(v: nat, radix: nat): (r: nat)
    requires IsRadix(radix)
    ensures r < radix
  {
    if radix == 8 then v % 8 else if radix == 10 then v % 10 else v % 16
  }

  /** Digits of v, most significant first; none for zero. */
  function Digits(v: nat, radix: nat, upper: bool): string
    requires IsRadix(radix)
    decreases v
  {
    if v == 0 then [] else Digits(Quot(v, radix), radix, upper) + [DigitChar(Rem(v, radix), upper)]
  }

  /** The number a digit string denotes. */
  function Denotes(s: string, radix: nat): nat {
    if s == [] then 0 else Denotes(s[..|s| - 1], radix) * radix + DigitValue(s[|s| - 1])
  }

  lemma DenotesAppend(s: string, c: char, radix: nat)
    ensures Denotes(s + [c], radix) == Denotes(s, radix) * radix + DigitValue(c)
  {
    assert (s + [c])[..|s|] == s;
  }

  lemma DigitCharValue(d: nat, upper: bool)
    requires d < 16
    ensures DigitValue(DigitChar(d, upper)) == d
    ensures d < 10 ==> IsDigit(DigitChar(d, upper))
  {
  }

  /** The digits denote the number they were made from. */
  lemma {:induction false} DigitsDenote(v: nat, radix: nat, upper: bool)
    requires IsRadix(radix)
    ensures Denotes(Digits(v, radix, upper), radix) == v
    decreases v
  {
    if v > 0 {
      DigitsDenote(Quot(v, radix), radix, upper);
      DenotesAppend(Digits(Quot(v, radix), radix, upper), DigitChar(Rem(v, radix), upper), radix);
      DigitCharValue(Rem(v, radix), upper);
      Recombine(Denotes(Digits(Quot(v, radix), radix, upper), radix), v, radix);
    }
  }

  lemma Recombine(q: nat, v: nat, radix: nat)
    requires IsRadix(radix) && q == Quot(v, radix)
    ensures q * radix + Rem(v, radix) == v
  {
  }

  /** 32-bit numbers have at most 11 digits in any radix from 8 on. */
  lemma {:induction false} DigitsShort(v: nat, radix: nat, upper: bool, k: nat)
    requires IsRadix(radix) && k <= 11 && v < Pow2(3 * k)
    ensures |Digits(v, radix, upper)| <= k
    decreases v
  {
    if v > 0 {
      if k > 0 {
        assert Pow2(3 * k) == 2 * Pow2(3 * k - 1) && Pow2(3 * k - 1) == 2 * Pow2(3 * k - 2);
        assert Pow2(3 * k - 2) == 2 * Pow2(3 * (k - 1));
        DigitsShort(Quot(v, radix), radix, upper, k - 1);
      }
    }
  }

  /** The decimal numeral of v. */
  function Decimal(v: nat): string {
    if v == 0 then "0" else Digits(v, 10, false)
  }

  /** A text of digits without a leading zero, or "0" itself. */
  predicate Canonical(s: string) {
    s != "" && (forall i :: 0 <= i < |s| ==> IsDigit(s[i])) && (s[0] != '0' || s == "0")
  }

  /** Numerals are canonical and denote what they are made from ... */
  lemma DecimalIsCanonical(v: nat)
    ensures Canonical(Decimal(v)) && Denotes(Decimal(v), 10) == v
  {
    if v > 0 {
      DigitsDenote(v, 10, false);
      DigitsCanonical(v);
    } else {
      assert Denotes("0", 10) == Denotes("", 10) * 10 + 0 by { assert "0"[..0] == ""; }
    }
  }

  lemma {:induction false} DigitsCanonical(v: nat)
    requires v > 0
    ensures var d := Digits(v, 10, false); d != "" && d[0] != '0' && forall i :: 0 <= i < |d| ==> IsDigit(d[i])
    decreases v
  {
    DigitCharValue(Rem(v, 10), false);
    if Quot(v, 10) > 0 { DigitsCanonical(Quot(v, 10)); }
  }

  /** ... and every canonical text is the numeral of what it denotes. */
  lemma CanonicalIsDecimal(s: string)
    requires Canonical(s)
    ensures Decimal(Denotes(s, 10)) == s
  {
    if s == "0" {
      DecimalIsCanonical(0);
    } else {
      CanonicalDigits(s);
    }
  }

  lemma {:induction false} CanonicalDigits(s: string)
    requires (forall i :: 0 <= i < |s| ==> IsDigit(s[i])) && (s != "" ==> s[0] != '0')
    ensures Digits(Denotes(s, 10), 10, false) == s
    decreases |s|
  {
    if s != "" {
      var p, c := s[..|s| - 1], s[|s| - 1];
      CanonicalDigits(p);
      assert s == p + [c];
      DigitsExtend(p, c);
    }
  }

  lemma DigitsExtend(p: string, c: char)
    requires IsDigit(c) && Digits(Denotes(p, 10), 10, false) == p && (p == "" ==> c != '0')
    ensures Digits(Denotes(p + [c], 10), 10, false) == p + [c]
  {
    DenotesAppend(p, c, 10);
    hide Denotes;
    var q, d := Denotes(p, 10), DigitValue(c);
    assert q == 0 ==> p == "";
    SplitLast(q, d);
    assert DigitChar(d, false) == c;
    DigitsStep(q * 10 + d);
  }

  lemma DigitsStep(v: nat)
    requires v > 0
    ensures Digits(v, 10, false) == Digits(Quot(v, 10), 10, false) + [DigitChar(Rem(v, 10), false)]
  {
  }

  lemma SplitLast(q: nat, d: nat)
    requires d < 10
    ensures Quot(q * 10 + d, 10) == q && Rem(q * 10 + d, 10) == d
  {
  }

  /* ---- atoi ---- */

  /** Value of the leading digits, read after the value acc. */
  function LeadingNumber(s: string, acc: nat): nat {
    if s != [] && IsDigit(s[0]) then LeadingNumber(s[1..], acc * 10 + DigitValue(s[0])) else acc
  }

  /** Read a 32-bit word as a signed integer. */
  function Signed(w: nat): int
    requires w < WORD
  {
    if w < 0x8000_0000 then w else w - WORD
  }

  /** An optional sign and digits, modulo 2^32. */
  function SignedNumber(s: string): int {
    if s == [] then 0
    else if s[0] == '-' then Signed(Neg(Wrap(LeadingNumber(s[1..], 0))))
    else if s[0] == '+' then Signed(Wrap(LeadingNumber(s[1..], 0)))
    else Signed(Wrap(LeadingNumber(s, 0)))
  }

  /** What atoi computes: the signed number behind optional white space. */
  function Atoi(s: string): int {
    if s != [] && IsSpace(s[0]) then Atoi(s[1..]) else SignedNumber(s)
  }

  lemma ShiftMod(acc: nat, acc': nat, d: nat)
    requires Wrap(acc) == Wrap(acc')
    ensures Wrap(acc * 10 + d) == Wrap(acc' * 10 + d)
  {
    WrapShift(acc, d);
    WrapShift(acc', d);
  }

  lemma {:induction false} LeadingNumberMod(s: string, acc: nat, acc': nat)
    requires Wrap(acc) == Wrap(acc')
    ensures Wrap(LeadingNumber(s, acc)) == Wrap(LeadingNumber(s, acc'))
  {
    if s != [] && IsDigit(s[0]) {
      ShiftMod(acc, acc', DigitValue(s[0]));
      LeadingNumberMod(s[1..], acc * 10 + DigitValue(s[0]), acc' * 10 + DigitValue(s[0]));
    }
  }

  /** atoi as the library runs it, the accumulator wrapping at 32 bits. */
  method ParseInt(str: string) returns (r: int)
    ensures r == Atoi(str)
  {
    var p := 0;
    while p < |str| && IsSpace(str[p])
      invariant 0 <= p <= |str|
      invariant Atoi(str) == Atoi(str[p..])
    {
      assert str[p..][1..] == str[p + 1..];
      p := p + 1;
    }
    if p == |str| { return 0; }
    assert Atoi(str) == SignedNumber(str[p..]) && (str[p..][1..] == str[p + 1..]);
    var negative := false;
    if str[p] == '+' {
      p := p + 1;
    } else if str[p] == '-' {
      negative := true;
      p := p + 1;
    }
    var ans := ParseDigits(str, p);
    r := Signed(if negative then Neg(ans) else ans);
  }

  /** The digits from position start on, accumulated modulo 2^32. */
  method ParseDigits(str: string, start: nat) returns (ans: nat)
    requires start <= |str|
    ensures ans == Wrap(LeadingNumber(str[start..], 0))
  {
    var p := start;
    ans := 0;
    while p < |str| && IsDigit(str[p])
      invariant start <= p <= |str| && ans < WORD
      invariant Wrap(LeadingNumber(str[start..], 0)) == Wrap(LeadingNumber(str[p..], ans))
    {
      assert str[p..][1..] == str[p + 1..];
      var next := ans * 10 + DigitValue(str[p]);
      LeadingNumberMod(str[p + 1..], next, Wrap(next));
      ans := Wrap(next);
      p := p + 1;
    }
  }

  /* ---- reading numerals back ---- */

  lemma {:induction false} AtoiSpaces(n: nat, s: string)
    ensures Atoi(Repeat(' ', n) + s) == Atoi(s)
  {
    if n > 0 {
      AtoiSpaces(n - 1, s);
      assert (Repeat(' ', n) + s)[1..] == Repeat(' ', n - 1) + s;
    } else {
      assert Repeat(' ', n) + s == s;
    }
  }

  lemma {:induction false} ZerosSkipped(n: nat, s: string)
    ensures LeadingNumber(Repeat('0', n) + s, 0) == LeadingNumber(s, 0)
  {
    if n > 0 {
      ZerosSkipped(n - 1, s);
      assert (Repeat('0', n) + s)[1..] == Repeat('0', n - 1) + s;
    } else {
      assert Repeat('0', n) + s == s;
    }
  }

  lemma ReadOne(c: char, s: string, acc: nat)
    requires IsDigit(c)
    ensures LeadingNumber([c] + s, acc) == LeadingNumber(s, acc * 10 + DigitValue(c))
  {
    assert ([c] + s)[1..] == s;
  }

  lemma {:induction false} DigitsRead(v: nat, s: string)
    ensures LeadingNumber(Digits(v, 10, false) + s, 0) == LeadingNumber(s, v)
    decreases v
  {
    hide LeadingNumber;
    if v == 0 {
      assert Digits(v, 10, false) + s == s;
    } else {
      var q, c := Quot(v, 10), DigitChar(Rem(v, 10), false);
      DigitsRead(q, [c] + s);
      DigitCharValue(Rem(v, 10), false);
      Recombine(q, v, 10);
      ReadOne(c, s, q);
      assert Digits(v, 10, false) + s == Digits(q, 10, false) + ([c] + s);
    }
  }

  lemma AtoiSigned(c: char, num: string)
    requires c == '-' || c == '+'
    ensures var w := Wrap(LeadingNumber(num, 0)); Atoi([c] + num) == Signed(if c == '-' then Neg(w) else w)
  {
    assert ([c] + num)[1..] == num;
  }

  lemma AtoiPlain(num: string)
    requires num != [] && IsDigit(num[0])
    ensures Atoi(num) == Signed(Wrap(LeadingNumber(num, 0)))
  {
  }

  /* ---- what atoi takes ---- */

  lemma {:induction false} DigitsLead(p: string, d: string, tail: string)
    requires (forall i :: 0 <= i < |d| ==> IsDigit(d[i])) && (tail == "" || !IsDigit(tail[0]))
    ensures LeadingNumber(d + tail, Denotes(p, 10)) == Denotes(p + d, 10)
    decreases |d|
  {
    if d == "" {
      assert d + tail == tail && p + d == p;
    } else {
      assert d[..1] == [d[0]] && d + tail == [d[0]] + (d[1..] + tail);
      DenotesAppend(p, d[0], 10);
      ReadOne(d[0], d[1..] + tail, Denotes(p, 10));
      DigitsLead(p + [d[0]], d[1..], tail);
      assert p + [d[0]] + d[1..] == p + d;
    }
  }

  lemma {:induction false} BlanksSkipped(blanks: string, s: string)
    requires forall i :: 0 <= i < |blanks| ==> IsSpace(blanks[i])
    ensures Atoi(blanks + s) == Atoi(s)
  {
    if blanks == "" {
      assert blanks + s == s;
    } else {
      BlanksSkipped(blanks[1..], s);
      assert (blanks + s)[1..] == blanks[1..] + s;
    }
  }

  /** Equal as 32-bit words. */
  predicate SameWord(a: int, b: int) {
    (a - b) % 0x1_0000_0000 == 0
  }

  lemma SignedSame(w: nat, n: int)
    requires w < WORD && SameWord(w, n)
    ensures -0x8000_0000 <= Signed(w) < 0x8000_0000 && SameWord(Signed(w), n)
  {
  }

  lemma WrapSame(n: nat)
    ensures SameWord(Wrap(n), n) && SameWord(Neg(Wrap(n)), -(n as int))
  {
  }

  /** Blanks (space, and the characters 9 to 13), an optional sign, digits, and
      whatever follows that is no digit: atoi is the signed 32-bit number that
      equals the signed decimal number modulo 2^32. Without digits it is 0. */
  lemma AtoiReads(blanks: string, sign: string, digits: string, tail: string)
    requires forall i :: 0 <= i < |blanks| ==> blanks[i] == ' ' || 9 <= blanks[i] as int <= 13
    requires sign == "" || sign == "+" || sign == "-"
    requires forall i :: 0 <= i < |digits| ==> '0' <= digits[i] <= '9'
    requires tail == "" || !('0' <= tail[0] <= '9')
    requires sign + digits == "" && tail != "" ==>
      tail[0] != '+' && tail[0] != '-' && tail[0] != ' ' && !(9 <= tail[0] as int <= 13)
    ensures var r := Atoi(blanks + (sign + digits + tail));
      var n: int := Denotes(digits, 10);
      -0x8000_0000 <= r < 0x8000_0000 && SameWord(r, if sign == "-" then -n else n)
  {
    hide Atoi, LeadingNumber, Denotes, SignedOf, SameWord;
    BlanksSkipped(blanks, sign + digits + tail);
    AtoiBehindBlanks(sign, digits, tail);
    LeadingDigits(digits, tail);
    SignedOutcome(sign, Denotes(digits, 10));
  }

  lemma SignedOutcome(sign: string, n: nat)
    ensures var r := SignedOf(sign, n);
      -0x8000_0000 <= r < 0x8000_0000 && SameWord(r, if sign == "-" then -(n as int) else n)
  {
    WrapSame(n);
    SignedSame(Wrap(n), n);
    SignedSame(Neg(Wrap(n)), -(n as int));
    hide Signed, Wrap, Neg, SameWord;
  }

  /** The signed word of a sign and a number. */
  function SignedOf(sign: string, n: nat): int {
    var w := Wrap(n);
    Signed(if sign == "-" then Neg(w) else w)
  }

  lemma LeadingDigits(digits: string, tail: string)
    requires (forall i :: 0 <= i < |digits| ==> IsDigit(digits[i])) && (tail == "" || !IsDigit(tail[0]))
    ensures LeadingNumber(digits + tail, 0) == Denotes(digits, 10)
  {
    DigitsLead("", digits, tail);
    assert "" + digits == digits;
  }

  lemma AtoiBehindBlanks(sign: string, digits: string, tail: string)
    requires sign == "" || sign == "+" || sign == "-"
    requires forall i :: 0 <= i < |digits| ==> IsDigit(digits[i])
    requires sign + digits == "" && tail != "" ==> tail[0] != '+' && tail[0] != '-' && !IsSpace(tail[0])
    ensures Atoi(sign + digits + tail) == SignedOf(sign, LeadingNumber(digits + tail, 0))
  {
    var num := digits + tail;
    hide LeadingNumber, Wrap, Neg, Signed, Atoi;
    if sign == "" {
      assert sign + digits + tail == num;
      if digits != "" { assert num[0] == digits[0]; }
      AtoiUnsigned(num);
    } else {
      assert sign + digits + tail == [sign[0]] + num;
      AtoiSigned(sign[0], num);
    }
  }

  lemma AtoiUnsigned(num: string)
    requires num != "" ==> !IsSpace(num[0]) && num[0] != '+' && num[0] != '-'
    ensures Atoi(num) == Signed(Wrap(LeadingNumber(num, 0)))
  {
  }
}
