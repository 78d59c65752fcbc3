/** Unsigned 32-bit words and the bit tricks of the kernel: `x & (m - 1)` as a
    mask, `x & -x` as the lowest set bit. Words are naturals below WORD. */
module Bits {
  const WORD: nat := 0x1_0000_0000

  type byte = x: int | 0 <= x < 256

  function Pow2(k: nat): (r: nat)
    ensures r >= 1
  {
    if k == 0 then 1 else 2 * Pow2(k - 1)
  }

  /** Bitwise and, bit by bit from the least significant end. */
  function BitAnd(a: nat, b: nat): (r: nat)
    ensures r <= a && r <= b
  {
    if a == 0 || b == 0 then 0 else (if a % 2 == 1 && b % 2 == 1 then 1 else 0) + 2 * BitAnd(a / 2, b / 2)
  }

  /** Bitwise or. */
  function BitOr(a: nat, b: nat): nat
    decreases a + b
  {
    if a == 0 && b == 0 then 0 else (if a % 2 == 1 || b % 2 == 1 then 1 else 0) + 2 * BitOr(a / 2, b / 2)
  }

  /** Shifts by k bits; the left shift does not lose bits. */
  function Shl(x: nat, k: nat): nat {
    if k == 0 then x else 2 * Shl(x, k - 1)
  }

  function Shr(x: nat, k: nat): nat {
    if k == 0 then x else Shr(x, k - 1) / 2
  }

  /** Two's complement negation of a 32-bit word. */
  function Neg(x: nat): (r: nat)
    requires x < WORD
    ensures r == if x == 0 then 0 else WORD - x
  {
    (WORD - x) % WORD
  }

  /** A number cut to 32 bits. */
  function Wrap(x: nat): (r: nat)
    ensures r < WORD && (x < WORD ==> r == x)
  {
    x % 0x1_0000_0000
  }

  lemma WrapShift(x: nat, d: nat)
    ensures Wrap(x * 10 + d) == Wrap(Wrap(x) * 10 + d)
  {
    var q := x / 0x1_0000_0000;
    assert x == q * 0x1_0000_0000 + Wrap(x);
  }

  /** Unsigned 32-bit addition. */
  function AddWord(a: nat, b: nat): (r: nat)
    requires a < WORD && b < WORD
    ensures r == if a + b < WORD then a + b else a + b - WORD
  {
    (a + b) % WORD
  }

  /** Number of trailing zero bits. */
  function Tz(x: nat): nat
    requires x > 0
  {
    if x % 2 == 1 then 0 else 1 + Tz(x / 2)
  }

  /** Least multiple of m at or above a. */
  function Ceil(a: nat, m: nat): nat
    requires m > 0
  {
    if a == 0 then 0 else if a <= m then m else m + Ceil(a - m, m)
  }

  /** Remainder, by repeated subtraction: it keeps the proofs below linear. */
  function Mod(x: nat, m: nat): (r: nat)
    requires m > 0
    ensures r < m && r <= x
  {
    if x < m then x else Mod(x - m, m)
  }

  lemma {:induction false} ModIsRemainder(x: nat, m: nat)
    requires m > 0
    ensures Mod(x, m) == x % m
  {
    if x >= m {
      ModIsRemainder(x - m, m);
      var q, r := (x - m) / m, (x - m) % m;
      assert (q + 1) * m == q * m + m;
      DivUnique(x, m, q + 1, r);
    } else {
      DivUnique(x, m, 0, x);
    }
  }

  /** Euclidean division determines quotient and remainder. */
  lemma DivUnique(x: int, d: int, q: int, r: int)
    requires d > 0 && x == q * d + r && 0 <= r < d
    ensures x / d == q && x % d == r
  {
    var q', r' := x / d, x % d;
    assert x == q' * d + r';
    assert (q + 1) * d == q * d + d && (q' + 1) * d == q' * d + d;
    if q < q' {
      MulMonotone(q + 1, q', d);
    } else if q > q' {
      MulMonotone(q' + 1, q, d);
    }
  }

  lemma MulMonotone(a: int, b: int, d: nat)
    requires a <= b
    ensures a * d <= b * d
  {
    assert b * d - a * d == (b - a) * d;
  }

  lemma {:induction false} Pow2Monotone(j: nat, k: nat)
    requires j <= k
    ensures Pow2(j) <= Pow2(k)
    ensures j < k ==> 2 * Pow2(j) <= Pow2(k)
  {
    if j < k { Pow2Monotone(j, k - 1); }
  }

  lemma {:induction false} Pow2Add(j: nat, k: nat)
    ensures Pow2(j + k) == Pow2(j) * Pow2(k)
  {
    if k > 0 {
      Pow2Add(j, k - 1);
      assert Pow2(j + k) == 2 * Pow2(j + (k - 1));
    }
  }

  lemma Pow2Word()
    ensures Pow2(32) == WORD && Pow2(31) == 0x8000_0000 && Pow2(22) == 0x40_0000 && Pow2(9) == 512
  {
    assert Pow2(8) == 256;
    Pow2Add(1, 8);
    Pow2Add(8, 8);
    Pow2Add(16, 16);
    Pow2Add(15, 16);
    assert Pow2(15) == Pow2(7 + 8) by { Pow2Add(7, 8); }
    Pow2Add(6, 16);
    Pow2Add(7, 8);
  }

  lemma WordWidth() returns (w: nat)
    ensures w == 32 && Pow2(w) == WORD
  {
    Pow2Word();
    w := 32;
  }

  lemma {:induction false} ModShift(b: nat, x: nat, d: nat)
    requires d > 0 && Mod(b, d) == 0 && x < d
    ensures Mod(b + x, d) == x
  {
    if b >= d { ModShift(b - d, x, d); }
  }

  lemma {:induction false} SumOfMultiples(x: nat, y: nat, d: nat)
    requires d > 0 && Mod(x, d) == 0 && Mod(y, d) == 0
    ensures Mod(x + y, d) == 0
  {
    if y >= d { SumOfMultiples(x, y - d, d); }
  }

  /** Two multiples of d that differ, differ by at least d. */
  lemma {:induction false} MultiplesGap(x: nat, y: nat, d: nat)
    requires d > 0 && Mod(x, d) == 0 && Mod(y, d) == 0 && x < y
    ensures x + d <= y
  {
    if x >= d { MultiplesGap(x - d, y - d, d); }
  }

  lemma {:induction false} MultipleOfMultiple(x: nat, m: nat, d: nat)
    requires d > 0 && m > 0 && Mod(x, m) == 0 && Mod(m, d) == 0
    ensures Mod(x, d) == 0
  {
    if x >= m {
      MultipleOfMultiple(x - m, m, d);
      SumOfMultiples(x - m, m, d);
    }
  }

  lemma {:induction false} Pow2Divides(j: nat, k: nat)
    requires j <= k
    ensures Mod(Pow2(k), Pow2(j)) == 0
  {
    if j < k {
      Pow2Divides(j, k - 1);
      SumOfMultiples(Pow2(k - 1), Pow2(k - 1), Pow2(j));
    }
  }

  lemma {:induction false} FloorIsMultiple(x: nat, m: nat)
    requires m > 0
    ensures Mod(x - Mod(x, m), m) == 0
  {
    if x >= m {
      FloorIsMultiple(x - m, m);
      SumOfMultiples(x - m - Mod(x - m, m), m, m);
    }
  }

  /** x less its remainder is the greatest multiple of m at or below x. */
  lemma FloorIsGreatest(x: nat, m: nat)
    requires m > 0
    ensures Mod(x - Mod(x, m), m) == 0
    ensures forall n: nat :: Mod(n, m) == 0 && n <= x ==> n <= x - Mod(x, m)
  {
    FloorIsMultiple(x, m);
    forall n: nat | Mod(n, m) == 0 && n <= x ensures n <= x - Mod(x, m) {
      if n > x - Mod(x, m) { MultiplesGap(x - Mod(x, m), n, m); }
    }
  }

  /** Ceil is the least multiple: multiple, at or above, and below any other. */
  lemma CeilIsLeast(a: nat, m: nat)
    requires m > 0
    ensures Mod(Ceil(a, m), m) == 0 && a <= Ceil(a, m) < a + m
    ensures forall n: nat :: Mod(n, m) == 0 && a <= n ==> Ceil(a, m) <= n
  {
    CeilIsMultiple(a, m);
    forall n: nat | Mod(n, m) == 0 && a <= n ensures Ceil(a, m) <= n {
      if n < Ceil(a, m) { MultiplesGap(n, Ceil(a, m), m); }
    }
  }

  lemma {:induction false} CeilIsMultiple(a: nat, m: nat)
    requires m > 0
    ensures Mod(Ceil(a, m), m) == 0 && a <= Ceil(a, m) < a + m
  {
    if a > m { CeilIsMultiple(a - m, m); }
  }

  lemma {:induction false} DoubleMod(h: nat, b: nat, m: nat)
    requires m > 0 && b < 2
    ensures Mod(2 * h + b, 2 * m) == 2 * Mod(h, m) + b
  {
    if h >= m { DoubleMod(h - m, b, m); }
  }

  lemma MaskStep(x: nat, m: nat)
    requires m > 0
    ensures BitAnd(x, 2 * m - 1) == x % 2 + 2 * BitAnd(x / 2, m - 1)
  {
    assert (2 * m - 1) / 2 == m - 1 && (2 * m - 1) % 2 == 1;
  }

  lemma MaskNothing(x: nat)
    ensures BitAnd(x, 0) == 0 == Mod(x, 1)
  {
  }

  /** A mask of k low bits takes the remainder modulo 2^k. */
  lemma {:induction false} MaskIsMod(x: nat, k: nat)
    ensures BitAnd(x, Pow2(k) - 1) == Mod(x, Pow2(k))
  {
    MaskNothing(x);
    hide BitAnd, Mod;
    if k > 0 {
      MaskIsMod(x / 2, k - 1);
      MaskStep(x, Pow2(k - 1));
      DoubleMod(x / 2, x % 2, Pow2(k - 1));
    }
  }

  lemma {:induction false} OrZero(x: nat)
    ensures BitOr(x, 0) == x && BitOr(0, x) == x
  {
    if x > 0 { OrZero(x / 2); }
  }

  lemma {:induction false} ShrStep(x: nat, k: nat)
    ensures Shr(x, k + 1) == Shr(x / 2, k)
  {
    if k > 0 { ShrStep(x, k - 1); }
  }

  /** Appending the low bit back to a number and a field halved. */
  lemma OrStep(x: nat, b: nat)
    ensures BitOr(2 * x, b) == 2 * BitOr(x, b / 2) + b % 2
  {
    assert 2 * x / 2 == x && 2 * x % 2 == 0;
  }

  /** Or-ing a field of k bits below a shifted number appends it. */
  lemma {:induction false} OrAppends(x: nat, k: nat, b: nat)
    requires b < Pow2(k)
    ensures BitOr(Shl(x, k), b) == Shl(x, k) + b
  {
    if k == 0 {
      OrZero(x);
    } else {
      OrAppends(x, k - 1, b / 2);
      OrStep(Shl(x, k - 1), b);
    }
  }

  lemma HalveAppended(x: nat, k: nat, b: nat)
    requires k > 0
    ensures (Shl(x, k) + b) / 2 == Shl(x, k - 1) + b / 2
    ensures (Shl(x, k) + b) % 2 == b % 2
  {
    var h := Shl(x, k - 1);
    assert (2 * h + b) / 2 == h + b / 2;
  }

  /** The shift back drops the field. */
  lemma {:induction false} ShiftBack(x: nat, k: nat, b: nat)
    requires b < Pow2(k)
    ensures Shr(Shl(x, k) + b, k) == x
  {
    if k > 0 {
      ShiftBack(x, k - 1, b / 2);
      HalveAppended(x, k, b);
      ShrStep(Shl(x, k) + b, k - 1);
    }
  }

  /** The mask keeps nothing else. */
  lemma {:induction false} MaskBack(x: nat, k: nat, b: nat)
    requires b < Pow2(k)
    ensures BitAnd(Shl(x, k) + b, Pow2(k) - 1) == b
  {
    MaskNothing(x);
    hide BitAnd;
    if k > 0 {
      MaskBack(x, k - 1, b / 2);
      HalveAppended(x, k, b);
      MaskStep(Shl(x, k) + b, Pow2(k - 1));
    }
  }

  /** Shifting spreads numbers out by 2^k, so appended fields cannot overturn their order. */
  lemma {:induction false} AppendOrder(x: nat, y: nat, k: nat)
    requires x < y
    ensures Shl(x, k) + Pow2(k) <= Shl(y, k)
  {
    if k > 0 { AppendOrder(x, y, k - 1); }
  }

  /** A number and its complement share no bit. */
  lemma {:induction false} AndComplement(y: nat, k: nat)
    requires y < Pow2(k)
    ensures BitAnd(y, Pow2(k) - 1 - y) == 0
  {
    if k > 0 {
      AndComplement(y / 2, k - 1);
      assert (Pow2(k) - 1 - y) / 2 == Pow2(k - 1) - 1 - y / 2;
    }
  }

  lemma {:induction false} LowBitOfWidth(x: nat, k: nat)
    requires 0 < x < Pow2(k)
    ensures BitAnd(x, Pow2(k) - x) == Pow2(Tz(x))
  {
    if x % 2 == 1 {
      AndComplement(x / 2, k - 1);
      assert (Pow2(k) - x) / 2 == Pow2(k - 1) - 1 - x / 2;
    } else {
      LowBitOfWidth(x / 2, k - 1);
      assert (Pow2(k) - x) / 2 == Pow2(k - 1) - x / 2;
    }
  }

  /** `x & -x` isolates the lowest set bit. */
  lemma LowBit(x: nat)
    requires 0 < x < WORD
    ensures BitAnd(x, Neg(x)) == Pow2(Tz(x))
  {
    var w := WordWidth();
    LowBitOfWidth(x, w);
  }

  /** 2^k divides x exactly when x has at least k trailing zeros. */
  lemma {:induction false} TzDivides(x: nat, k: nat)
    requires x > 0
    ensures Mod(x, Pow2(k)) == 0 <==> k <= Tz(x)
  {
    if k > 0 {
      DoubleMod(x / 2, x % 2, Pow2(k - 1));
      if x % 2 == 0 { TzDivides(x / 2, k - 1); }
    }
  }

  /** Adding the lowest set bit strictly increases the number of trailing zeros. */
  lemma {:induction false} AddLowBitRaisesTz(x: nat)
    requires x > 0
    ensures Tz(x + Pow2(Tz(x))) > Tz(x)
  {
    if x % 2 == 0 {
      AddLowBitRaisesTz(x / 2);
      assert (x + Pow2(Tz(x))) / 2 == x / 2 + Pow2(Tz(x / 2));
    }
  }

  /** `x & (x - 1)` is zero exactly for the powers of two. */
  lemma {:induction false} PowerTest(x: nat)
    requires x > 0
    ensures BitAnd(x, x - 1) == x - Pow2(Tz(x))
  {
    if x % 2 == 1 {
      AndSelf(x / 2);
    } else {
      PowerTest(x / 2);
      assert (x - 1) / 2 == x / 2 - 1;
    }
  }

  lemma {:induction false} AndSelf(x: nat)
    ensures BitAnd(x, x) == x
  {
    if x > 0 { AndSelf(x / 2); }
  }

  /** One round of `r += r & -r` between x and its multiple of 2^k above stays there. */
  lemma RoundUpStep(x: nat, r: nat, k: nat)
    requires 0 < x < WORD && r < WORD && x <= r <= Ceil(x, Pow2(k))
    requires BitAnd(r, Pow2(k) - 1) != 0
    ensures r < r + BitAnd(r, Neg(r)) <= Ceil(x, Pow2(k))
  {
    CeilIsLeast(x, Pow2(k));
    MaskIsMod(r, k);
    LowBit(r);
    TzDivides(r, k);
    TzDivides(r, Tz(r));
    Pow2Divides(Tz(r), k);
    MultipleOfMultiple(Ceil(x, Pow2(k)), Pow2(k), Pow2(Tz(r)));
    MultiplesGap(r, Ceil(x, Pow2(k)), Pow2(Tz(r)));
  }

  lemma RoundUpDone(x: nat, r: nat, k: nat)
    requires x <= r <= Ceil(x, Pow2(k))
    requires BitAnd(r, Pow2(k) - 1) == 0
    ensures r == Ceil(x, Pow2(k))
  {
    CeilIsLeast(x, Pow2(k));
    MaskIsMod(r, k);
  }

  lemma CeilWithinWord(x: nat, k: nat)
    requires x < WORD && k <= 32
    ensures Ceil(x, Pow2(k)) <= WORD
    ensures x == 0 ==> Ceil(x, Pow2(k)) == 0
  {
    var w := WordWidth();
    Pow2Divides(k, w);
    CeilIsLeast(x, Pow2(k));
  }

  /** Round up by repeatedly adding the lowest set bit until the low k bits are
      clear. The word wraps: past the top multiple the result is zero. */
  method RoundUp(x: nat, k: nat) returns (r: nat)
    requires x < WORD && k <= 32
    ensures r == if Ceil(x, Pow2(k)) == WORD then 0 else Ceil(x, Pow2(k))
  {
    ghost var n := Ceil(x, Pow2(k));
    CeilWithinWord(x, k);
    if x > 0 { CeilIsLeast(x, Pow2(k)); }
    r := x;
    while BitAnd(r, Pow2(k) - 1) != 0
      invariant r < WORD
      invariant if r == 0 then n == 0 || n == WORD else 0 < x <= r <= n
      decreases if r == 0 then 0 else n - r + 1
    {
      RoundUpStep(x, r, k);
      r := AddWord(r, BitAnd(r, Neg(r)));
    }
    if r != 0 { RoundUpDone(x, r, k); }
  }

  /** Round down by repeatedly subtracting the lowest set bit. */
  method RoundDown(x: nat, k: nat) returns (r: nat)
    requires x < WORD
    ensures r == x - Mod(x, Pow2(k))
  {
    ghost var m := Pow2(k);
    r := x;
    FloorIsMultiple(x, m);
    while BitAnd(r, Pow2(k) - 1) != 0
      invariant x - Mod(x, m) <= r <= x
      decreases r
    {
      MaskIsMod(r, k);
      LowBit(r);
      SubLowBitStep(r, x - Mod(x, m), k);
      r := r - BitAnd(r, Neg(r));
    }
    MaskIsMod(r, k);
    if r > x - Mod(x, m) { MultiplesGap(x - Mod(x, m), r, m); }
  }

  lemma SubLowBitStep(x: nat, n: nat, k: nat)
    requires 0 < x && n <= x && Mod(x, Pow2(k)) != 0 && Mod(n, Pow2(k)) == 0
    ensures n <= x - Pow2(Tz(x))
  {
    TzDivides(x, k);
    TzDivides(x, Tz(x));
    Pow2Divides(Tz(x), k);
    MultipleOfMultiple(n, Pow2(k), Pow2(Tz(x)));
    MultiplesGap(n, x, Pow2(Tz(x)));
  }

  /** p is the least power of two at or above x. */
  ghost predicate LeastPowerAbove(p: nat, x: nat) {
    exists k: nat :: p == Pow2(k) && x <= p && forall j: nat :: x <= Pow2(j) ==> p <= Pow2(j)
  }

  /** Exponent of the least power of two at or above x. */
  function CeilLog(x: nat): (k: nat)
    requires x > 0
    ensures x <= Pow2(k) && (k > 0 ==> Pow2(k - 1) < x)
  {
    if x == 1 then 0 else 1 + CeilLog((x + 1) / 2)
  }

  lemma CeilLogIsLeast(x: nat)
    requires x > 0
    ensures LeastPowerAbove(Pow2(CeilLog(x)), x)
  {
    var k := CeilLog(x);
    forall j: nat | x <= Pow2(j) ensures Pow2(k) <= Pow2(j) {
      if j < k { Pow2Monotone(j, k - 1); } else { Pow2Monotone(k, j); }
    }
  }

  /** Below the least power of two 2^k above it, a non-power plus its lowest bit stays at or below 2^k. */
  lemma PowerStep(x: nat, k: nat)
    requires 0 < x <= Pow2(k) && BitAnd(x, x - 1) != 0
    ensures x + Pow2(Tz(x)) <= Pow2(k)
  {
    PowerTest(x);
    TzDivides(x, Tz(x));
    var d := Pow2(Tz(x));
    if x == Pow2(k) {
      TzOfPow2(k);
    }
    MultiplesGap(0, x, d);
    if Tz(x) > k { Pow2Monotone(k, Tz(x)); }
    Pow2Divides(Tz(x), k);
    MultiplesGap(x, Pow2(k), d);
  }

  lemma {:induction false} TzOfPow2(k: nat)
    ensures Tz(Pow2(k)) == k
  {
    if k > 0 { TzOfPow2(k - 1); }
  }

  lemma PowerDone(x: nat, r: nat)
    requires 0 < x <= r <= Pow2(CeilLog(x)) && BitAnd(r, r - 1) == 0
    ensures r == Pow2(CeilLog(x))
  {
    PowerTest(r);
    CeilLogIsLeast(x);
    assert x <= Pow2(Tz(r));
  }

  /** The least power of two stays within a word exactly up to 2^31. */
  lemma PowerWithinWord(x: nat)
    requires 0 < x < WORD
    ensures if x <= 0x8000_0000 then Pow2(CeilLog(x)) <= 0x8000_0000 else Pow2(CeilLog(x)) == WORD
  {
    var w := WordWidth();
    Pow2Word();
    CeilLogIsLeast(x);
    assert x <= Pow2(w);
    if x <= 0x8000_0000 {
      assert x <= Pow2(w - 1);
    } else {
      if CeilLog(x) < w { Pow2Monotone(CeilLog(x), w - 1); }
      Pow2Monotone(w, CeilLog(x));
    }
  }

  /** The size loop of the allocator: `size += size & -size` until size is a
      power of two. Above 2^31 the sum wraps and the loop stops at zero. */
  method RoundToPower(x: nat) returns (r: nat)
    requires 0 < x < WORD
    ensures r == if x <= 0x8000_0000 then Pow2(CeilLog(x)) else 0
  {
    ghost var p := Pow2(CeilLog(x));
    PowerWithinWord(x);
    r := x;
    while r != 0 && BitAnd(r, r - 1) != 0
      invariant r < WORD
      invariant if r == 0 then p == WORD else x <= r <= p
      decreases if r == 0 then 0 else p - r + 1
    {
      LowBit(r);
      PowerStep(r, CeilLog(x));
      r := AddWord(r, BitAnd(r, Neg(r)));
    }
    if r != 0 { PowerDone(x, r); }
  }
}
