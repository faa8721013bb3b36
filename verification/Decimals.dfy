/** Decimal numerals: their value, how the driver prints them, and powers of ten. */
module Decimals {
  const TWO64 := 0x1_0000_0000_0000_0000
  const MAX_U32 := 0xFFFF_FFFF
  const MAX_U64 := 0xFFFF_FFFF_FFFF_FFFF
  const MAX_I64 := 0x7FFF_FFFF_FFFF_FFFF
  const MIN_I64_MAGNITUDE := 0x8000_0000_0000_0000

  type u32 = x: int | 0 <= x <= MAX_U32

  predicate IsDigit(c: char) {
    '0' <= c <= '9'
  }

  predicate AllDigits(s: string) {
    forall i :: 0 <= i < |s| ==> IsDigit(s[i])
  }

  /** A non-empty run of decimal digits. */
  predicate IsNumeral(s: string) {
    s != "" && AllDigits(s)
  }

  function DigitValue(c: char): (d: nat)
    requires IsDigit(c)
    ensures d <= 9
  {
    c as int - '0' as int
  }

  function DigitChar(d: nat): (c: char)
    requires d <= 9
    ensures IsDigit(c) && DigitValue(c) == d
  {
    (d + '0' as int) as char
  }

  /** The number a digit string denotes; the empty string denotes 0. */
  function Value(s: string): nat
    requires AllDigits(s)
  {
    if s == "" then 0 else 10 * Value(s[..|s| - 1]) + DigitValue(s[|s| - 1])
  }

  function Pow10(n: nat): (p: nat)
    ensures p >= 1
  {
    if n == 0 then 1 else 10 * Pow10(n - 1)
  }

  /** What the C library's unsigned-to-text conversion writes. */
  function Print(n: nat): (s: string)
    ensures IsNumeral(s)
  {
    if n < 10 then [DigitChar(n)] else Print(n / 10) + [DigitChar(n % 10)]
  }

  /** The last `width` decimal digits of `n`, zero padded. */
  function Pad(n: nat, width: nat): (s: string)
    ensures |s| == width && AllDigits(s)
  {
    if width == 0 then "" else Pad(n / 10, width - 1) + [DigitChar(n % 10)]
  }

  lemma {:induction false} PrintDenotes(n: nat)
    ensures Value(Print(n)) == n
  {
    var s := Print(n);
    if n >= 10 {
      PrintDenotes(n / 10);
      assert s[..|s| - 1] == Print(n / 10);
    } else {
      assert s[..|s| - 1] == "";
    }
  }

  lemma {:induction false} PadDenotes(n: nat, width: nat)
    requires n < Pow10(width)
    ensures Value(Pad(n, width)) == n
  {
    if width > 0 {
      var s := Pad(n, width);
      assert n / 10 < Pow10(width - 1);
      hide Pow10;
      PadDenotes(n / 10, width - 1);
      assert s[..|s| - 1] == Pad(n / 10, width - 1);
    }
  }

  lemma {:induction false} ValueBound(s: string)
    requires AllDigits(s)
    ensures Value(s) < Pow10(|s|)
  {
    if s != "" {
      ValueBound(s[..|s| - 1]);
    }
  }

  /** A longer prefix denotes a larger number: a numeral that overflows early overflows for good. */
  lemma {:induction false} ValueMonotone(s: string, k: nat)
    requires AllDigits(s) && k <= |s|
    ensures Value(s[..k]) <= Value(s)
  {
    if k < |s| {
      ValueMonotone(s[..|s| - 1], k);
      assert s[..|s| - 1][..k] == s[..k];
    } else {
      assert s[..k] == s;
    }
  }

  function Times(a: nat, b: nat): nat {
    a * b
  }

  lemma {:induction false} TimesAssociates(a: nat, b: nat, c: nat)
    ensures Times(Times(a, b), c) == Times(a, Times(b, c))
  {
  }

  lemma {:induction false} Pow10Sum(m: nat, n: nat)
    ensures Pow10(m + n) == Times(Pow10(m), Pow10(n))
  {
    if m > 0 {
      Pow10Sum(m - 1, n);
      TimesAssociates(10, Pow10(m - 1), Pow10(n));
    }
  }

  lemma {:induction false} Pow10Monotone(m: nat, n: nat)
    requires m <= n
    ensures Pow10(m) <= Pow10(n)
  {
    if m < n {
      Pow10Monotone(m, n - 1);
    }
  }

  lemma {:induction false} PrintLength(n: nat, width: nat)
    requires 1 <= width && n < Pow10(width)
    ensures |Print(n)| <= width
  {
    if n >= 10 {
      assert width > 1 by {
        assert Pow10(1) == 10;
      }
      PrintLength(n / 10, width - 1);
    }
  }

  // ---- the shift-and-add power of ten -------------------------------------------------------

  function Pow2(n: nat): (p: nat)
    ensures p >= 1
  {
    if n == 0 then 1 else 2 * Pow2(n - 1)
  }

  function Pow5(n: nat): (p: nat)
    ensures p >= 1
  {
    if n == 0 then 1 else 5 * Pow5(n - 1)
  }

  lemma {:induction false} TwosAndFives(n: nat)
    ensures Times(Pow2(n), Pow5(n)) == Pow10(n)
  {
    if n > 0 {
      var p, f, t := Pow2(n - 1), Pow5(n - 1), Pow10(n - 1);
      assert Pow2(n) == 2 * p && Pow5(n) == 5 * f && Pow10(n) == 10 * t;
      hide Pow2, Pow5, Pow10;
      TwosAndFives(n - 1);
      assert (2 * p) * (5 * f) == 10 * (p * f);
    }
  }

  /** Unsigned 64-bit wrap-around. */
  function Wrap64(x: nat): (w: nat)
    ensures w < TWO64
  {
    x % TWO64
  }

  lemma {:induction false} WrapIgnoresMultiples(b: nat, k: nat)
    ensures Wrap64(b + k * TWO64) == Wrap64(b)
  {
  }

  lemma {:induction false} ShiftAndAdd(x: nat)
    ensures Wrap64(Wrap64(x) + Wrap64(Wrap64(x) * 4)) == Wrap64(5 * x)
  {
    var w := Wrap64(x);
    var shifted := Wrap64(w * 4);
    var q, k := w * 4 / TWO64, x / TWO64;
    assert w * 4 == shifted + q * TWO64;
    assert x == w + k * TWO64;
    assert 5 * x == (w + shifted) + (q + 5 * k) * TWO64;
    WrapIgnoresMultiples(w + shifted, q + 5 * k);
  }

  lemma {:induction false} SmallUnwrapped(x: nat)
    requires x < TWO64
    ensures Wrap64(x) == x
  {
  }

  lemma {:induction false} TimesPow5(n: nat, k: nat)
    ensures 5 * Times(Pow2(n), Pow5(k)) == Times(Pow2(n), Pow5(k + 1))
  {
    var p, f := Pow2(n), Pow5(k);
    assert 5 * (p * f) == p * (5 * f);
  }

  lemma {:induction false} NineteenFits(n: nat)
    requires n <= 19
    ensures Pow10(n) < TWO64
  {
    Pow10Monotone(n, 19);
    assert Pow10(2) == 100;
    assert Pow10(4) == 10_000;
    Pow10Sum(4, 4);
    Pow10Sum(8, 8);
    Pow10Sum(16, 3);
    assert Pow10(3) == 1_000;
  }

  /** 10^n in 64-bit arithmetic: one shift, then `n` times `pow += pow << 2`. Shifting a 64-bit
      word by 64 or more is undefined in C. */
  method PowerOfTen(n: nat) returns (pow: nat)
    requires n < 64
    ensures pow == Wrap64(Pow10(n))
    ensures n <= 19 ==> pow == Pow10(n)
  {
    ghost var full := Pow2(n);
    pow := Wrap64(Pow2(n));
    var left := n;
    assert full == Times(Pow2(n), Pow5(0));
    TwosAndFives(n);
    if n <= 19 {
      NineteenFits(n);
      SmallUnwrapped(Pow10(n));
    }
    hide Pow2, Pow5, Pow10, Times, Wrap64;
    while left > 0
      invariant 0 <= left <= n
      invariant full == Times(Pow2(n), Pow5(n - left))
      invariant pow == Wrap64(full)
    {
      ShiftAndAdd(full);
      TimesPow5(n, n - left);
      pow, full := Wrap64(pow + Wrap64(pow * 4)), 5 * full;
      left := left - 1;
    }
  }

  lemma {:induction false} BillionBounds(n: nat)
    requires n <= 9
    ensures Pow10(n) <= 1_000_000_000
  {
    Pow10Monotone(n, 9);
    Pow10Sum(4, 5);
    assert Pow10(4) == 10_000;
    assert Pow10(5) == 100_000;
  }

  lemma {:induction false} PowerStep(n: nat)
    ensures Wrap64(Pow10(n + 1)) == Wrap64(10 * Wrap64(Pow10(n)))
  {
    var x := Pow10(n);
    assert Pow10(n + 1) == 10 * x;
    hide Pow10;
    var k := x / TWO64;
    assert 10 * x == 10 * Wrap64(x) + (10 * k) * TWO64;
    WrapIgnoresMultiples(10 * Wrap64(x), 10 * k);
  }

  lemma {:induction false} LargeTo24(n: nat)
    requires 19 <= n <= 24 && Wrap64(Pow10(19)) == 10000000000000000000
    ensures Wrap64(Pow10(n)) > MAX_U32 && Wrap64(Pow10(24)) == 2003764205206896640
  {
    hide Pow10;
    PowerStep(19);
    assert Wrap64(10 * 10000000000000000000) == 7766279631452241920;
    PowerStep(20);
    assert Wrap64(10 * 7766279631452241920) == 3875820019684212736;
    PowerStep(21);
    assert Wrap64(10 * 3875820019684212736) == 1864712049423024128;
    PowerStep(22);
    assert Wrap64(10 * 1864712049423024128) == 200376420520689664;
    PowerStep(23);
    assert Wrap64(10 * 200376420520689664) == 2003764205206896640;
  }

  lemma {:induction false} LargeTo28(n: nat)
    requires 24 <= n <= 28 && Wrap64(Pow10(24)) == 2003764205206896640
    ensures Wrap64(Pow10(n)) > MAX_U32 && Wrap64(Pow10(28)) == 4477988020393345024
  {
    hide Pow10;
    PowerStep(24);
    assert Wrap64(10 * 2003764205206896640) == 1590897978359414784;
    PowerStep(25);
    assert Wrap64(10 * 1590897978359414784) == 15908979783594147840;
    PowerStep(26);
    assert Wrap64(10 * 15908979783594147840) == 11515845246265065472;
    PowerStep(27);
    assert Wrap64(10 * 11515845246265065472) == 4477988020393345024;
  }

  lemma {:induction false} LargeTo32(n: nat)
    requires 28 <= n <= 32 && Wrap64(Pow10(28)) == 4477988020393345024
    ensures Wrap64(Pow10(n)) > MAX_U32 && Wrap64(Pow10(32)) == 9632337040368467968
  {
    hide Pow10;
    PowerStep(28);
    assert Wrap64(10 * 4477988020393345024) == 7886392056514347008;
    PowerStep(29);
    assert Wrap64(10 * 7886392056514347008) == 5076944270305263616;
    PowerStep(30);
    assert Wrap64(10 * 5076944270305263616) == 13875954555633532928;
    PowerStep(31);
    assert Wrap64(10 * 13875954555633532928) == 9632337040368467968;
  }

  lemma {:induction false} NineteenIs()
    ensures Wrap64(Pow10(19)) == 10000000000000000000
  {
    NineteenFits(19);
    assert Pow10(4) == 10_000;
    Pow10Sum(4, 4);
    Pow10Sum(8, 8);
    assert Pow10(3) == 1_000;
    Pow10Sum(16, 3);
    SmallUnwrapped(Pow10(19));
  }

  lemma {:induction false} FiveIsOdd(n: nat)
    ensures Pow5(n) % 2 == 1
  {
    if n > 0 {
      FiveIsOdd(n - 1);
      var f := Pow5(n - 1);
      assert Pow5(n) == 5 * f;
      hide Pow5;
      assert 5 * f == f + 2 * (2 * f);
    }
  }

  lemma {:induction false} DoubledTimes(p: nat, q: nat)
    ensures Times(2 * p, q) == 2 * Times(p, q)
  {
    assert (2 * p) * q == 2 * (p * q);
  }

  lemma {:induction false} HalfOf(n: nat)
    requires n > 0
    ensures Pow2(n) == 2 * Pow2(n - 1)
  {
  }

  lemma {:induction false} Pow2Sum(m: nat, n: nat)
    ensures Times(Pow2(m), Pow2(n)) == Pow2(m + n)
  {
    if m > 0 {
      HalfOf(m);
      HalfOf(m + n);
      hide Pow2, Times;
      Pow2Sum(m - 1, n);
      DoubledTimes(Pow2(m - 1), Pow2(n));
    }
  }

  lemma {:induction false} TwoTo32()
    ensures Pow2(32) == MAX_U32 + 1 && Pow2(64) == TWO64
  {
    assert Pow2(8) == 256;
    Pow2Sum(8, 8);
    Pow2Sum(16, 16);
    Pow2Sum(32, 32);
  }

  lemma {:induction false} OddRest(odd: nat, b: nat)
    requires odd % 2 == 1 && b > 0
    ensures odd % (2 * b) != 0
  {
    var q, r := odd / (2 * b), odd % (2 * b);
    assert odd == q * (2 * b) + r;
    assert odd == 2 * (q * b) + r;
  }

  /** A multiple of `a` that is not one of `2 a b` leaves at least `a`. */
  lemma {:induction false} RestIsMultiple(a: nat, odd: nat, b: nat)
    requires a > 0 && b > 0 && odd % 2 == 1 && Times(a, 2 * b) == TWO64
    ensures Wrap64(Times(a, odd)) >= a
  {
    var q, r := odd / (2 * b), odd % (2 * b);
    assert odd == q * (2 * b) + r;
    OddRest(odd, b);
    assert a * odd == q * (a * (2 * b)) + a * r;
    assert a <= a * r < a * (2 * b);
    WrapIgnoresMultiples(a * r, q);
  }

  lemma {:induction false} TimesAtLeast(a: nat, b: nat)
    requires b > 0
    ensures Times(a, b) >= a
  {
  }

  lemma {:induction false} LargeFrom32(n: nat)
    requires 32 <= n < 64
    ensures Wrap64(Pow10(n)) > MAX_U32
  {
    hide Pow2, Pow5, Pow10, Times, Wrap64;
    TwosAndFives(n);
    FiveIsOdd(n);
    TwoTo32();
    Pow2Sum(n, 64 - n);
    HalfOf(64 - n);
    RestIsMultiple(Pow2(n), Pow5(n), Pow2(63 - n));
    Pow2Sum(32, n - 32);
    TimesAtLeast(Pow2(32), Pow2(n - 32));
  }

  /** Past 10^19 the power wraps, but stays larger than any 32-bit number: dividing one by it gives 0,
      as it should. */
  lemma {:induction false} WrappedStaysLarge(n: nat)
    requires 19 <= n < 64
    ensures Wrap64(Pow10(n)) > MAX_U32
  {
    hide Pow10, Wrap64;
    NineteenIs();
    LargeTo24(19);
    LargeTo28(24);
    if n <= 24 {
      LargeTo24(n);
    } else if n <= 28 {
      LargeTo28(n);
    } else if n <= 32 {
      LargeTo32(n);
    } else {
      LargeFrom32(n);
    }
  }

  lemma {:induction false} WrapShrinks(x: nat)
    ensures Wrap64(x) <= x
  {
  }

  function Over(a: nat, b: nat): nat
    requires b > 0
  {
    a / b
  }

  lemma {:induction false} SmallQuotient(a: nat, b: nat)
    requires a < b
    ensures Over(a, b) == 0 && a % b == a
  {
  }

  /** Dividing a 32-bit number by the wrapped power is dividing it by the power. */
  lemma {:induction false} WrappedDivides(value: u32, n: nat)
    requires n < 64
    ensures Wrap64(Pow10(n)) > 0 && Over(value, Wrap64(Pow10(n))) == Over(value, Pow10(n))
  {
    if n <= 19 {
      NineteenFits(n);
      SmallUnwrapped(Pow10(n));
    } else {
      WrappedStaysLarge(n);
      WrapShrinks(Pow10(n));
      hide Pow10, Wrap64;
      SmallQuotient(value, Wrap64(Pow10(n)));
      SmallQuotient(value, Pow10(n));
    }
  }

  // ---- decimal fractions --------------------------------------------------------------------

  /** Scale a fraction of `have` digits to one of `precision` digits, truncating. */
  function Rescale(value: nat, have: nat, precision: nat): nat {
    if have < precision then Times(value, Pow10(precision - have)) else Over(value, Pow10(have - precision))
  }

  lemma {:induction false} RescaleToSame(value: nat, precision: nat)
    ensures Rescale(value, precision, precision) == value
  {
    assert Pow10(0) == 1;
  }

  /** `r` is floor(value * 10^(precision - have)), said without negative exponents. */
  ghost predicate IsFloor(r: nat, value: nat, have: nat, precision: nat) {
    Times(r, Pow10(have)) <= Times(value, Pow10(precision)) < Times(r + 1, Pow10(have))
  }

  lemma {:induction false} OverBounds(a: nat, b: nat)
    requires b > 0
    ensures Times(Over(a, b), b) <= a < Times(Over(a, b) + 1, b)
  {
    var q := a / b;
    assert a == q * b + a % b;
    assert (q + 1) * b == q * b + b;
  }

  lemma {:induction false} TimesDistributes(a: nat, b: nat, c: nat)
    ensures Times(a + b, c) == Times(a, c) + Times(b, c)
  {
  }

  lemma {:induction false} TimesMonotone(a: nat, b: nat, c: nat)
    requires a <= b
    ensures Times(a, c) <= Times(b, c)
  {
  }

  lemma {:induction false} TimesStrict(a: nat, b: nat, c: nat)
    requires a < b && c > 0
    ensures Times(a, c) < Times(b, c)
  {
  }

  lemma {:induction false} RescaleIsFloor(value: nat, have: nat, precision: nat)
    ensures IsFloor(Rescale(value, have, precision), value, have, precision)
  {
    if have < precision {
      var up, ten := Pow10(precision - have), Pow10(have);
      Pow10Sum(precision - have, have);
      TimesAssociates(value, up, ten);
      TimesDistributes(Times(value, up), 1, ten);
    } else {
      var down, fine := Pow10(have - precision), Pow10(precision);
      var r := Over(value, down);
      Pow10Sum(have - precision, precision);
      OverBounds(value, down);
      TimesMonotone(Times(r, down), value, fine);
      TimesStrict(value, Times(r + 1, down), fine);
      TimesAssociates(r, down, fine);
      TimesAssociates(r + 1, down, fine);
    }
  }

  lemma {:induction false} Cancel(r: nat, target: nat, ten: nat, z: nat)
    requires z > 0
    requires Times(r, Times(ten, z)) <= Times(target, z) < Times(r + 1, Times(ten, z))
    ensures Times(r, ten) <= target < Times(r + 1, ten)
  {
    TimesAssociates(r, ten, z);
    TimesAssociates(r + 1, ten, z);
    if Times(r, ten) > target {
      TimesStrict(target, Times(r, ten), z);
    }
    if target >= Times(r + 1, ten) {
      TimesMonotone(Times(r + 1, ten), target, z);
    }
  }

  lemma {:induction false} FloorIsUnique(r: nat, r': nat, target: nat, ten: nat)
    requires ten > 0
    requires Times(r, ten) <= target < Times(r + 1, ten)
    requires Times(r', ten) <= target < Times(r' + 1, ten)
    ensures r == r'
  {
    if r < r' {
      TimesMonotone(r + 1, r', ten);
    } else if r' < r {
      TimesMonotone(r' + 1, r, ten);
    }
  }

  lemma {:induction false} TimesCommutes(a: nat, b: nat)
    ensures Times(a, b) == Times(b, a)
  {
  }

  /** Numerically equal fractions, one written with extra trailing zeros, rescale alike. */
  lemma {:induction false} TrailingZerosAreIgnored(value: nat, have: nat, zeros: nat, precision: nat)
    ensures Rescale(Times(value, Pow10(zeros)), have + zeros, precision) == Rescale(value, have, precision)
  {
    var ten, z, fine := Pow10(have), Pow10(zeros), Pow10(precision);
    var padded := Times(value, z);
    var r, r' := Rescale(value, have, precision), Rescale(padded, have + zeros, precision);
    RescaleIsFloor(value, have, precision);
    RescaleIsFloor(padded, have + zeros, precision);
    Pow10Sum(have, zeros);
    TimesAssociates(value, z, fine);
    TimesCommutes(z, fine);
    TimesAssociates(value, fine, z);
    Cancel(r', Times(value, fine), ten, z);
    FloorIsUnique(r, r', Times(value, fine), ten);
  }

  /** A proper fraction stays proper: it fits in `precision` digits. */
  lemma {:induction false} RescaledFits(value: nat, have: nat, precision: nat)
    requires value < Pow10(have)
    ensures Rescale(value, have, precision) < Pow10(precision)
  {
    var r, ten, fine := Rescale(value, have, precision), Pow10(have), Pow10(precision);
    RescaleIsFloor(value, have, precision);
    TimesStrict(value, ten, fine);
    TimesCommutes(ten, fine);
    if r >= fine {
      TimesMonotone(fine, r, ten);
    }
  }
}
