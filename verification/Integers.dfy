/** Overflow-checked integer parsing (`str2ubigint`, `str2bigint`). */
module Integers {
  import opened Decimals

  /** A failed read tells whether the value was out of range (`errno == ERANGE`). */
  datatype Reading = Rejected(outOfRange: bool) | Read(count: nat, value: int)

  /** End of the digit run that starts at `from`. */
  function RunEnd(s: string, from: nat): (end: nat)
    requires from <= |s|
    ensures from <= end <= |s| && AllDigits(s[from..end])
    ensures end < |s| ==> !IsDigit(s[end])
    decreases |s| - from
  {
    if from < |s| && IsDigit(s[from]) then
      var end := RunEnd(s, from + 1);
      assert s[from..end] == [s[from]] + s[from + 1..end];
      end
    else from
  }

  /** The run is the only digit run from `from` that a non-digit, or the end, closes. */
  lemma {:induction false} RunEndIs(s: string, from: nat, end: nat)
    requires from <= end <= |s| && AllDigits(s[from..end])
    requires end < |s| ==> !IsDigit(s[end])
    ensures RunEnd(s, from) == end
    decreases end - from
  {
    if from < end {
      assert s[from..end][0] == s[from];
      assert s[from + 1..end] == s[from..end][1..];
      RunEndIs(s, from + 1, end);
    }
  }

  /** An optional `+`, then digits. Without `strict` the number may be followed by anything and may
      have no digits at all. A lone `[` is taken for a lone `+`: its distance from `0` is the code
      of `+`. */
  function ReadUnsigned(s: string, strict: bool): (r: Reading)
    ensures r.Read? ==> r.count <= |s| && 0 <= r.value <= MAX_U64
  {
    if s == "" then Rejected(false) else
      var from := if s[0] == '+' then 1 else 0;
      var end := RunEnd(s, from);
      var v := Value(s[from..end]);
      if v > MAX_U64 then Rejected(true)
      else if strict && end < |s| then Rejected(false)
      else if |s| == 1 && (s[0] == '+' || s[0] == '[') then Rejected(false)
      else Read(end, v)
  }

  function WithSign(negative: bool, signs: nat, r: Reading): Reading {
    match r
    case Rejected(range) => Rejected(range)
    case Read(count, v) =>
      if count == 0 && signs > 0 then Rejected(false)
      else if negative then
        if v > MIN_I64_MAGNITUDE then Rejected(true) else Read(signs + count, -v)
      else
        if v > MAX_I64 then Rejected(true) else Read(signs + count, v)
  }

  /** An optional sign, then what `ReadUnsigned` reads: a second `+` is accepted. */
  function ReadSigned(s: string, strict: bool): (r: Reading)
    ensures r.Read? ==> r.count <= |s| && -MIN_I64_MAGNITUDE <= r.value <= MAX_I64
  {
    if s == "" then Rejected(false) else
      var i := if s[0] == '-' || s[0] == '+' then 1 else 0;
      WithSign(s[0] == '-', i, ReadUnsigned(s[i..], strict))
  }

  /** `count` digits, some of which may be a `+`, denote less than 10^count. */
  lemma {:induction false} ReadBound(s: string)
    ensures var r := ReadUnsigned(s, false); r.Read? ==> r.value < Pow10(r.count)
  {
    if s != "" {
      var from := if s[0] == '+' then 1 else 0;
      var end := RunEnd(s, from);
      ValueBound(s[from..end]);
      Pow10Monotone(end - from, end);
    }
  }

  // ---- the loop -----------------------------------------------------------------------------

  const UNCHECKED := 19  // positions that cannot overflow: one less than the digits of 2^64 - 1

  /** `c - '0'` as an unsigned 64-bit number. */
  function Distance(c: char): (d: nat)
    ensures d <= 9 <==> IsDigit(c)
    ensures IsDigit(c) ==> d == DigitValue(c)
    ensures d == '+' as int <==> c == '['
  {
    (c as int - '0' as int) % TWO64
  }

  /** The digits from `from` on are all digits so far, and denote `value`. */
  ghost predicate ReadSoFar(s: string, from: nat, i: nat, value: nat) {
    from <= i <= |s| && AllDigits(s[from..i]) && Value(s[from..i]) == value <= MAX_U64
  }

  lemma {:induction false} DigitExtends(s: string, from: nat, i: nat)
    requires from <= i < |s| && AllDigits(s[from..i]) && IsDigit(s[i])
    ensures AllDigits(s[from..i + 1])
    ensures Value(s[from..i + 1]) == 10 * Value(s[from..i]) + DigitValue(s[i])
  {
    assert s[from..i + 1][..i - from] == s[from..i];
  }

  /** Up to the last unchecked position the value cannot wrap. */
  lemma {:induction false} FewDigits(s: string, from: nat, i: nat)
    requires from <= i < |s| && i < UNCHECKED && AllDigits(s[from..i + 1])
    ensures Value(s[from..i + 1]) <= MAX_U64
  {
    hide Value, Pow10;
    ValueBound(s[from..i + 1]);
    Pow10Monotone(i + 1 - from, UNCHECKED);
    NineteenFits(UNCHECKED);
  }

  /** Once the digits read exceed 2^64 - 1, no further digit brings the number back in range. */
  lemma {:induction false} OverflowIsFinal(s: string, from: nat, i: nat)
    requires from <= i <= |s| && from == (if s != "" && s[0] == '+' then 1 else 0)
    requires AllDigits(s[from..i]) && Value(s[from..i]) > MAX_U64
    ensures forall strict :: ReadUnsigned(s, strict) == Rejected(true)
  {
    var end := RunEnd(s, from);
    assert forall k | from <= k < i :: IsDigit(s[k]) by {
      assert forall k | from <= k < i :: s[k] == s[from..i][k - from];
    }
    ValueMonotone(s[from..end], i - from);
    assert s[from..end][..i - from] == s[from..i];
  }

  /** Out of range is what has digits, after a `+` or not, that exceed 2^64 - 1; whatever follows them. */
  lemma {:induction false} OutOfRangeIff(s: string, strict: bool)
    ensures var from := if s != "" && s[0] == '+' then 1 else 0;
            ReadUnsigned(s, strict) == Rejected(true)
            <==> exists i :: from <= i <= |s| && AllDigits(s[from..i]) && Value(s[from..i]) > 0xFFFF_FFFF_FFFF_FFFF
  {
    var from := if s != "" && s[0] == '+' then 1 else 0;
    assert s == "" ==> Value(s[0..0]) == 0;
    hide Value;
    forall i | from <= i <= |s| && AllDigits(s[from..i]) && Value(s[from..i]) > 0xFFFF_FFFF_FFFF_FFFF
      ensures ReadUnsigned(s, strict) == Rejected(true)
    {
      OverflowIsFinal(s, from, i);
    }
    if ReadUnsigned(s, strict) == Rejected(true) {
      var end := RunEnd(s, from);
      assert AllDigits(s[from..end]) && Value(s[from..end]) > 0xFFFF_FFFF_FFFF_FFFF;
    }
  }

  lemma {:induction false} NextRead(s: string, from: nat, i: nat, value: nat)
    requires ReadSoFar(s, from, i, value) && i < |s| && IsDigit(s[i])
    ensures i < UNCHECKED ==> 10 * value + DigitValue(s[i]) <= MAX_U64
    ensures 10 * value + DigitValue(s[i]) <= MAX_U64 ==> ReadSoFar(s, from, i + 1, 10 * value + DigitValue(s[i]))
    ensures 10 * value + DigitValue(s[i]) > MAX_U64 && from == (if s[0] == '+' then 1 else 0) ==>
              forall strict :: ReadUnsigned(s, strict) == Rejected(true)
  {
    DigitExtends(s, from, i);
    if i < UNCHECKED {
      FewDigits(s, from, i);
    }
    hide ReadUnsigned, Value;
    if 10 * value + DigitValue(s[i]) > MAX_U64 && from == (if s[0] == '+' then 1 else 0) {
      OverflowIsFinal(s, from, i + 1);
    }
  }

  lemma {:induction false} AllRead(s: string, i: nat, value: nat)
    requires s != "" && ReadSoFar(s, if s[0] == '+' then 1 else 0, i, value) && (i < |s| ==> !IsDigit(s[i]))
    ensures forall strict ::
              ReadUnsigned(s, strict)
              == if strict && i < |s| then Rejected(false)
                 else if |s| == 1 && (s[0] == '+' || s[0] == '[') then Rejected(false)
                 else Read(i, value)
  {
    RunEndIs(s, if s[0] == '+' then 1 else 0, i);
    hide Value;
  }

  function Accumulate(res: nat, digit: nat): (r: nat)
    ensures 10 * res + digit <= MAX_U64 ==> r == 10 * res + digit
  {
    Wrap64(Wrap64(res * 10) + digit)
  }

  /** The accumulation loop, in wrapping 64-bit arithmetic. */
  method Str2UBigInt(s: string, strict: bool) returns (r: Reading)
    ensures r == ReadUnsigned(s, strict)
  {
    if |s| < 1 {
      return Rejected(false);
    }
    var digit: int := s[0] as int;
    var from := if s[0] == '+' then 1 else 0;
    var i: nat, res: nat := from, 0;
    assert ReadSoFar(s, from, i, res);
    hide ReadSoFar, ReadUnsigned;
    while i < |s|
      invariant from <= i <= |s| && ReadSoFar(s, from, i, res) && res <= MAX_U64
      invariant digit == (if i == from then s[0] as int else Distance(s[i - 1]))
      invariant i > from ==> digit <= 9
    {
      digit := Distance(s[i]);
      if 9 < digit {
        AllRead(s, i, res);
        if strict {
          return Rejected(false);
        }
        break;
      }
      NextRead(s, from, i, res);
      if UNCHECKED <= i && (MAX_U64 / 10 < res || MAX_U64 - Wrap64(res * 10) < digit) {
        return Rejected(true);
      }
      res := Accumulate(res, digit);
      i := i + 1;
    }
    if i == |s| {
      AllRead(s, i, res);
    }
    if |s| <= 1 && digit == '+' as int {
      return Rejected(false);
    }
    return Read(i, res);
  }

  method Str2BigInt(s: string, strict: bool) returns (r: Reading)
    ensures r == ReadSigned(s, strict)
  {
    if |s| < 1 {
      return Rejected(false);
    }
    var negative, i := false, 0;
    match s[0] {
      case '-' => negative, i := true, 1;
      case '+' => i := 1;
      case _ =>
    }
    var ull := Str2UBigInt(s[i..], strict);
    if ull.Rejected? {
      return ull;
    } else if ull.count == 0 && i > 0 {
      return Rejected(false);
    }
    if negative {
      if MIN_I64_MAGNITUDE < ull.value {
        return Rejected(true);
      }
      return Read(ull.count + i, -ull.value);
    } else {
      if MAX_I64 < ull.value {
        return Rejected(true);
      }
      return Read(ull.count + i, ull.value);
    }
  }

  // ---- what the parsers promise -------------------------------------------------------------

  /** `digits`, possibly after a `+`. */
  predicate IsUnsignedNumeral(s: string) {
    IsNumeral(s) || (|s| > 1 && s[0] == '+' && AllDigits(s[1..]))
  }

  function UnsignedValue(s: string): nat
    requires IsUnsignedNumeral(s)
  {
    if IsNumeral(s) then Value(s) else Value(s[1..])
  }

  /** Strict reading succeeds exactly on the numerals up to 2^64 - 1, however long they are
      written, and then consumes everything. */
  lemma {:induction false} StrictUnsigned(s: string)
    ensures ReadUnsigned(s, true).Read? <==> IsUnsignedNumeral(s) && UnsignedValue(s) <= 0xFFFF_FFFF_FFFF_FFFF
    ensures IsUnsignedNumeral(s) ==>
              ReadUnsigned(s, true) == if UnsignedValue(s) <= 0xFFFF_FFFF_FFFF_FFFF then Read(|s|, UnsignedValue(s))
                                       else Rejected(true)
  {
    if s != "" {
      var from := if s[0] == '+' then 1 else 0;
      assert s[0..] == s && s[from..|s|] == s[from..];
      if IsUnsignedNumeral(s) {
        assert IsNumeral(s) ==> IsDigit(s[0]);
        RunEndIs(s, from, |s|);
      }
    }
  }

  predicate IsSigned(s: string) {
    s != "" && (s[0] == '-' || s[0] == '+')
  }

  function Unsigned(s: string): string {
    if IsSigned(s) then s[1..] else s
  }

  predicate IsSignedNumeral(s: string) {
    IsUnsignedNumeral(Unsigned(s))
  }

  function SignedValue(s: string): int
    requires IsSignedNumeral(s)
  {
    var magnitude: int := UnsignedValue(Unsigned(s));
    if s != "" && s[0] == '-' then -magnitude else magnitude
  }

  /** Strict reading of a signed number succeeds exactly on the numerals of [-2^63, 2^63 - 1]. */
  lemma {:induction false} StrictSigned(s: string)
    ensures ReadSigned(s, true).Read? <==>
              IsSignedNumeral(s) && -0x8000_0000_0000_0000 <= SignedValue(s) <= 0x7FFF_FFFF_FFFF_FFFF
    ensures IsSignedNumeral(s) ==>
              ReadSigned(s, true) == if -0x8000_0000_0000_0000 <= SignedValue(s) <= 0x7FFF_FFFF_FFFF_FFFF
                                     then Read(|s|, SignedValue(s)) else Rejected(true)
    ensures !IsSignedNumeral(s) ==> ReadSigned(s, true) == Rejected(ReadUnsigned(Unsigned(s), true) == Rejected(true))
  {
    if s != "" {
      assert s[0..] == s;
      StrictUnsigned(Unsigned(s));
    }
  }

  /** Lax reading stops at the first non-digit. */
  lemma {:induction false} ReadNumeral(digits: string, rest: string)
    requires IsNumeral(digits) && Value(digits) <= MAX_U64
    requires rest != "" ==> !IsDigit(rest[0])
    ensures ReadUnsigned(digits + rest, false) == Read(|digits|, Value(digits))
  {
    var s := digits + rest;
    assert s[0] == digits[0] && IsDigit(s[0]);
    assert s[0..|digits|] == digits;
    RunEndIs(s, 0, |digits|);
  }

  lemma {:induction false} ReadPositive(digits: string, rest: string)
    requires IsNumeral(digits) && Value(digits) <= MAX_I64
    requires rest != "" ==> !IsDigit(rest[0])
    ensures ReadSigned(digits + rest, false) == Read(|digits|, Value(digits))
  {
    ReadNumeral(digits, rest);
    var text := digits + rest;
    assert text[0] == digits[0] && IsDigit(text[0]);
    assert text[0..] == text;
  }

  lemma {:induction false} ReadNegative(digits: string, rest: string)
    requires IsNumeral(digits) && Value(digits) <= MAX_I64
    requires rest != "" ==> !IsDigit(rest[0])
    ensures ReadSigned("-" + digits + rest, false) == Read(1 + |digits|, -(Value(digits) as int))
  {
    ReadNumeral(digits, rest);
    var text := "-" + digits + rest;
    assert text[0] == '-' && text[1..] == digits + rest;
  }
}
