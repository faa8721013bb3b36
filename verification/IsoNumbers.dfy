/** The numbers of a duration, as they may be written, and what their digits denote. */
module IsoNumbers {
  import opened Decimals
  import opened Integers
  import opened Intervals
  import opened IsoParser

  // ---- the syntax -----------------------------------------------------------------------------

  function IndexOf(s: string, c: char): (i: nat)
    ensures i <= |s| && (i < |s| ==> s[i] == c) && c !in s[..i]
  {
    if s == "" || s[0] == c then 0 else
      var i := IndexOf(s[1..], c);
      assert s[..i + 1] == [s[0]] + s[1..][..i];
      1 + i
  }

  predicate HasPoint(number: string) {
    IndexOf(number, '.') < |number|
  }

  /** What is before the decimal point. */
  function Whole(number: string): string {
    number[..IndexOf(number, '.')]
  }

  predicate IsSign(c: char) {
    c == '-' || c == '+'
  }

  /** A `+` in front is passed over. */
  function AfterPlus(s: string): string {
    if s != "" && s[0] == '+' then s[1..] else s
  }

  /** What follows the sign, and the second `+` there may be. */
  function AfterSigns(s: string): string {
    if s != "" && IsSign(s[0]) then AfterPlus(s[1..]) else s
  }

  function WholeDigits(number: string): string {
    AfterSigns(Whole(number))
  }

  /** A `+` in front of decimals takes the place of a digit, and counts as a zero. */
  function PlusAsZero(s: string): string {
    if s != "" && s[0] == '+' then "0" + s[1..] else s
  }

  /** The decimals. */
  function Places(number: string): string {
    if HasPoint(number) then PlusAsZero(number[IndexOf(number, '.') + 1..]) else ""
  }

  /** Signs and digits; a lone sign is not a number, though a sign and a `+` are. */
  predicate IsWhole(s: string) {
    AllDigits(AfterSigns(s)) && !(|s| == 1 && IsSign(s[0]))
  }

  /** A whole part, possibly empty, and possibly a point and decimals. */
  predicate IsNumber(number: string) {
    number != "" && IsWhole(Whole(number)) && AllDigits(Places(number))
  }

  // ---- the denotation -------------------------------------------------------------------------

  function DigitsValue(s: string): nat {
    if AllDigits(s) then Value(s) else 0
  }

  function WholeValue(number: string): nat {
    DigitsValue(WholeDigits(number))
  }

  predicate IsMinus(number: string) {
    number != "" && number[0] == '-'
  }

  /** -2^63: in 64 bits it is its own negation, passes for a 32-bit number and is cut to zero. */
  predicate Vanishes(number: string) {
    IsMinus(number) && WholeValue(number) == MIN_I64_MAGNITUDE
  }

  /** The whole and the decimals as 32-bit numbers. */
  predicate InRange(number: string) {
    (WholeValue(number) <= MAX_U32 || Vanishes(number)) && DigitsValue(Places(number)) <= MAX_U32
  }

  /** What is stored of the whole part: nothing if it vanishes. */
  function Kept(number: string): u32 {
    if WholeValue(number) <= MAX_U32 then WholeValue(number) else 0
  }

  /** A `-` before a whole part of zero is not noticed. */
  predicate CountsAsNegative(number: string) {
    IsMinus(number) && WholeValue(number) != 0
  }

  lemma {:induction false} PlacesFit(number: string, precision: SecondPrecision)
    ensures Rescale(DigitsValue(Places(number)), |Places(number)|, precision) < Pow10(precision) <= MAX_U32
  {
    if AllDigits(Places(number)) {
      ValueBound(Places(number));
    }
    BillionBounds(precision);
    RescaledFits(DigitsValue(Places(number)), |Places(number)|, precision);
  }

  /** The decimals, at the precision asked for. */
  function FractionAt(number: string, precision: SecondPrecision): (f: u32)
    ensures f < Pow10(precision)
  {
    PlacesFit(number, precision);
    if HasPoint(number) then Rescale(DigitsValue(Places(number)), |Places(number)|, precision) else 0
  }

  function CodeAt(number: string, precision: SecondPrecision): Code {
    if HasPoint(number) && precision <= |Places(number)| then WithInfo else Success
  }

  predicate IsDelimiter(c: char) {
    !StartsNumber(c) && c != '['
  }

  // ---- unsigned reading -----------------------------------------------------------------------

  lemma {:induction false} ZeroInFront(s: string)
    requires AllDigits(s)
    ensures AllDigits("0" + s) && Value("0" + s) == Value(s)
  {
    var t := "0" + s;
    if s == "" {
      assert t[..0] == "" && Value("") == 0;
    } else {
      ZeroInFront(s[..|s| - 1]);
      assert t[..|t| - 1] == "0" + s[..|s| - 1];
    }
  }

  lemma {:induction false} PlusAsZeroDenotes(s: string)
    ensures AllDigits(PlusAsZero(s)) <==> AllDigits(AfterPlus(s))
    ensures AllDigits(AfterPlus(s)) ==> Value(PlusAsZero(s)) == Value(AfterPlus(s))
    ensures |PlusAsZero(s)| == |s|
  {
    if s != "" && s[0] == '+' {
      if AllDigits(s[1..]) {
        ZeroInFront(s[1..]);
      } else {
        var k :| 0 <= k < |s[1..]| && !IsDigit(s[1..][k]);
        assert PlusAsZero(s)[k + 1] == s[1..][k];
      }
    }
  }

  /** Whether a read stops before `c`: not if `c` could be part of the number. */
  predicate Stops(a: string, c: char) {
    !IsDigit(c) && c != '[' && (a == "" ==> !IsSign(c))
  }

  /** Digits, possibly after a `+`, are read up to what stops them. */
  lemma {:induction false} UnsignedReads(a: string, c: char, rest: string)
    requires AllDigits(AfterPlus(a)) && Stops(a, c)
    ensures ReadUnsigned(a + [c] + rest, false)
         == if Value(AfterPlus(a)) > MAX_U64 then Rejected(true) else Read(|a|, Value(AfterPlus(a)))
  {
    var s := a + [c] + rest;
    var from := if a != "" && a[0] == '+' then 1 else 0;
    assert s[0] == if a == "" then c else a[0];
    assert s[from..|a|] == AfterPlus(a);
    assert s[|a|] == c;
    RunEndIs(s, from, |a|);
  }

  /** Whatever is read is digits, possibly after a `+`. */
  lemma {:induction false} UnsignedIsDigits(s: string)
    requires ReadUnsigned(s, false).Read?
    ensures var n := ReadUnsigned(s, false).count;
            && n <= |s| && AllDigits(AfterPlus(s[..n])) && ReadUnsigned(s, false).value == Value(AfterPlus(s[..n]))
            && (n == 0 ==> s[0] != '+')
  {
    var from := if s[0] == '+' then 1 else 0;
    var end := RunEnd(s, from);
    assert AfterPlus(s[..end]) == s[from..end];
  }

  // ---- signed reading -------------------------------------------------------------------------

  /** The range of a signed 64-bit number. */
  predicate InSigned(negative: bool, v: nat) {
    v <= if negative then MIN_I64_MAGNITUDE else MAX_I64
  }

  predicate StartsMinus(s: string) {
    s != "" && s[0] == '-'
  }

  lemma {:induction false} SignedReads(a: string, c: char, rest: string)
    requires IsWhole(a) && Stops("", c)
    ensures var v := Value(AfterSigns(a));
            var r := ReadSigned(a + [c] + rest, false);
            if !InSigned(StartsMinus(a), v) then r.Rejected?
            else r == Read(|a|, if StartsMinus(a) then -(v as int) else v)
  {
    var s := a + [c] + rest;
    assert s[0] == if a == "" then c else a[0];
    if a != "" && IsSign(a[0]) {
      assert s[1..] == a[1..] + [c] + rest;
      UnsignedReads(a[1..], c, rest);
      hide ReadUnsigned;
    } else {
      assert s[0..] == s;
      assert AfterPlus(a) == a;
      UnsignedReads(a, c, rest);
      hide ReadUnsigned;
    }
  }

  lemma {:induction false} NoPointIn(a: string)
    requires AllDigits(AfterSigns(a))
    ensures '.' !in a
  {
    var signs := |a| - |AfterSigns(a)|;
    forall k | 0 <= k < |a|
      ensures a[k] != '.'
    {
      if k >= signs {
        assert a[k] == AfterSigns(a)[k - signs];
      }
    }
  }

  lemma {:induction false} SignedIsWhole(s: string)
    requires ReadSigned(s, false).Read?
    ensures var n := ReadSigned(s, false).count; n <= |s| && IsWhole(s[..n]) && '.' !in s[..n]
  {
    var n := ReadSigned(s, false).count;
    if IsSign(s[0]) {
      UnsignedIsDigits(s[1..]);
      hide ReadUnsigned, AfterPlus;
      assert s[..n][1..] == s[1..][..n - 1];
    } else {
      assert s[0..] == s;
      UnsignedIsDigits(s);
      hide ReadUnsigned;
      assert n > 0 ==> s[..n][0] == s[0];
    }
    NoPointIn(s[..n]);
  }

  // ---- a number of the parser -----------------------------------------------------------------

  lemma {:induction false} IndexAfter(a: string, rest: string)
    requires '.' !in a && (rest == "" || rest[0] == '.')
    ensures IndexOf(a + rest, '.') == |a|
  {
    var s := a + rest;
    if a == "" {
      assert s == rest;
    } else {
      assert s[0] == a[0] && s[1..] == a[1..] + rest;
      IndexAfter(a[1..], rest);
    }
  }

  lemma {:induction false} StartOfNumber(number: string)
    requires IsNumber(number)
    ensures StartsNumber(number[0])
  {
    var w := Whole(number);
    if w != "" {
      assert number[0] == w[0];
      if !IsSign(w[0]) {
        assert AfterSigns(w)[0] == w[0];
      }
    }
  }

  /** A number without a point, read by the parser. */
  lemma {:induction false} PlainReads(number: string, unit: char, precision: SecondPrecision)
    requires IsNumber(number) && !HasPoint(number) && IsDelimiter(unit)
    ensures ReadToken(number + [unit], precision)
         == if InRange(number) then Number(|number|, Kept(number), CountsAsNegative(number), 0, false, Success)
            else NoNumber
  {
    assert Whole(number) == number && !IsDigit(unit) && unit != '.' && !IsSign(unit);
    SignedReads(number, unit, "");
    assert number + [unit] + "" == number + [unit];
    assert Value("") == 0;
    hide ReadSigned, ReadUnsigned, Rescale, Value, AfterSigns;
  }

  /** The parser's number, from what it reads before the point and after it. */
  lemma {:induction false} PointToken(s: string, n: nat, precision: SecondPrecision)
    requires n + 1 < |s| && s[n] == '.'
    requires var whole := ReadSigned(s, false); whole.Read? && whole.count == n
    ensures var whole, places := ReadSigned(s, false), ReadUnsigned(s[n + 1..], false);
            ReadToken(s, precision)
            == if Magnitude32(whole.value) > MAX_U32 || places.Rejected? || places.value > MAX_U32 then NoNumber
               else
                 (FractionFits(s[n + 1..], precision);
                  Number(n + 1 + places.count, Magnitude32(whole.value), whole.value < 0,
                         Rescale(places.value, places.count, precision), true,
                         if places.count < precision then Success else WithInfo))
  {
    hide ReadSigned, ReadUnsigned, Rescale;
  }

  lemma {:induction false} RejectedToken(s: string, precision: SecondPrecision)
    requires ReadSigned(s, false).Rejected?
    ensures ReadToken(s, precision) == NoNumber
  {
    hide ReadSigned;
  }

  /** A number with a point, and its two parts. */
  lemma {:induction false} PointParts(number: string, unit: char)
    requires IsNumber(number) && HasPoint(number)
    ensures var w, f := Whole(number), number[IndexOf(number, '.') + 1..];
            && number + [unit] == w + ['.'] + (f + [unit]) && (number + [unit])[|w| + 1..] == f + [unit]
            && Places(number) == PlusAsZero(f) && IsMinus(number) == StartsMinus(w)
  {
    hide AfterSigns, AfterPlus, PlusAsZero, Value;
  }

  lemma {:induction false} NumberDenotes(number: string)
    requires IsNumber(number)
    ensures IsWhole(Whole(number)) && WholeValue(number) == Value(AfterSigns(Whole(number)))
    ensures AllDigits(Places(number)) && DigitsValue(Places(number)) == Value(Places(number))
  {
    hide Value, AfterSigns, Places;
  }

  lemma {:induction false} WholeReads(number: string, unit: char)
    requires IsNumber(number) && HasPoint(number)
    ensures var s, n, v := number + [unit], |Whole(number)|, WholeValue(number);
            && n + 1 < |s| && s[n] == '.'
            && var r := ReadSigned(s, false);
               if !InSigned(IsMinus(number), v) then r.Rejected?
               else r == Read(n, if IsMinus(number) then -(v as int) else v)
  {
    var w, f := Whole(number), number[IndexOf(number, '.') + 1..];
    PointParts(number, unit);
    NumberDenotes(number);
    SignedReads(w, '.', f + [unit]);
    hide *;
  }

  lemma {:induction false} PlacesRead(number: string, unit: char)
    requires IsNumber(number) && HasPoint(number) && IsDelimiter(unit)
    ensures var s, n, u := number + [unit], |Whole(number)|, DigitsValue(Places(number));
            && n + 1 < |s| && |number| == n + 1 + |Places(number)|
            && ReadUnsigned(s[n + 1..], false) == if u > MAX_U64 then Rejected(true) else Read(|Places(number)|, u)
  {
    var f := number[IndexOf(number, '.') + 1..];
    PointParts(number, unit);
    NumberDenotes(number);
    PlusAsZeroDenotes(f);
    assert Stops(f, unit);
    UnsignedReads(f, unit, "");
    hide *;
    assert f + [unit] + "" == f + [unit];
  }

  /** The parser's range check, and what it lets through. */
  lemma {:induction false} RangeDecides(number: string)
    ensures var v: int := if IsMinus(number) then -(WholeValue(number) as int) else WholeValue(number);
            && (InRange(number) <==> InSigned(IsMinus(number), WholeValue(number)) && Magnitude32(v) <= MAX_U32
                                     && DigitsValue(Places(number)) <= MAX_U32)
            && (InRange(number) ==> Magnitude32(v) == Kept(number))
            && (CountsAsNegative(number) <==> v < 0)
  {
    hide WholeValue, DigitsValue, Places, IsMinus;
  }

  lemma {:induction false} PointedReads(number: string, unit: char, precision: SecondPrecision)
    requires IsNumber(number) && HasPoint(number) && IsDelimiter(unit)
    ensures ReadToken(number + [unit], precision)
         == if InRange(number) then
              Number(|number|, Kept(number), CountsAsNegative(number), FractionAt(number, precision), true,
                     CodeAt(number, precision))
            else NoNumber
  {
    hide ReadSigned, ReadUnsigned, Rescale, ReadToken, WholeValue, DigitsValue, Places, Whole, IsNumber, IsMinus,
         IsDelimiter, Pow10, IndexOf, InRange, Kept, CountsAsNegative, Magnitude32, HasPoint, InSigned;
    var s, n := number + [unit], |Whole(number)|;
    WholeReads(number, unit);
    PlacesRead(number, unit);
    RangeDecides(number);
    if ReadSigned(s, false).Rejected? {
      RejectedToken(s, precision);
    } else {
      PointToken(s, n, precision);
    }
  }

  lemma {:induction false} WholeNumber(w: string)
    requires w != "" && IsWhole(w) && '.' !in w
    ensures IsNumber(w)
  {
    assert w + "" == w;
    IndexAfter(w, "");
    hide IsWhole;
  }

  lemma {:induction false} PointNumber(w: string, f: string)
    requires IsWhole(w) && '.' !in w && AllDigits(AfterPlus(f))
    ensures IsNumber(w + ("." + f))
  {
    var number := w + ("." + f);
    IndexAfter(w, "." + f);
    PlusAsZeroDenotes(f);
    hide IsWhole, PlusAsZero, AfterPlus;
    assert number[|w| + 1..] == f && number[..|w|] == w;
  }

  lemma {:induction false} Cut(s: string, n: nat, end: nat)
    requires n < end <= |s| && s[n] == '.'
    ensures s[..end] == s[..n] + ("." + s[n + 1..][..end - n - 1])
  {
  }

  lemma {:induction false} TokenParts(s: string, precision: SecondPrecision)
    requires ReadToken(s, precision).Number?
    ensures var r := ReadSigned(s, false);
            && r.Read? && r.count < |s|
            && (s[r.count] == '.' ==>
                  && r.count + 1 < |s|
                  && var f := ReadUnsigned(s[r.count + 1..], false);
                     f.Read? && ReadToken(s, precision).length == r.count + 1 + f.count)
            && (s[r.count] != '.' ==> ReadToken(s, precision).length == r.count)
  {
    hide ReadSigned, ReadUnsigned, Rescale;
  }

  /** What the parser takes for a number is one. */
  lemma {:induction false} TokenIsNumber(number: string, unit: char, precision: SecondPrecision)
    requires number != "" && StartsNumber(number[0]) && IsDelimiter(unit)
    requires var t := ReadToken(number + [unit], precision); t.Number? && t.length == |number|
    ensures IsNumber(number)
  {
    var s := number + [unit];
    TokenParts(s, precision);
    var n := ReadSigned(s, false).count;
    SignedIsWhole(s);
    hide *;
    assert s[..|number|] == number;
    if s[n] == '.' {
      UnsignedIsDigits(s[n + 1..]);
      Cut(s, n, |number|);
      PointNumber(s[..n], s[n + 1..][..|number| - n - 1]);
    } else {
      WholeNumber(number);
    }
  }

  /** The parser takes exactly the numbers in range, and holds of each the value of its digits, cut to
      zero if it vanishes. */
  lemma {:induction false} NumberReads(number: string, unit: char, precision: SecondPrecision)
    requires IsDelimiter(unit)
    ensures var t := ReadToken(number + [unit], precision);
            (number != "" && StartsNumber(number[0]) && t.Number? && t.length == |number|)
            <==> IsNumber(number) && InRange(number)
    ensures IsNumber(number) && InRange(number) ==>
              ReadToken(number + [unit], precision)
              == Number(|number|, Kept(number), CountsAsNegative(number), FractionAt(number, precision),
                        HasPoint(number), CodeAt(number, precision))
  {
    if IsNumber(number) {
      StartOfNumber(number);
      if HasPoint(number) {
        PointedReads(number, unit, precision);
      } else {
        PlainReads(number, unit, precision);
      }
    } else if number != "" && StartsNumber(number[0]) {
      var t := ReadToken(number + [unit], precision);
      if t.Number? && t.length == |number| {
        TokenIsNumber(number, unit, precision);
      }
    }
  }
}
