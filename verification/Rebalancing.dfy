/** Rebalancing conserves time: the stored interval against the sum the text denotes. */
module Rebalancing {
  import opened Decimals
  import opened Intervals
  import opened IsoParser
  import opened IsoGrammar
  import opened IsoNumbers
  import opened IsoShapes
  import opened IsoMeaning
  import opened Wrappers

  // ---- the outcome, from the items of the text ------------------------------------------------

  /** The fields are not those of the type, which is not one of years and months. */
  predicate Rebalances(d: Duration, kind: Kind) {
    FieldsIn(d) != FieldsOf(kind) && !IsYearMonth(kind)
  }

  /** The checked sum of what the text leaves in storage. */
  function OverlaidSum(d: Duration): Option<u32> {
    CheckedSeconds(Overlaid(d, DaySlot), Overlaid(d, HourSlot), Overlaid(d, MinuteSlot), Overlaid(d, SecondSlot))
  }

  function OverlaidSeconds(d: Duration): nat {
    DaySeconds(Overlaid(d, DaySlot), Overlaid(d, HourSlot), Overlaid(d, MinuteSlot), Overlaid(d, SecondSlot))
  }

  /** The fraction would not fit, if the parser notices it: it looks at the last number only. */
  predicate IsRefused(d: Duration, kind: Kind) {
    !FieldsOf(kind).second && EndsInPoint(d)
  }

  function Understood(d: Duration, kind: Kind, precision: SecondPrecision): Outcome {
    if Rebalances(d, kind) then
      match OverlaidSum(d)
      case None => Overflow
      case Some(secs) =>
        if IsRefused(d, kind) then Malformed
        else Parsed(Balanced(kind, IsNegative(d), secs, FractionOf(d, precision)), CodeOf(d, precision))
    else if !FieldsIn(d).Within(FieldsOf(kind)) then Malformed
    else
      Parsed(Interval(kind, IsNegative(d), Overlaid(d, DaySlot), Overlaid(d, HourSlot), Overlaid(d, MinuteSlot),
                      Overlaid(d, SecondSlot), FractionOf(d, precision)), CodeOf(d, precision))
  }

  lemma {:induction false} StoredSlots(d: Duration, precision: SecondPrecision)
    requires Meaning(d, precision).Some?
    ensures var st := Meaning(d, precision).value;
            && st.yearOrDay == Overlaid(d, DaySlot) && st.monthOrHour == Overlaid(d, HourSlot)
            && st.minute == Overlaid(d, MinuteSlot) && st.second == Overlaid(d, SecondSlot)
  {
    hide Meaning, Overlaid, FractionOf, EndsInPoint, CodeOf, Pow10;
    StoredAsWritten(d, precision);
    var st := Meaning(d, precision).value;
    assert InSlot(st, DaySlot) == st.yearOrDay && InSlot(st, HourSlot) == st.monthOrHour;
    assert InSlot(st, MinuteSlot) == st.minute && InSlot(st, SecondSlot) == st.second;
  }

  /** The parser's outcome for any well-formed duration and any type, from its items alone. */
  lemma {:induction false} ParsesAsUnderstood(d: Duration, kind: Kind, precision: SecondPrecision)
    requires IsWellFormed(d)
    ensures ParseIso(Render(d), kind, precision) == Understood(d, kind, precision)
  {
    hide Run, Meaning, Render, Overlaid, FractionOf, EndsInPoint, CodeOf, CheckedSeconds, Balanced, FieldsIn,
         IsNegative, FieldsOf, Pow10, IsWellFormed;
    Accepts(d, precision);
    ScanDuration(d, precision);
    StoredAsWritten(d, precision);
    StoredSlots(d, precision);
  }

  /** Any other text is refused. */
  lemma {:induction false} OthersAreMalformed(text: string, kind: Kind, precision: SecondPrecision)
    requires !exists d: Duration :: Render(d) == text && IsWellFormed(d)
    ensures ParseIso(text, kind, precision) == Malformed
  {
    hide Run, Render, IsWellFormed;
    AcceptedTexts(text, precision);
  }

  // ---- sums and quotients ---------------------------------------------------------------------

  lemma {:induction false} WrapLosesMultiple(x: nat)
    ensures x <= MAX_U32 ==> x % MOD32 == x
    ensures x > MAX_U32 ==> x % MOD32 + MOD32 <= x
  {
  }

  /** The checked sum is exact while the total fits 32 bits. Past that it either overflows or, a
      product having wrapped already, loses a multiple of 2^32. */
  lemma {:induction false} CheckedSumIsExact(day: u32, hour: u32, minute: u32, second: u32)
    ensures var total := DaySeconds(day, hour, minute, second);
            var sum := CheckedSeconds(day, hour, minute, second);
            && (total <= MAX_U32 ==> sum == Some(total))
            && (total > MAX_U32 && sum.Some? ==> sum.value + MOD32 <= total)
  {
    WrapLosesMultiple(60 * minute);
    WrapLosesMultiple(3600 * hour);
    WrapLosesMultiple(86400 * day);
  }

  lemma {:induction false} Cut(secs: nat, unit: nat)
    requires unit == 1 || unit == 60 || unit == 3600 || unit == 86400
    ensures secs - unit < secs / unit * unit <= secs
  {
  }

  lemma {:induction false} BalancedIsMixedRadix(kind: Kind, negative: bool, secs: u32, fraction: u32)
    requires !IsYearMonth(kind)
    ensures IsMixedRadix(Balanced(kind, negative, secs, fraction))
  {
  }

  lemma {:induction false} Digits(secs: nat)
    ensures secs / 60 * 60 == 60 * (secs / 60)
    ensures secs == 60 * (secs / 60) + secs % 60
    ensures secs / 60 == 60 * (secs / 3600) + secs / 60 % 60
    ensures secs / 3600 == 24 * (secs / 86400) + secs / 3600 % 24
  {
    Quotients(secs);
  }

  lemma {:induction false} BalancedDayTo(kind: Kind, negative: bool, secs: u32, fraction: u32)
    requires kind == DayToHour || kind == DayToMinute || kind == DayToSecond
    ensures Magnitude(Balanced(kind, negative, secs, fraction)) == secs / UnitSeconds(kind) * UnitSeconds(kind)
  {
    Digits(secs);
  }

  lemma {:induction false} BalancedHourTo(kind: Kind, negative: bool, secs: u32, fraction: u32)
    requires kind == HourToMinute || kind == HourToSecond || kind == MinuteToSecond
    ensures Magnitude(Balanced(kind, negative, secs, fraction)) == secs / UnitSeconds(kind) * UnitSeconds(kind)
  {
    Digits(secs);
  }

  /** What rebalancing stores is the mixed-radix form of the seconds, cut to the smallest field. */
  lemma {:induction false} BalancedIsFloor(kind: Kind, negative: bool, secs: u32, fraction: u32)
    requires !IsYearMonth(kind)
    ensures var ivl := Balanced(kind, negative, secs, fraction);
            IsMixedRadix(ivl) && Magnitude(ivl) == secs / UnitSeconds(kind) * UnitSeconds(kind)
  {
    BalancedIsMixedRadix(kind, negative, secs, fraction);
    hide IsMixedRadix;
    Digits(secs);
    Quotients(secs);
    match kind
    case Single(f) =>
      match f {
        case Day =>
        case Hour =>
        case Minute =>
        case Second =>
      }
    case DayToHour | DayToMinute | DayToSecond =>
      BalancedDayTo(kind, negative, secs, fraction);
    case HourToMinute | HourToSecond | MinuteToSecond =>
      BalancedHourTo(kind, negative, secs, fraction);
  }

  /** The amount of a stored value: months or seconds, whichever its type is in. */
  function ScaleOf(kind: Kind): Scale {
    if IsYearMonth(kind) then InMonths else InSeconds
  }

  /** The stored value is the denoted amount, cut to the smallest field of the type. */
  ghost predicate Conserves(o: Outcome, kind: Kind, amount: nat) {
    && o.Parsed? && o.ivl.kind == kind
    && Magnitude(o.ivl)
       == if IsYearMonth(kind) then amount else amount / UnitSeconds(kind) * UnitSeconds(kind)
  }

  predicate IsMultiple(n: nat, unit: nat, x: nat) {
    || (unit == 1 && n == x)
    || (unit == 60 && n == 60 * x)
    || (unit == 3600 && n == 3600 * x)
    || (unit == 86400 && n == 86400 * x)
  }

  /** How many of its smallest field a value holds. */
  lemma {:induction false} HeldUnits(st: State, kind: Kind) returns (x: nat)
    requires !IsYearMonth(kind) && UnsetIsZero(st) && st.fields == FieldsOf(kind)
    ensures IsMultiple(Held(st, InSeconds), UnitSeconds(kind), x)
  {
    var d: nat, h: nat, m: nat, s: nat := st.yearOrDay, st.monthOrHour, st.minute, st.second;
    var fields := FieldsOf(kind);
    x := if fields.second then DaySeconds(d, h, m, s)
         else if fields.minute then 1440 * d + 60 * h + m
         else if fields.hour then 24 * d + h
         else d;
  }

  lemma {:induction false} MultipleIsUncut(x: nat)
    ensures 60 * x / 60 * 60 == 60 * x && 3600 * x / 3600 * 3600 == 3600 * x
    ensures 86400 * x / 86400 * 86400 == 86400 * x
  {
  }

  lemma {:induction false} Uncut(n: nat, unit: nat, x: nat)
    requires IsMultiple(n, unit, x)
    ensures unit > 0 && n / unit * unit == n
  {
    MultipleIsUncut(x);
  }

  lemma {:induction false} Divisible(st: State, kind: Kind)
    requires !IsYearMonth(kind) && UnsetIsZero(st) && st.fields == FieldsOf(kind)
    ensures Held(st, InSeconds) / UnitSeconds(kind) * UnitSeconds(kind) == Held(st, InSeconds)
  {
    var x := HeldUnits(st, kind);
    hide Held, UnitSeconds, FieldsOf, UnsetIsZero, IsYearMonth;
    Uncut(Held(st, InSeconds), UnitSeconds(kind), x);
  }

  lemma {:induction false} StoredAsHeld(st: State, kind: Kind)
    requires BetweenItems(st) && UnsetIsZero(st)
    requires !NeedsRebalancing(st, kind) && st.fields.Within(FieldsOf(kind))
    ensures var o := Finish(st, kind);
            && o.Parsed? && Magnitude(o.ivl) == Held(st, ScaleOf(kind))
            && Conserves(o, kind, Held(st, ScaleOf(kind)))
  {
    hide Balanced, CheckedSeconds;
    if !IsYearMonth(kind) {
      Divisible(st, kind);
    }
  }

  lemma {:induction false} UnitIsOneOf(kind: Kind)
    requires !IsYearMonth(kind)
    ensures UnitSeconds(kind) in {1, 60, 3600, 86400}
  {
  }

  lemma {:induction false} FinishConserves(st: State, kind: Kind)
    requires BetweenItems(st) && NeedsRebalancing(st, kind)
    requires FieldsOf(kind).second || !st.hasFraction
    ensures var total := Held(st, InSeconds);
            var o := Finish(st, kind);
            && (Conserves(o, kind, total) <==> total <= MAX_U32)
            && (o.Parsed? ==> IsMixedRadix(o.ivl) && o.ivl.kind == kind && o.ivl.negative == (st.sign < 0)
                              && o.ivl.fraction == st.fraction)
  {
    hide IsMixedRadix, Magnitude;
    var total, unit := Held(st, InSeconds), UnitSeconds(kind);
    CheckedSumIsExact(st.yearOrDay, st.monthOrHour, st.minute, st.second);
    match CheckedSeconds(st.yearOrDay, st.monthOrHour, st.minute, st.second)
    case None =>
    case Some(secs) =>
      hide CheckedSeconds, Held, FieldsOf;
      BalancedIsFloor(kind, st.sign < 0, secs, st.fraction);
      UnitIsOneOf(kind);
      Cut(secs, unit);
      Cut(total, unit);
  }

  // ---- what rebalancing conserves -------------------------------------------------------------

  lemma {:induction false} BalancedKeeps(kind: Kind, negative: bool, secs: u32, fraction: u32)
    ensures var ivl := Balanced(kind, negative, secs, fraction);
            ivl.kind == kind && ivl.negative == negative && ivl.fraction == fraction
  {
    hide FieldsOf;
  }

  /** Whatever fields a text sets, years and months included: a value that needs rebalancing is parsed
      exactly if the checked sum of its storage holds and the last number has no point the type cannot
      hold. It is then the mixed-radix form of the time in storage, exactly when that fits 32 bits. */
  lemma {:induction false} StorageIsConserved(d: Duration, kind: Kind, precision: SecondPrecision)
    requires IsWellFormed(d) && Rebalances(d, kind)
    ensures var o, total := ParseIso(Render(d), kind, precision), OverlaidSeconds(d);
            && (o.Parsed? <==> OverlaidSum(d).Some? && !IsRefused(d, kind))
            && (o == Overflow <==> OverlaidSum(d).None?)
            && (o.Parsed? ==> IsMixedRadix(o.ivl) && o.ivl.negative == IsNegative(d)
                              && o.ivl.fraction == FractionOf(d, precision) && Magnitude(o.ivl) <= MAX_U32)
            && (!IsRefused(d, kind) ==> (Conserves(o, kind, total) <==> total <= MAX_U32))
  {
    ParsesAsUnderstood(d, kind, precision);
    hide ParseIso, Render, IsWellFormed, Overlaid, FractionOf, IsRefused, CodeOf, CheckedSeconds, Balanced, FieldsIn,
         IsNegative, FieldsOf, Pow10, IsMixedRadix, Magnitude, DaySeconds, UnitSeconds;
    var total, unit := OverlaidSeconds(d), UnitSeconds(kind);
    CheckedSumIsExact(Overlaid(d, DaySlot), Overlaid(d, HourSlot), Overlaid(d, MinuteSlot), Overlaid(d, SecondSlot));
    UnitIsOneOf(kind);
    Cut(total, unit);
    match OverlaidSum(d)
    case None =>
    case Some(secs) =>
      BalancedIsFloor(kind, IsNegative(d), secs, FractionOf(d, precision));
      BalancedKeeps(kind, IsNegative(d), secs, FractionOf(d, precision));
      Cut(secs, unit);
  }

  /** Without years and months, what storage holds is what the text denotes, but for what vanishes. */
  lemma {:induction false} StorageIsMeaning(d: Duration, precision: SecondPrecision)
    requires IsWellFormed(d) && OnScale(FieldsIn(d), InSeconds)
    ensures OverlaidSeconds(d) + Loss(d, InSeconds) == Denotes(d, InSeconds)
  {
    hide Meaning, Overlaid, IsWellFormed, OnScale, UnsetIsZero, Loss, Denotes;
    Accepts(d, precision);
    StoredSlots(d, precision);
    ScannerHoldsMeaning(d, InSeconds, precision);
  }

  /** A value whose fields are not those of its day-second type, and that does not end in a fraction the
      type cannot hold, is rebalanced. That conserves the time written, cut to the smallest field, exactly
      when the total fits 32 bits; the result is always in mixed radix. */
  lemma {:induction false} RebalancingConservesTime(d: Duration, kind: Kind, precision: SecondPrecision)
    requires IsWellFormed(d) && Rebalances(d, kind) && OnScale(FieldsIn(d), InSeconds) && !IsRefused(d, kind)
    ensures var o, total := ParseIso(Render(d), kind, precision), Denotes(d, InSeconds);
            && (Conserves(o, kind, total) <==> total <= MAX_U32)
            && (o.Parsed? ==> IsMixedRadix(o.ivl) && o.ivl.negative == IsNegative(d)
                              && o.ivl.fraction == FractionOf(d, precision))
  {
    hide ParseIso, Render, IsWellFormed, FieldsIn, IsNegative, IsRefused, OverlaidSum, OverlaidSeconds, Loss, Denotes,
         IsMixedRadix, Magnitude, FieldsOf, FractionOf, UnitSeconds, OnScale;
    StorageIsConserved(d, kind, precision);
    StorageIsMeaning(d, precision);
    LossIsVanishing(d, InSeconds);
    UnitIsOneOf(kind);
    Cut(Denotes(d, InSeconds), UnitSeconds(kind));
  }

  /** The rebalanced value is the only mixed-radix value of its type that denotes the same time. */
  lemma {:induction false} RebalancedIsUnique(d: Duration, kind: Kind, precision: SecondPrecision, ivl: Interval)
    requires IsWellFormed(d) && Rebalances(d, kind) && OnScale(FieldsIn(d), InSeconds) && !IsRefused(d, kind)
    requires Denotes(d, InSeconds) <= MAX_U32
    requires ivl.kind == kind && IsMixedRadix(ivl) && ivl.negative == IsNegative(d)
    requires ivl.fraction == FractionOf(d, precision)
    requires Magnitude(ivl) == Denotes(d, InSeconds) / UnitSeconds(kind) * UnitSeconds(kind)
    ensures ParseIso(Render(d), kind, precision) == Parsed(ivl, CodeOf(d, precision))
  {
    var o := ParseIso(Render(d), kind, precision);
    RebalancingConservesTime(d, kind, precision);
    ParsesAsUnderstood(d, kind, precision);
    hide ParseIso, Render, Denotes, OnScale, OverlaidSum, Balanced, Overlaid, FractionOf, IsNegative, CodeOf, FieldsIn,
         IsWellFormed;
    MixedRadixIsUnique(ivl, o.ivl);
  }

  lemma {:induction false} ScaleOfKind(fields: Mask, kind: Kind)
    requires fields.Within(FieldsOf(kind))
    ensures OnScale(fields, ScaleOf(kind))
  {
  }

  /** A value whose fields are those of the type - for years and months, are among them - is parsed. It
      is stored as written, whatever its size, exactly if no number in it is a `-` before 2^63. */
  lemma {:induction false} ExactFieldsConserve(d: Duration, kind: Kind, precision: SecondPrecision)
    requires IsWellFormed(d) && !Rebalances(d, kind) && FieldsIn(d).Within(FieldsOf(kind))
    ensures var o, amount := ParseIso(Render(d), kind, precision), Denotes(d, ScaleOf(kind));
            && o.Parsed? && o.ivl.negative == IsNegative(d) && o.ivl.fraction == FractionOf(d, precision)
            && Magnitude(o.ivl) + Loss(d, ScaleOf(kind)) == amount
            && (Magnitude(o.ivl) == amount <==> NoneVanishes(AllItems(d)))
            && (Conserves(o, kind, amount) <==> NoneVanishes(AllItems(d)))
  {
    hide Run, Meaning, Held, Render, UnsetIsZero, Loss, Denotes, IsWellFormed, FieldsIn, IsNegative, FractionOf,
         Magnitude, CodeOf, Overlaid, FieldsOf, NoneVanishes, UnitSeconds;
    Accepts(d, precision);
    ScanDuration(d, precision);
    var st := Meaning(d, precision).value;
    ScaleOfKind(FieldsIn(d), kind);
    ScannerHoldsMeaning(d, ScaleOf(kind), precision);
    LossIsVanishing(d, ScaleOf(kind));
    StoredAsHeld(st, kind);
    ParsesAsUnderstood(d, kind, precision);
    if !IsYearMonth(kind) {
      UnitIsOneOf(kind);
      Cut(Denotes(d, InSeconds), UnitSeconds(kind));
    }
  }

  /** A text is parsed as a type of years and months exactly if it names no other fields. */
  lemma {:induction false} ParsedFields(d: Duration, kind: Kind, precision: SecondPrecision)
    requires IsWellFormed(d) && !Rebalances(d, kind)
    ensures ParseIso(Render(d), kind, precision)
            == if FieldsIn(d).Within(FieldsOf(kind)) then Understood(d, kind, precision) else Malformed
    ensures ParseIso(Render(d), kind, precision).Parsed? <==> FieldsIn(d).Within(FieldsOf(kind))
  {
    ParsesAsUnderstood(d, kind, precision);
    hide ParseIso, Render, Overlaid, FractionOf, IsNegative, CodeOf, FieldsIn, FieldsOf, IsWellFormed;
  }

  // ---- the fraction and the return code -------------------------------------------------------

  /** A fraction that a type without seconds cannot hold is refused exactly if the last number has a
      decimal point; otherwise the value, if its time fits, is parsed with that fraction in it. */
  lemma {:induction false} FractionRefused(d: Duration, kind: Kind, precision: SecondPrecision)
    requires IsWellFormed(d) && Rebalances(d, kind) && !FieldsOf(kind).second && OverlaidSeconds(d) <= MAX_U32
    ensures var o := ParseIso(Render(d), kind, precision);
            && (o == Malformed <==> EndsInPoint(d))
            && (!EndsInPoint(d) ==> o.Parsed? && o.ivl.fraction == FractionOf(d, precision))
  {
    hide ParseIso, Render, Overlaid, FractionOf, IsNegative, CodeOf, FieldsIn, FieldsOf, IsWellFormed, Balanced,
         CheckedSeconds, DaySeconds, EndsInPoint;
    CheckedSumIsExact(Overlaid(d, DaySlot), Overlaid(d, HourSlot), Overlaid(d, MinuteSlot), Overlaid(d, SecondSlot));
    ParsesAsUnderstood(d, kind, precision);
    match OverlaidSum(d)
    case None =>
    case Some(secs) => BalancedKeeps(kind, IsNegative(d), secs, FractionOf(d, precision));
  }

  /** The return code is that of the last number, and is not set if there is none. */
  lemma {:induction false} ReturnCode(d: Duration, kind: Kind, precision: SecondPrecision)
    requires IsWellFormed(d) && ParseIso(Render(d), kind, precision).Parsed?
    ensures ParseIso(Render(d), kind, precision).code == CodeOf(d, precision)
    ensures ParseIso(Render(d), kind, precision).code == Unset <==> AllItems(d) == []
  {
    hide ParseIso, Render, Overlaid, FractionOf, IsNegative, FieldsIn, FieldsOf, IsWellFormed, Balanced, OverlaidSum,
         EndsInPoint;
    ParsesAsUnderstood(d, kind, precision);
  }
}
