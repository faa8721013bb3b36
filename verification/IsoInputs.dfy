/** ISO 8601 texts that are not stored as what they say. */
module IsoInputs {
  import opened Decimals
  import opened Intervals
  import opened IsoGrammar
  import opened IsoMeaning
  import opened IsoNumbers
  import opened IsoParser
  import opened IsoShapes
  import opened Rebalancing
  import opened Wrappers

  /** A whole number of one digit. */
  lemma {:induction false} OneDigit(c: char)
    requires IsDigit(c)
    ensures IsNumber([c]) && !HasPoint([c]) && InRange([c]) && !CountsAsNegative([c]) && Kept([c]) == DigitValue(c)
    ensures WholeValue([c]) == DigitValue(c) && !Vanishes([c])
  {
    assert [c][..0] == "" && Value("") == 0;
    assert IndexOf([c], '.') == 1;
  }

  lemma {:induction false} OneItem(item: Item, half: Mode)
    requires IsItem(item, half)
    ensures AreItems([item], half) && AreItems([], half)
  {
    hide IsItem, FieldNamed;
  }

  lemma {:induction false} TwoItems(a: Item, b: Item, half: Mode)
    requires IsItem(a, half) && IsItem(b, half) && FieldNamed(a.unit, half) != FieldNamed(b.unit, half)
    ensures AreItems([a, b], half) && AreItems([], half)
  {
    hide IsItem, FieldNamed;
  }

  /** What two items name and leave behind. */
  lemma {:induction false} TwoLeave(a: Item, b: Item, half: Mode, f: Field, g: Field, precision: SecondPrecision)
    requires FieldNamed(a.unit, half) == Some(f) && FieldNamed(b.unit, half) == Some(g)
    ensures FieldsNamed([a, b], half, NO_FIELDS) == NO_FIELDS.With(f).With(g)
    ensures forall slot :: LastIn([a, b], half, slot, 0)
                        == if SlotOf(g) == slot then Kept(b.number) else if SlotOf(f) == slot then Kept(a.number) else 0
    ensures LastFraction([a, b], 0, precision)
         == if HasPoint(b.number) then FractionAt(b.number, precision)
            else if HasPoint(a.number) then FractionAt(a.number, precision) else 0
  {
    hide FieldNamed, HasPoint, Kept, FractionAt;
    assert [a, b][1..] == [b] && [b][1..] == [];
    forall slot
      ensures LastIn([a, b], half, slot, 0)
           == if SlotOf(g) == slot then Kept(b.number) else if SlotOf(f) == slot then Kept(a.number) else 0
    {
      var after := if SlotOf(f) == slot then Kept(a.number) else 0;
      assert Fills(a, half, slot) == (SlotOf(f) == slot) && Fills(b, half, slot) == (SlotOf(g) == slot);
      assert LastIn([a, b], half, slot, 0) == LastIn([b], half, slot, after);
      var last := if SlotOf(g) == slot then Kept(b.number) else after;
      assert LastIn([b], half, slot, after) == LastIn([], half, slot, last);
    }
    assert FieldsNamed([a, b], half, NO_FIELDS) == FieldsNamed([b], half, NO_FIELDS.With(f));
    assert FieldsNamed([b], half, NO_FIELDS.With(f)) == FieldsNamed([], half, NO_FIELDS.With(f).With(g));
    var first := if HasPoint(a.number) then FractionAt(a.number, precision) else 0;
    assert LastFraction([a, b], 0, precision) == LastFraction([b], first, precision);
    var second := if HasPoint(b.number) then FractionAt(b.number, precision) else first;
    assert LastFraction([b], first, precision) == LastFraction([], second, precision);
  }

  lemma {:induction false} NoneLeave(half: Mode, fields: Mask, before: u32, precision: SecondPrecision)
    ensures FieldsNamed([], half, fields) == fields
    ensures forall slot :: LastIn([], half, slot, before) == before
    ensures LastFraction([], before, precision) == before
  {
  }

  lemma {:induction false} TwoRendered(a: Item, b: Item)
    ensures RenderItems([a, b]) == a.number + [a.unit] + (b.number + [b.unit])
  {
    assert [a, b][1..] == [b] && [b][1..] == [];
    assert RenderItems([b]) == b.number + [b.unit];
  }

  // ---- years and days -------------------------------------------------------------------------

  lemma {:induction false} YearLetters()
    ensures FieldNamed('Y', Period) == Some(Year) && FieldNamed('D', Period) == Some(Day)
    ensures FieldNamed('S', Time) == Some(Second) && FieldNamed('M', Time) == Some(Minute)
  {
  }

  lemma {:induction false} FiveChars(p: char, a: char, u: char, b: char, v: char)
    ensures [p] + ([a] + [u] + ([b] + [v])) == [p, a, u, b, v]
  {
  }

  lemma {:induction false} DaysBalanced(days: nat)
    requires days < 10
    ensures Balanced(Single(Day), false, 86400 * days, 0) == Interval(Single(Day), false, days, 0, 0, 0, 0)
  {
  }

  lemma {:induction false} DaysUnderstood(d: Duration, days: nat, precision: SecondPrecision)
    requires Rebalances(d, Single(Day)) && !IsNegative(d) && !EndsInPoint(d) && FractionOf(d, precision) == 0
    requires Overlaid(d, DaySlot) == days < 10
    requires Overlaid(d, HourSlot) == 0 && Overlaid(d, MinuteSlot) == 0 && Overlaid(d, SecondSlot) == 0
    ensures Understood(d, Single(Day), precision)
         == Parsed(Interval(Single(Day), false, days, 0, 0, 0, 0), CodeOf(d, precision))
  {
    hide Rebalances, IsNegative, EndsInPoint, Overlaid, FractionOf, CodeOf, CheckedSeconds, Balanced, FieldsOf;
    CheckedSumIsExact(days, 0, 0, 0);
    DaysBalanced(days);
  }

  lemma {:induction false} NoItemsAreItems(half: Mode)
    ensures AreItems([], half)
  {
  }

  lemma {:induction false} TwoDates(x: Item, y: Item, d: Duration)
    requires d == Duration('P', [x, y], false, 'T', [])
    requires IsItem(x, Period) && IsItem(y, Period) && FieldNamed(x.unit, Period) != FieldNamed(y.unit, Period)
    requires !CountsAsNegative(x.number) && !CountsAsNegative(y.number) && !HasPoint(y.number)
    ensures Render(d) == ['P'] + (x.number + [x.unit] + (y.number + [y.unit])) && IsWellFormed(d)
    ensures !IsNegative(d) && !EndsInPoint(d)
    ensures forall precision: SecondPrecision :: CodeOf(d, precision) == Success
  {
    hide FieldNamed, IsItem, HasPoint, CountsAsNegative, RenderItems;
    TwoItems(x, y, Period);
    TwoRendered(x, y);
    assert AllItems(d) == [x, y] && TimeItems(d) == [];
    NoItemsAreItems(Time);
    hide AreItems;
  }

  lemma {:induction false} TwoFields(x: Item, y: Item, f: Field, g: Field, d: Duration, precision: SecondPrecision)
    requires d.date == [x, y] && !d.hasTime
    requires FieldNamed(x.unit, Period) == Some(f) && FieldNamed(y.unit, Period) == Some(g)
    requires ((f == Year && g == Day) || (f == Day && g == Year)) && !HasPoint(x.number) && !HasPoint(y.number)
    ensures FieldsIn(d) == Mask(true, false, true, false, false, false)
    ensures Overlaid(d, DaySlot) == Kept(y.number)
    ensures Overlaid(d, HourSlot) == 0 && Overlaid(d, MinuteSlot) == 0 && Overlaid(d, SecondSlot) == 0
    ensures FractionOf(d, precision) == 0
  {
    hide FieldNamed, HasPoint, Kept, FractionAt, LastIn, FieldsNamed, LastFraction;
    TwoLeave(x, y, Period, f, g, precision);
    assert AllItems(d) == [x, y] && TimeItems(d) == [];
    forall slot
      ensures Overlaid(d, slot) == LastIn([x, y], Period, slot, 0)
    {
      NoneLeave(Time, NO_FIELDS, LastIn([x, y], Period, slot, 0), precision);
    }
    NoneLeave(Time, FieldsNamed([x, y], Period, NO_FIELDS), 0, precision);
  }

  lemma {:induction false} DateParses(a: char, u: char, f: Field, b: char, v: char, g: Field,
                                      precision: SecondPrecision)
    requires IsDigit(a) && IsDigit(b) && ((f == Year && g == Day) || (f == Day && g == Year))
    requires FieldNamed(u, Period) == Some(f) && FieldNamed(v, Period) == Some(g)
    ensures ParseIso(['P', a, u, b, v], Single(Day), precision)
         == Parsed(Interval(Single(Day), false, DigitValue(b), 0, 0, 0, 0), Success)
  {
    var x, y := Item([a], u), Item([b], v);
    var d := Duration('P', [x, y], false, 'T', []);
    OneDigit(a);
    OneDigit(b);
    hide ParseIso, FieldNamed, IsNumber, InRange, HasPoint, Kept, CountsAsNegative, FieldsIn, Overlaid, FractionOf,
         CheckedSeconds, RenderItems, Render, IsWellFormed, IsNegative, EndsInPoint, CodeOf, Understood;
    TwoDates(x, y, d);
    TwoFields(x, y, f, g, d, precision);
    ParsesAsUnderstood(d, Single(Day), precision);
    assert Rebalances(d, Single(Day));
    DaysUnderstood(d, DigitValue(b), precision);
    hide *;
    FiveChars('P', a, u, b, v);
  }

  /** Of years and days the later number is stored: `P1Y2D` is two days, `P2D1Y` one. */
  lemma {:induction false} LaterOverwrites(precision: SecondPrecision)
    ensures ParseIso("P1Y2D", Single(Day), precision)
         == Parsed(Interval(Single(Day), false, 2, 0, 0, 0, 0), Success)
    ensures ParseIso("P2D1Y", Single(Day), precision)
         == Parsed(Interval(Single(Day), false, 1, 0, 0, 0, 0), Success)
  {
    hide ParseIso;
    DateParses('1', 'Y', Year, '2', 'D', Day, precision);
    DateParses('2', 'D', Day, '1', 'Y', Year, precision);
    assert ['P', '1', 'Y', '2', 'D'] == "P1Y2D" && ['P', '2', 'D', '1', 'Y'] == "P2D1Y";
  }

  // ---- a fraction without seconds -------------------------------------------------------------

  const HALF_SECOND := "1.500000"

  lemma {:induction false} Decimals500000()
    ensures AllDigits("500000") && Value("500000") == 500_000 && |"500000"| == 6
  {
    var s := "500000";
    assert s[..5] == "50000" && s[..5][..4] == "5000" && s[..5][..4][..3] == "500";
    assert Value("") == 0;
    assert Value("5") == 5;
    assert "50"[..1] == "5" && Value("50") == 50;
    assert "500"[..2] == "50" && Value("500") == 500;
    assert "5000"[..3] == "500" && Value("5000") == 5000;
    assert "50000"[..4] == "5000" && Value("50000") == 50000;
    assert s[..5] == "50000" && Value(s) == 500000;
  }

  /** Half a second and a whole one, with six decimals. */
  lemma {:induction false} HalfSecond()
    ensures IsNumber(HALF_SECOND) && HasPoint(HALF_SECOND) && InRange(HALF_SECOND) && !CountsAsNegative(HALF_SECOND)
    ensures Kept(HALF_SECOND) == 1 && FractionAt(HALF_SECOND, 6) == 500_000
  {
    var n := HALF_SECOND;
    assert n == "1" + ".500000";
    IndexAfter("1", ".500000");
    assert n[..1] == "1" && n[2..] == "500000";
    OneDigit('1');
    assert Value("1") == 1;
    Decimals500000();
    hide Value, Pow10;
    assert Places(n) == "500000";
    assert WholeDigits(n) == "1";
    RescaleToSame(500_000, 6);
  }

  lemma {:induction false} TwoMinutesUnderstood(d: Duration)
    requires FieldsIn(d) == Mask(false, false, false, false, true, true) && !IsNegative(d) && !EndsInPoint(d)
    requires Overlaid(d, MinuteSlot) == 2 && Overlaid(d, SecondSlot) == 1
    requires Overlaid(d, DaySlot) == 0 && Overlaid(d, HourSlot) == 0
    requires CodeOf(d, 6) == Success && FractionOf(d, 6) == 500_000
    ensures Understood(d, HourToMinute, 6) == Parsed(Interval(HourToMinute, false, 0, 0, 2, 0, 500_000), Success)
  {
    CheckedSumIsExact(0, 0, 2, 1);
    hide FieldsIn, IsNegative, EndsInPoint, Overlaid, FractionOf, CodeOf, CheckedSeconds;
  }

  lemma {:induction false} NothingRendered()
    ensures RenderItems([]) == ""
  {
  }

  lemma {:induction false} TwoTimes(x: Item, y: Item, d: Duration)
    requires d == Duration('P', [], true, 'T', [x, y])
    requires IsItem(x, Time) && IsItem(y, Time) && FieldNamed(x.unit, Time) != FieldNamed(y.unit, Time)
    requires !CountsAsNegative(x.number) && !CountsAsNegative(y.number) && !HasPoint(y.number)
    ensures Render(d) == ['P', 'T'] + (x.number + [x.unit] + (y.number + [y.unit])) && IsWellFormed(d)
    ensures !IsNegative(d) && !EndsInPoint(d)
    ensures forall precision: SecondPrecision :: CodeOf(d, precision) == Success
  {
    hide FieldNamed, IsItem, HasPoint, CountsAsNegative, RenderItems;
    TwoItems(x, y, Time);
    TwoRendered(x, y);
    NothingRendered();
    assert AllItems(d) == [x, y] && TimeItems(d) == [x, y];
    NoItemsAreItems(Period);
    hide AreItems;
  }

  lemma {:induction false} TimeFields(x: Item, y: Item, d: Duration, precision: SecondPrecision)
    requires d.date == [] && d.hasTime && d.time == [x, y]
    requires FieldNamed(x.unit, Time) == Some(Second) && FieldNamed(y.unit, Time) == Some(Minute)
    requires HasPoint(x.number) && !HasPoint(y.number)
    ensures FieldsIn(d) == Mask(false, false, false, false, true, true)
    ensures Overlaid(d, MinuteSlot) == Kept(y.number) && Overlaid(d, SecondSlot) == Kept(x.number)
    ensures Overlaid(d, DaySlot) == 0 && Overlaid(d, HourSlot) == 0
    ensures FractionOf(d, precision) == FractionAt(x.number, precision)
  {
    hide FieldNamed, HasPoint, Kept, FractionAt, LastIn, FieldsNamed, LastFraction;
    TwoLeave(x, y, Time, Second, Minute, precision);
    NoneLeave(Period, NO_FIELDS, 0, precision);
    assert AllItems(d) == [x, y] && TimeItems(d) == [x, y];
  }

  /** A fraction is kept in a type without seconds if another number follows it. */
  lemma {:induction false} FractionSlipsIn()
    ensures ParseIso("PT1.500000S2M", HourToMinute, 6)
         == Parsed(Interval(HourToMinute, false, 0, 0, 2, 0, 500_000), Success)
  {
    var x, y := Item(HALF_SECOND, 'S'), Item("2", 'M');
    var d := Duration('P', [], true, 'T', [x, y]);
    hide ParseIso, FieldNamed, IsNumber, InRange, HasPoint, Kept, CountsAsNegative, FieldsIn, Overlaid, FractionOf,
         CheckedSeconds, RenderItems, Render, IsWellFormed, IsNegative, EndsInPoint, CodeOf, Understood, FractionAt,
         FieldsOf;
    HalfSecond();
    OneDigit('2');
    assert "2" == ['2'];
    YearLetters();
    TwoTimes(x, y, d);
    assert ['P', 'T'] + (x.number + ['S'] + (y.number + ['M'])) == "PT1.500000S2M";
    TimeFields(x, y, d, 6);
    ParsesAsUnderstood(d, HourToMinute, 6);
    CheckedSumIsExact(0, 0, 2, 1);
    TwoMinutesUnderstood(d);
  }

  // ---- a number that vanishes -----------------------------------------------------------------

  lemma {:induction false} MinusText(digits: string)
    ensures ['P'] + ("-" + digits) + ['D'] == "P-" + digits + "D"
  {
  }

  lemma {:induction false} OneDate(x: Item, d: Duration)
    requires d == Duration('P', [x], false, 'T', [])
    requires IsNumber(x.number) && InRange(x.number) && !HasPoint(x.number) && FieldNamed(x.unit, Period).Some?
    ensures Render(d) == ['P'] + x.number + [x.unit] && IsWellFormed(d)
    ensures IsNegative(d) == CountsAsNegative(x.number)
    ensures forall precision: SecondPrecision :: CodeOf(d, precision) == Success
  {
    hide FieldNamed, IsNumber, InRange, HasPoint, CountsAsNegative;
    OneItem(x, Period);
    assert [x][1..] == [] && AllItems(d) == [x] && TimeItems(d) == [];
    assert RenderItems([x]) == x.number + [x.unit];
    hide AreItems;
  }

  lemma {:induction false} ExactlyUnderstood(d: Duration, kind: Kind, precision: SecondPrecision)
    requires FieldsIn(d) == FieldsOf(kind)
    ensures Understood(d, kind, precision)
         == Parsed(Interval(kind, IsNegative(d), Overlaid(d, DaySlot), Overlaid(d, HourSlot), Overlaid(d, MinuteSlot),
                            Overlaid(d, SecondSlot), FractionOf(d, precision)), CodeOf(d, precision))
  {
    hide FieldsIn, FieldsOf, IsNegative, Overlaid, FractionOf, CodeOf, CheckedSeconds, Balanced;
  }

  /** A whole number with a `-`. */
  lemma {:induction false} MinusNumber(digits: string)
    requires IsNumeral(digits)
    ensures var n := "-" + digits;
            IsNumber(n) && !HasPoint(n) && IsMinus(n) && WholeDigits(n) == digits && Places(n) == ""
  {
    var n := "-" + digits;
    assert n[1..] == digits && IsDigit(digits[0]);
    forall k | 0 <= k < |n|
      ensures n[k] != '.'
    {
      assert k > 0 ==> n[k] == digits[k - 1];
    }
    IndexAfter(n, "");
    assert n + "" == n && n[..|n|] == n;
    hide IndexOf;
  }

  lemma {:induction false} EmptyValue()
    ensures Value("") == 0
  {
  }

  lemma {:induction false} VanishingNumber()
    ensures var n := "-" + Print(MIN_I64_MAGNITUDE);
            IsNumber(n) && !HasPoint(n) && InRange(n) && CountsAsNegative(n) && Kept(n) == 0 && Vanishes(n)
  {
    hide IsNumber, Print, Value, HasPoint, Places, WholeDigits;
    PrintDenotes(MIN_I64_MAGNITUDE);
    MinusNumber(Print(MIN_I64_MAGNITUDE));
    EmptyValue();
  }

  lemma {:induction false} DayField(x: Item, d: Duration, precision: SecondPrecision)
    requires d.date == [x] && !d.hasTime && FieldNamed(x.unit, Period) == Some(Day) && !HasPoint(x.number)
    ensures FieldsIn(d) == FieldsOf(Single(Day)) && Overlaid(d, DaySlot) == Kept(x.number)
    ensures Overlaid(d, HourSlot) == 0 && Overlaid(d, MinuteSlot) == 0 && Overlaid(d, SecondSlot) == 0
    ensures FractionOf(d, precision) == 0
  {
    hide FieldNamed, HasPoint, Kept, FractionAt;
    assert AllItems(d) == [x] && TimeItems(d) == [] && [x][1..] == [];
    forall slot
      ensures Overlaid(d, slot) == if slot == DaySlot then Kept(x.number) else 0
    {
      var day := if slot == DaySlot then Kept(x.number) else 0;
      assert LastIn([x], Period, slot, 0) == LastIn([], Period, slot, day);
      NoneLeave(Period, NO_FIELDS, day, precision);
      NoneLeave(Time, NO_FIELDS, day, precision);
    }
    assert FieldsNamed([x], Period, NO_FIELDS) == FieldsNamed([], Period, NO_FIELDS.With(Day));
    assert LastFraction([x], 0, precision) == LastFraction([], 0, precision);
  }

  /** `P-9223372036854775808D`: the number passes the range check of 32 bits and is stored as zero. */
  lemma {:induction false} DaysVanish(precision: SecondPrecision)
    ensures ParseIso("P-" + Print(MIN_I64_MAGNITUDE) + "D", Single(Day), precision)
         == Parsed(Interval(Single(Day), true, 0, 0, 0, 0, 0), Success)
  {
    var x := Item("-" + Print(MIN_I64_MAGNITUDE), 'D');
    var d := Duration('P', [x], false, 'T', []);
    hide *;
    VanishingNumber();
    YearLetters();
    OneDate(x, d);
    DayField(x, d, precision);
    ParsesAsUnderstood(d, Single(Day), precision);
    ExactlyUnderstood(d, Single(Day), precision);
    MinusText(Print(MIN_I64_MAGNITUDE));
  }

  // ---- no number at all -----------------------------------------------------------------------

  lemma {:induction false} NoNumbers(d: Duration, precision: SecondPrecision)
    requires d.p == 'P' && d.t == 'T' && d.date == [] && d.time == []
    ensures IsWellFormed(d) && Render(d) == if d.hasTime then "PT" else "P"
    ensures Understood(d, Single(Day), precision) == Parsed(Interval(Single(Day), false, 0, 0, 0, 0, 0), Unset)
  {
    NothingRendered();
    assert AllItems(d) == [] && TimeItems(d) == [];
    NoneLeave(Period, NO_FIELDS, 0, precision);
    NoneLeave(Time, NO_FIELDS, 0, precision);
    hide CheckedSeconds, RenderItems, LastIn, LastFraction, FieldsNamed, Pow10, FieldNamed, Understood;
    assert FieldsIn(d) == NO_FIELDS && FractionOf(d, precision) == 0;
    assert Rebalances(d, Single(Day));
    DaysUnderstood(d, 0, precision);
    hide *;
  }

  /** Texts without a number are parsed, and their return code is not set. */
  lemma {:induction false} NothingIsParsed(precision: SecondPrecision)
    ensures ParseIso("P", Single(Day), precision) == Parsed(Interval(Single(Day), false, 0, 0, 0, 0, 0), Unset)
    ensures ParseIso("PT", Single(Day), precision) == Parsed(Interval(Single(Day), false, 0, 0, 0, 0, 0), Unset)
  {
    hide ParseIso, Understood, Render;
    var d, e := Duration('P', [], false, 'T', []), Duration('P', [], true, 'T', []);
    NoNumbers(d, precision);
    NoNumbers(e, precision);
    ParsesAsUnderstood(d, Single(Day), precision);
    ParsesAsUnderstood(e, Single(Day), precision);
  }
}
