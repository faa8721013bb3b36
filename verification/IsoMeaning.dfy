/** What a duration denotes, and what the parser stores of it. */
module IsoMeaning {
  import opened Decimals
  import opened Integers
  import opened Intervals
  import opened IsoGrammar
  import opened IsoNumbers
  import opened IsoParser
  import opened IsoShapes
  import opened Wrappers

  // ---- the amount a text denotes --------------------------------------------------------------

  datatype Scale = InSeconds | InMonths

  function Weight(scale: Scale, f: Field): nat {
    match f
    case Year => if scale == InMonths then 12 else 0
    case Month => if scale == InMonths then 1 else 0
    case Day => if scale == InSeconds then 86400 else 0
    case Hour => if scale == InSeconds then 3600 else 0
    case Minute => if scale == InSeconds then 60 else 0
    case Second => if scale == InSeconds then 1 else 0
  }

  /** The item's number, in months or in seconds. */
  function ItemAmount(item: Item, half: Mode, scale: Scale): nat {
    match FieldNamed(item.unit, half)
    case None => 0
    case Some(f) => Times(WholeValue(item.number), Weight(scale, f))
  }

  function ItemsAmount(items: seq<Item>, half: Mode, scale: Scale): nat {
    if items == [] then 0 else ItemAmount(items[0], half, scale) + ItemsAmount(items[1..], half, scale)
  }

  /** The sum of everything written, fractions aside. */
  function Denotes(d: Duration, scale: Scale): nat {
    ItemsAmount(d.date, Period, scale) + ItemsAmount(TimeItems(d), Time, scale)
  }

  /** The part of it that vanishes. */
  function ItemsLoss(items: seq<Item>, half: Mode, scale: Scale): nat {
    if items == [] then 0
    else
      (if Vanishes(items[0].number) then ItemAmount(items[0], half, scale) else 0)
      + ItemsLoss(items[1..], half, scale)
  }

  function Loss(d: Duration, scale: Scale): nat {
    ItemsLoss(d.date, Period, scale) + ItemsLoss(TimeItems(d), Time, scale)
  }

  ghost predicate NoneVanishes(items: seq<Item>) {
    forall i :: 0 <= i < |items| ==> !Vanishes(items[i].number)
  }

  // ---- what is stored -------------------------------------------------------------------------

  /** The interval's storage: years lie over days, and months over hours. */
  datatype Slot = DaySlot | HourSlot | MinuteSlot | SecondSlot

  function SlotOf(f: Field): Slot {
    match f
    case Year | Day => DaySlot
    case Month | Hour => HourSlot
    case Minute => MinuteSlot
    case Second => SecondSlot
  }

  predicate Fills(item: Item, half: Mode, slot: Slot) {
    var f := FieldNamed(item.unit, half);
    f.Some? && SlotOf(f.value) == slot
  }

  /** The last number that goes to a slot. */
  function LastIn(items: seq<Item>, half: Mode, slot: Slot, before: u32): u32 {
    if items == [] then before
    else LastIn(items[1..], half, slot, if Fills(items[0], half, slot) then Kept(items[0].number) else before)
  }

  lemma {:induction false} NoneFills(items: seq<Item>, half: Mode, slot: Slot, before: u32)
    requires forall j :: 0 <= j < |items| ==> !Fills(items[j], half, slot)
    ensures LastIn(items, half, slot, before) == before
  {
    hide Fills, Kept;
    if items != [] {
      NoneFills(items[1..], half, slot, before);
    }
  }

  /** It is the number of the last item that names one of the fields of the slot. */
  lemma {:induction false} LastWins(items: seq<Item>, half: Mode, slot: Slot, before: u32, i: nat)
    requires i < |items| && Fills(items[i], half, slot)
    requires forall j :: i < j < |items| ==> !Fills(items[j], half, slot)
    ensures LastIn(items, half, slot, before) == Kept(items[i].number)
  {
    hide Fills, Kept;
    var next := if Fills(items[0], half, slot) then Kept(items[0].number) else before;
    if i == 0 {
      NoneFills(items[1..], half, slot, next);
    } else {
      LastWins(items[1..], half, slot, next, i - 1);
    }
  }

  function Overlaid(d: Duration, slot: Slot): u32 {
    LastIn(TimeItems(d), Time, slot, LastIn(d.date, Period, slot, 0))
  }

  function LastFraction(items: seq<Item>, before: u32, precision: SecondPrecision): u32 {
    if items == [] then before
    else
      LastFraction(items[1..], if HasPoint(items[0].number) then FractionAt(items[0].number, precision) else before,
                   precision)
  }

  /** The fraction of a second, at the record's precision; at most one item can have one. */
  function FractionOf(d: Duration, precision: SecondPrecision): u32 {
    LastFraction(AllItems(d), 0, precision)
  }

  /** The last number of all has a decimal point. */
  predicate EndsInPoint(d: Duration) {
    var items := AllItems(d);
    items != [] && HasPoint(items[|items| - 1].number)
  }

  /** The return code is that of the last number; without one it is not set. */
  function CodeOf(d: Duration, precision: SecondPrecision): Code {
    var items := AllItems(d);
    if items == [] then Unset else CodeAt(items[|items| - 1].number, precision)
  }

  function InSlot(st: State, slot: Slot): u32 {
    match slot
    case DaySlot => st.yearOrDay
    case HourSlot => st.monthOrHour
    case MinuteSlot => st.minute
    case SecondSlot => st.second
  }

  /** What items leave in the state. */
  ghost predicate Leave(items: seq<Item>, half: Mode, st: State, last: State, precision: SecondPrecision) {
    && (forall slot :: InSlot(last, slot) == LastIn(items, half, slot, InSlot(st, slot)))
    && last.fraction == last.secondFraction == LastFraction(items, st.fraction, precision)
    && last.hasFraction == (if items == [] then st.hasFraction else HasPoint(items[|items| - 1].number))
    && last.code == if items == [] then st.code else CodeAt(items[|items| - 1].number, precision)
  }

  lemma {:induction false} ItemLeaves(st: State, item: Item, precision: SecondPrecision)
    requires BetweenItems(st) && st.fraction == st.secondFraction && ReadItem(st, item, precision).Some?
    ensures var next := ReadItem(st, item, precision).value;
            && (forall slot :: InSlot(next, slot) == if Fills(item, st.mode, slot) then Kept(item.number)
                                                     else InSlot(st, slot))
            && next.fraction == next.secondFraction
               == (if HasPoint(item.number) then FractionAt(item.number, precision) else st.fraction)
            && next.hasFraction == HasPoint(item.number) && next.code == CodeAt(item.number, precision)
            && next.mode == st.mode
  {
    ItemReads(st, item, precision);
    TakenKeeps(st, item, precision);
    hide ReadItem, IsNumber, InRange, Kept, CountsAsNegative, FractionAt, HasPoint, CodeAt, FieldNamed;
  }

  lemma {:induction false} LeaveSplits(items: seq<Item>, half: Mode, st: State, next: State, last: State,
                                       precision: SecondPrecision)
    requires items != [] && Leave(items[1..], half, next, last, precision)
    requires forall slot :: InSlot(next, slot) == if Fills(items[0], half, slot) then Kept(items[0].number)
                                                  else InSlot(st, slot)
    requires next.fraction == if HasPoint(items[0].number) then FractionAt(items[0].number, precision) else st.fraction
    requires next.hasFraction == HasPoint(items[0].number) && next.code == CodeAt(items[0].number, precision)
    ensures Leave(items, half, st, last, precision)
  {
    hide HasPoint, CodeAt, FractionAt, Kept, Fills, InSlot;
    if |items| > 1 {
      assert items[1..][|items| - 2] == items[|items| - 1];
    }
  }

  lemma {:induction false} ItemsLeave(items: seq<Item>, st: State, precision: SecondPrecision)
    requires BetweenItems(st) && st.fraction == st.secondFraction && ReadItems(items, st, precision).Some?
    ensures Leave(items, st.mode, st, ReadItems(items, st, precision).value, precision)
  {
    hide ReadItem, HasPoint, CodeAt, FractionAt, Kept, Fills;
    if items != [] {
      ItemLeaves(st, items[0], precision);
      var next := ReadItem(st, items[0], precision).value;
      ItemsLeave(items[1..], next, precision);
      LeaveSplits(items, st.mode, st, next, ReadItems(items, st, precision).value, precision);
    }
  }

  lemma {:induction false} LastFractionAppends(a: seq<Item>, b: seq<Item>, before: u32, precision: SecondPrecision)
    ensures LastFraction(a + b, before, precision) == LastFraction(b, LastFraction(a, before, precision), precision)
  {
    hide HasPoint, FractionAt;
    if a == [] {
      assert a + b == b;
    } else {
      var next := if HasPoint(a[0].number) then FractionAt(a[0].number, precision) else before;
      assert (a + b)[1..] == a[1..] + b && (a + b)[0] == a[0];
      LastFractionAppends(a[1..], b, next, precision);
    }
  }

  lemma {:induction false} LastFractionFits(items: seq<Item>, before: u32, precision: SecondPrecision)
    requires before < Pow10(precision)
    ensures LastFraction(items, before, precision) < Pow10(precision)
  {
    hide HasPoint, Pow10;
    if items != [] {
      var next := if HasPoint(items[0].number) then FractionAt(items[0].number, precision) else before;
      LastFractionFits(items[1..], next, precision);
    }
  }

  lemma {:induction false} LeaveHalves(d: Duration, mid: State, last: State, precision: SecondPrecision)
    requires Leave(d.date, Period, BEGUN, mid, precision)
    requires Leave(TimeItems(d), Time, mid.(mode := Time), last, precision)
    ensures forall slot :: InSlot(last, slot) == Overlaid(d, slot)
    ensures last.fraction == last.secondFraction == FractionOf(d, precision)
    ensures last.hasFraction == EndsInPoint(d) && last.code == CodeOf(d, precision)
  {
    var timed := mid.(mode := Time);
    forall slot
      ensures InSlot(last, slot) == Overlaid(d, slot)
    {
      assert InSlot(timed, slot) == InSlot(mid, slot) && InSlot(BEGUN, slot) == 0;
    }
    hide HasPoint, CodeAt, FractionAt, LastIn;
    LastFractionAppends(d.date, TimeItems(d), 0, precision);
    var items := AllItems(d);
    if TimeItems(d) != [] {
      assert items[|items| - 1] == TimeItems(d)[|TimeItems(d)| - 1];
    } else {
      assert items == d.date;
    }
  }

  lemma {:induction false} MiddleFraction(d: Duration, mid: State, precision: SecondPrecision)
    requires Leave(d.date, Period, BEGUN, mid, precision)
    ensures mid.fraction == mid.secondFraction
  {
  }

  lemma {:induction false} FractionFitsIn(d: Duration, precision: SecondPrecision)
    ensures FractionOf(d, precision) < Pow10(precision)
  {
    hide Pow10;
    LastFractionFits(AllItems(d), 0, precision);
  }

  /** The scanner's storage after any well-formed duration: of each slot the last number that goes
      there, and the fraction, the point and the return code of the text. */
  lemma {:induction false} StoredAsWritten(d: Duration, precision: SecondPrecision)
    requires Meaning(d, precision).Some?
    ensures var st := Meaning(d, precision).value;
            && (forall slot :: InSlot(st, slot) == Overlaid(d, slot))
            && st.fraction == st.secondFraction == FractionOf(d, precision) < Pow10(precision)
            && st.hasFraction == EndsInPoint(d) && st.code == CodeOf(d, precision)
  {
    hide ReadItems, Meaning, Leave, Overlaid, FractionOf, EndsInPoint, CodeOf;
    var mid := Halves(d, precision);
    ItemsLeave(d.date, BEGUN, precision);
    MiddleFraction(d, mid, precision);
    ItemsLeave(TimeItems(d), mid.(mode := Time), precision);
    LeaveHalves(d, mid, ReadItems(TimeItems(d), mid.(mode := Time), precision).value, precision);
    FractionFitsIn(d, precision);
  }

  // ---- the amount that is stored --------------------------------------------------------------

  function Held(st: State, scale: Scale): nat {
    if scale == InSeconds then DaySeconds(st.yearOrDay, st.monthOrHour, st.minute, st.second)
    else 12 * st.yearOrDay + st.monthOrHour
  }

  /** Only fields of one scale: then no two of them share storage. */
  predicate OnScale(fields: Mask, scale: Scale) {
    if scale == InSeconds then !fields.year && !fields.month
    else !fields.day && !fields.hour && !fields.minute && !fields.second
  }

  /** Storage of fields not yet set is zero. */
  predicate UnsetIsZero(st: State) {
    && (!st.fields.year && !st.fields.day ==> st.yearOrDay == 0)
    && (!st.fields.month && !st.fields.hour ==> st.monthOrHour == 0)
    && (!st.fields.minute ==> st.minute == 0)
    && (!st.fields.second ==> st.second == 0 && st.fraction == 0)
  }

  lemma {:induction false} TimesConstants(n: nat)
    ensures Times(n, 0) == 0 && Times(n, 1) == n && Times(n, 12) == 12 * n && Times(n, 60) == 60 * n
    ensures Times(n, 3600) == 3600 * n && Times(n, 86400) == 86400 * n
  {
  }

  lemma {:induction false} AssignAdds(st: State, f: Field, scale: Scale)
    requires UnsetIsZero(st.(fraction := 0)) && !st.fields.Has(f) && OnScale(st.fields.With(f), scale)
    ensures Held(Assign(st, f), scale) == Held(st, scale) + Times(st.uint, Weight(scale, f))
  {
    hide Times;
    TimesConstants(st.uint);
  }

  lemma {:induction false} KeptOrLost(item: Item, half: Mode, scale: Scale)
    requires IsItem(item, half)
    ensures Times(Kept(item.number), Weight(scale, FieldNamed(item.unit, half).value))
         == if Vanishes(item.number) then 0 else ItemAmount(item, half, scale)
  {
    hide WholeValue, Weight, FieldNamed, IsNumber, DigitsValue, Places;
  }

  /** An item adds what is kept of its number. */
  lemma {:induction false} ItemAdds(st: State, item: Item, scale: Scale, precision: SecondPrecision)
    requires BetweenItems(st) && UnsetIsZero(st) && ReadItem(st, item, precision).Some?
    requires OnScale(ReadItem(st, item, precision).value.fields, scale)
    ensures var next := ReadItem(st, item, precision).value;
            && UnsetIsZero(next) && next.mode == st.mode
            && Held(next, scale) + (if Vanishes(item.number) then ItemAmount(item, st.mode, scale) else 0)
               == Held(st, scale) + ItemAmount(item, st.mode, scale)
  {
    ItemReads(st, item, precision);
    TakenKeeps(st, item, precision);
    KeptOrLost(item, st.mode, scale);
    var f := FieldNamed(item.unit, st.mode).value;
    var taken := TakeNumber(st, WrittenToken(item.number, precision)).value;
    hide ReadItem, IsNumber, InRange, Kept, CountsAsNegative, FractionAt, CodeAt, FieldNamed, Times,
         WholeValue, Vanishes, Weight, ItemAmount;
    AssignAdds(taken, f, scale);
  }

  lemma {:induction false} FieldsGrow(items: seq<Item>, half: Mode, fields: Mask, scale: Scale)
    requires OnScale(FieldsNamed(items, half, fields), scale)
    ensures OnScale(fields, scale)
  {
    hide FieldNamed;
    if items != [] {
      FieldsGrow(items[1..], half,
                 match FieldNamed(items[0].unit, half)
                 case None => fields
                 case Some(f) => fields.With(f), scale);
    }
  }

  lemma {:induction false} ItemsAdd(items: seq<Item>, st: State, scale: Scale, precision: SecondPrecision)
    requires BetweenItems(st) && UnsetIsZero(st) && ReadItems(items, st, precision).Some?
    requires OnScale(ReadItems(items, st, precision).value.fields, scale)
    ensures var last := ReadItems(items, st, precision).value;
            && UnsetIsZero(last)
            && Held(last, scale) + ItemsLoss(items, st.mode, scale)
               == Held(st, scale) + ItemsAmount(items, st.mode, scale)
  {
    hide ReadItem, ItemAmount, Held, UnsetIsZero, FieldsNamed, Vanishes, OnScale;
    if items != [] {
      var next := ReadItem(st, items[0], precision).value;
      ItemKeepsHalf(items[0], st, precision);
      ItemsRead(items[1..], next, precision);
      FieldsGrow(items[1..], st.mode, next.fields, scale);
      ItemAdds(st, items[0], scale, precision);
      ItemsAdd(items[1..], next, scale, precision);
    }
  }

  lemma {:induction false} FreshHoldsNothing(scale: Scale)
    ensures UnsetIsZero(BEGUN) && Held(BEGUN, scale) == 0 && BetweenItems(BEGUN)
  {
  }

  lemma {:induction false} ModeHoldsNothing(st: State, mode: Mode, scale: Scale)
    ensures Held(st.(mode := mode), scale) == Held(st, scale) && UnsetIsZero(st.(mode := mode)) == UnsetIsZero(st)
  {
  }

  /** Of a text of one scale the scanner holds exactly what the text denotes, but for what vanishes. */
  lemma {:induction false} ScannerHoldsMeaning(d: Duration, scale: Scale, precision: SecondPrecision)
    requires Meaning(d, precision).Some? && OnScale(FieldsIn(d), scale)
    ensures var st := Meaning(d, precision).value;
            UnsetIsZero(st) && Held(st, scale) + Loss(d, scale) == Denotes(d, scale)
  {
    hide ReadItems, Meaning, ItemsAmount, ItemsLoss, Held, UnsetIsZero, OnScale, FieldsNamed;
    Accepts(d, precision);
    var mid := Halves(d, precision);
    var timed := mid.(mode := Time);
    var last := ReadItems(TimeItems(d), timed, precision).value;
    ItemsRead(TimeItems(d), timed, precision);
    FieldsGrow(TimeItems(d), Time, mid.fields, scale);
    FreshHoldsNothing(scale);
    ItemsAdd(d.date, BEGUN, scale, precision);
    ModeHoldsNothing(mid, Time, scale);
    ItemsAdd(TimeItems(d), timed, scale, precision);
    ModeHoldsNothing(last, Meaning(d, precision).value.mode, scale);
  }

  lemma {:induction false} FirstNamed(items: seq<Item>, half: Mode, fields: Mask)
    requires items != [] && FieldNamed(items[0].unit, half).Some?
    ensures FieldsNamed(items, half, fields)
         == FieldsNamed(items[1..], half, fields.With(FieldNamed(items[0].unit, half).value))
  {
    hide FieldNamed;
  }

  /** On its scale every field weighs something. */
  lemma {:induction false} FieldWeighs(items: seq<Item>, half: Mode, fields: Mask, scale: Scale)
    requires items != [] && OnScale(FieldsNamed(items, half, fields), scale)
    ensures FieldNamed(items[0].unit, half).Some? ==> Weight(scale, FieldNamed(items[0].unit, half).value) > 0
  {
    var f := FieldNamed(items[0].unit, half);
    hide FieldNamed, FieldsNamed;
    if f.Some? {
      assert FieldsNamed(items, half, fields) == FieldsNamed(items[1..], half, fields.With(f.value)) by {
        FirstNamed(items, half, fields);
      }
      FieldsGrow(items[1..], half, fields.With(f.value), scale);
      assert fields.With(f.value).Has(f.value);
    }
  }

  lemma {:induction false} NamedField(items: seq<Item>, half: Mode) returns (f: Field)
    requires items != [] && AreItems(items, half)
    ensures FieldNamed(items[0].unit, half) == Some(f)
  {
    hide FieldNamed, IsNumber, InRange, HasPoint;
    assert IsItem(items[0], half);
    f := FieldNamed(items[0].unit, half).value;
  }

  lemma {:induction false} VanishingAmount(item: Item, half: Mode, scale: Scale)
    requires var f := FieldNamed(item.unit, half); f.Some? && Weight(scale, f.value) > 0
    ensures Vanishes(item.number) ==> ItemAmount(item, half, scale) >= MIN_I64_MAGNITUDE
  {
    var w := Weight(scale, FieldNamed(item.unit, half).value);
    hide FieldNamed, Weight, WholeValue;
    TimesAtLeast(WholeValue(item.number), w);
    hide Times;
  }

  lemma {:induction false} NoneVanishesSplits(items: seq<Item>)
    requires items != []
    ensures NoneVanishes(items) <==> !Vanishes(items[0].number) && NoneVanishes(items[1..])
  {
    hide Vanishes;
    if !Vanishes(items[0].number) && NoneVanishes(items[1..]) {
      forall i | 0 < i < |items|
        ensures !Vanishes(items[i].number)
      {
        assert items[i] == items[1..][i - 1];
      }
    }
  }

  /** Nothing is lost exactly if no number vanishes, and else at least 2^63. */
  lemma {:induction false} LossOfItems(items: seq<Item>, half: Mode, fields: Mask, scale: Scale)
    requires AreItems(items, half) && OnScale(FieldsNamed(items, half, fields), scale)
    ensures ItemsLoss(items, half, scale) == 0 <==> NoneVanishes(items)
    ensures ItemsLoss(items, half, scale) != 0 ==> ItemsLoss(items, half, scale) >= MIN_I64_MAGNITUDE
  {
    hide FieldNamed, OnScale, FieldsNamed, ItemAmount, Vanishes, IsItem;
    if items != [] {
      var f := NamedField(items, half);
      FieldWeighs(items, half, fields, scale);
      FirstNamed(items, half, fields);
      DateTail(items, half);
      LossOfItems(items[1..], half, fields.With(f), scale);
      VanishingAmount(items[0], half, scale);
      NoneVanishesSplits(items);
    }
  }

  lemma {:induction false} NoneVanishesAppends(a: seq<Item>, b: seq<Item>)
    ensures NoneVanishes(a + b) <==> NoneVanishes(a) && NoneVanishes(b)
  {
    hide Vanishes;
    if NoneVanishes(a + b) {
      forall i | 0 <= i < |a|
        ensures !Vanishes(a[i].number)
      {
        assert a[i] == (a + b)[i];
      }
      forall i | 0 <= i < |b|
        ensures !Vanishes(b[i].number)
      {
        assert b[i] == (a + b)[|a| + i];
      }
    }
  }

  /** The scanner holds the whole amount exactly if no number in the text is a `-` before 2^63. */
  lemma {:induction false} LossIsVanishing(d: Duration, scale: Scale)
    requires IsWellFormed(d) && OnScale(FieldsIn(d), scale)
    ensures Loss(d, scale) == 0 <==> NoneVanishes(AllItems(d))
    ensures Loss(d, scale) != 0 ==> Loss(d, scale) >= MIN_I64_MAGNITUDE
  {
    var date := FieldsNamed(d.date, Period, NO_FIELDS);
    hide FieldsNamed, OnScale, ItemsLoss, NoneVanishes, AreItems, SameSign;
    FieldsGrow(TimeItems(d), Time, date, scale);
    LossOfItems(d.date, Period, NO_FIELDS, scale);
    LossOfItems(TimeItems(d), Time, date, scale);
    NoneVanishesAppends(d.date, TimeItems(d));
  }
}
