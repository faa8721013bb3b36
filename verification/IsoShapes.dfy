/** The durations that are well formed, said without the scanner, and that the scanner accepts just these. */
module IsoShapes {
  import opened Decimals
  import opened Integers
  import opened Intervals
  import opened IsoGrammar
  import opened IsoNumbers
  import opened IsoParser
  import opened Wrappers

  // ---- well-formed durations ------------------------------------------------------------------

  function TimeItems(d: Duration): seq<Item> {
    if d.hasTime then d.time else []
  }

  function AllItems(d: Duration): seq<Item> {
    d.date + TimeItems(d)
  }

  predicate Names(item: Item, half: Mode, f: Field) {
    FieldNamed(item.unit, half) == Some(f)
  }

  /** A number, and a designator of its half; only seconds have a decimal point. */
  predicate IsItem(item: Item, half: Mode) {
    && IsNumber(item.number) && InRange(item.number)
    && FieldNamed(item.unit, half).Some?
    && (HasPoint(item.number) ==> Names(item, half, Second))
  }

  /** Items of one half, no designator used twice. */
  ghost predicate AreItems(items: seq<Item>, half: Mode) {
    && (forall i :: 0 <= i < |items| ==> IsItem(items[i], half))
    && (forall i, j :: 0 <= i < j < |items| ==>
          FieldNamed(items[i].unit, half) != FieldNamed(items[j].unit, half))
  }

  ghost predicate SameSign(items: seq<Item>, negative: bool) {
    forall i :: 0 <= i < |items| ==> CountsAsNegative(items[i].number) == negative
  }

  /** The sign of items is that of the first of them. */
  predicate StartsNegative(items: seq<Item>) {
    items != [] && CountsAsNegative(items[0].number)
  }

  predicate IsNegative(d: Duration) {
    StartsNegative(AllItems(d))
  }

  /** A `P`, date items, and possibly a `T` and time items; all numbers have one sign. */
  ghost predicate IsWellFormed(d: Duration) {
    && (d.p == 'P' || d.p == 'p') && (d.hasTime ==> d.t == 'T' || d.t == 't')
    && AreItems(d.date, Period) && AreItems(TimeItems(d), Time)
    && SameSign(AllItems(d), IsNegative(d))
  }

  /** The sign is the one written exactly if no `-` is before a whole part of zero. */
  lemma {:induction false} SignAsWritten(d: Duration)
    requires IsWellFormed(d)
    ensures var items := AllItems(d);
            (forall i :: 0 <= i < |items| ==> IsMinus(items[i].number) == IsNegative(d))
            <==> (forall i :: 0 <= i < |items| ==> !(IsMinus(items[i].number) && WholeValue(items[i].number) == 0))
  {
    hide IsMinus, WholeValue, AreItems, StartsNegative;
    var items := AllItems(d);
    forall i | 0 <= i < |items|
      ensures (IsMinus(items[i].number) && WholeValue(items[i].number) != 0) == IsNegative(d)
    {
      assert CountsAsNegative(items[i].number) == IsNegative(d);
    }
  }

  /** The fields that items name. */
  function FieldsNamed(items: seq<Item>, half: Mode, before: Mask): Mask {
    if items == [] then before
    else
      FieldsNamed(items[1..], half,
                  match FieldNamed(items[0].unit, half)
                  case None => before
                  case Some(f) => before.With(f))
  }

  function FieldsIn(d: Duration): Mask {
    FieldsNamed(TimeItems(d), Time, FieldsNamed(d.date, Period, NO_FIELDS))
  }

  // ---- one item -------------------------------------------------------------------------------

  ghost predicate SignAgrees(st: State, negative: bool) {
    (st.sign < 0 ==> negative) && (st.sign > 0 ==> !negative)
  }

  lemma {:induction false} NamingDelimits(c: char, half: Mode)
    requires FieldNamed(c, half).Some?
    ensures IsDelimiter(c) && Fold(c) != 'p' && Fold(c) != 't'
  {
  }

  /** The token of a number and its designator. */
  function WrittenToken(number: string, precision: SecondPrecision): Token {
    if IsNumber(number) && InRange(number) then
      Number(|number|, Kept(number), CountsAsNegative(number), FractionAt(number, precision), HasPoint(number),
             CodeAt(number, precision))
    else NoNumber
  }

  lemma {:induction false} TokenIsWritten(item: Item, precision: SecondPrecision)
    requires IsDelimiter(item.unit)
    ensures TokenOf(item, precision) == WrittenToken(item.number, precision)
  {
    NumberReads(item.number, item.unit, precision);
    assert !StartsNumber(item.unit);
    hide ReadToken, IsNumber, InRange, Kept, CountsAsNegative, FractionAt, HasPoint, CodeAt, StartsNumber;
  }

  lemma {:induction false} LetterTaken(st: State, c: char)
    requires st.mode == AfterNumber && (st.saved == Period || st.saved == Time)
    ensures var f := FieldNamed(c, st.saved);
            TakeLetter(st, c)
            == if f.Some? && (st.hasFraction ==> f.value == Second) && !st.fields.Has(f.value)
               then Some(Assign(st, f.value)) else None
  {
    hide Assign;
    if FieldNamed(c, st.saved).Some? {
      NamingDelimits(c, st.saved);
    }
  }

  lemma {:induction false} NumberTaken(st: State, t: Token)
    requires t.Number?
    ensures TakeNumber(st, t).Some? <==> SignAgrees(st, t.negative)
    ensures TakeNumber(st, t).Some? ==>
              var taken := TakeNumber(st, t).value;
              && taken.fields == st.fields && taken.mode == AfterNumber && taken.saved == st.mode
              && taken.hasFraction == t.hasFraction
              && taken.sign != 0 && (taken.sign < 0) == t.negative
  {
  }

  predicate IsFree(item: Item, half: Mode, fields: Mask) {
    FieldNamed(item.unit, half).Some? ==> !fields.Has(FieldNamed(item.unit, half).value)
  }

  /** What an item does to the state: its number is taken, then assigned to the field it names. */
  function Taken(st: State, item: Item, precision: SecondPrecision): State
    requires IsItem(item, st.mode) && SignAgrees(st, CountsAsNegative(item.number))
  {
    NumberTaken(st, WrittenToken(item.number, precision));
    Assign(TakeNumber(st, WrittenToken(item.number, precision)).value, FieldNamed(item.unit, st.mode).value)
  }

  /** The scanner reads an item exactly if it is one, of a field not yet set and with everybody's sign. */
  lemma {:induction false} ItemReads(st: State, item: Item, precision: SecondPrecision)
    requires BetweenItems(st)
    ensures ReadItem(st, item, precision).Some?
       <==> IsItem(item, st.mode) && IsFree(item, st.mode, st.fields) && SignAgrees(st, CountsAsNegative(item.number))
    ensures ReadItem(st, item, precision).Some? ==>
              ReadItem(st, item, precision).value == Taken(st, item, precision)
  {
    hide TokenOf, TakeNumber, TakeLetter, Assign, IsNumber, InRange, Kept, FractionAt, CodeAt, HasPoint,
         CountsAsNegative, SignAgrees;
    if FieldNamed(item.unit, st.mode).Some? {
      NamingDelimits(item.unit, st.mode);
      TokenIsWritten(item, precision);
      var t := WrittenToken(item.number, precision);
      if t.Number? {
        NumberTaken(st, t);
        if TakeNumber(st, t).Some? {
          LetterTaken(TakeNumber(st, t).value, item.unit);
        }
      }
    } else {
      var t := TokenOf(item, precision);
      if t.Number? {
        NumberTaken(st, t);
        if TakeNumber(st, t).Some? {
          LetterTaken(TakeNumber(st, t).value, item.unit);
        }
      }
    }
  }

  lemma {:induction false} TakenKeeps(st: State, item: Item, precision: SecondPrecision)
    requires BetweenItems(st) && IsItem(item, st.mode) && SignAgrees(st, CountsAsNegative(item.number))
    ensures var next := Taken(st, item, precision);
            && next.mode == st.mode && next.fields == st.fields.With(FieldNamed(item.unit, st.mode).value)
            && next.sign != 0 && (next.sign < 0) == CountsAsNegative(item.number)
  {
    hide IsNumber, InRange, Kept, FractionAt, CodeAt, HasPoint, CountsAsNegative, FieldNamed, TakeNumber, SignAgrees;
    NumberTaken(st, WrittenToken(item.number, precision));
  }

  // ---- all items of a half --------------------------------------------------------------------

  ghost predicate AreFree(items: seq<Item>, half: Mode, fields: Mask) {
    forall i :: 0 <= i < |items| ==> IsFree(items[i], half, fields)
  }

  lemma {:induction false} SplitForward(items: seq<Item>, half: Mode, fields: Mask)
    requires items != [] && AreItems(items, half) && AreFree(items, half, fields)
    ensures IsItem(items[0], half) && IsFree(items[0], half, fields) && AreItems(items[1..], half)
    ensures AreFree(items[1..], half, fields.With(FieldNamed(items[0].unit, half).value))
  {
    hide FieldNamed, IsNumber, InRange, HasPoint, Names;
    forall i | 0 <= i < |items| - 1
      ensures items[1..][i] == items[i + 1]
    {
    }
  }

  lemma {:induction false} SplitBackward(items: seq<Item>, half: Mode, fields: Mask)
    requires items != [] && IsItem(items[0], half) && IsFree(items[0], half, fields) && AreItems(items[1..], half)
    requires AreFree(items[1..], half, fields.With(FieldNamed(items[0].unit, half).value))
    ensures AreItems(items, half) && AreFree(items, half, fields)
  {
    hide FieldNamed, IsNumber, InRange, HasPoint, Names;
    forall i | 0 < i < |items|
      ensures IsItem(items[i], half) && IsFree(items[i], half, fields)
      ensures FieldNamed(items[i].unit, half) != FieldNamed(items[0].unit, half)
    {
      assert items[i] == items[1..][i - 1];
    }
    forall i, j | 0 < i < j < |items|
      ensures FieldNamed(items[i].unit, half) != FieldNamed(items[j].unit, half)
    {
      assert items[i] == items[1..][i - 1] && items[j] == items[1..][j - 1];
    }
  }

  lemma {:induction false} SameSignSplits(items: seq<Item>, negative: bool)
    requires items != []
    ensures SameSign(items, negative)
       <==> CountsAsNegative(items[0].number) == negative && SameSign(items[1..], negative)
  {
    hide CountsAsNegative;
    if SameSign(items[1..], negative) && CountsAsNegative(items[0].number) == negative {
      forall i | 0 < i < |items|
        ensures CountsAsNegative(items[i].number) == negative
      {
        assert items[i] == items[1..][i - 1];
      }
    }
  }

  /** Whether the scanner can go on with the items: it knows the sign from the first number on. */
  ghost predicate Follow(items: seq<Item>, st: State) {
    && AreItems(items, st.mode) && AreFree(items, st.mode, st.fields)
    && SameSign(items, StartsNegative(items)) && (items != [] ==> SignAgrees(st, StartsNegative(items)))
  }

  lemma {:induction false} TailSign(items: seq<Item>)
    requires items != []
    ensures SameSign(items[1..], StartsNegative(items)) && items[1..] != [] ==>
              StartsNegative(items[1..]) == StartsNegative(items)
    ensures items[1..] == [] ==> SameSign(items[1..], true) && SameSign(items[1..], false)
  {
    hide CountsAsNegative;
  }

  /** After the first item, the others follow exactly if all of them did. */
  lemma {:induction false} FollowSplits(items: seq<Item>, st: State, precision: SecondPrecision)
    requires items != [] && BetweenItems(st)
    requires IsItem(items[0], st.mode) && IsFree(items[0], st.mode, st.fields)
    requires SignAgrees(st, CountsAsNegative(items[0].number))
    ensures Follow(items, st) <==> Follow(items[1..], Taken(st, items[0], precision))
  {
    var next := Taken(st, items[0], precision);
    TakenKeeps(st, items[0], precision);
    hide IsItem, IsFree, FieldNamed, CountsAsNegative, AreFree, AreItems, Taken, SameSign;
    SameSignSplits(items, StartsNegative(items));
    if AreItems(items, st.mode) && AreFree(items, st.mode, st.fields) {
      SplitForward(items, st.mode, st.fields);
    }
    if AreItems(items[1..], st.mode) && AreFree(items[1..], st.mode, next.fields) {
      SplitBackward(items, st.mode, st.fields);
    }
    TailSign(items);
  }

  lemma {:induction false} FollowStarts(items: seq<Item>, st: State)
    requires items != [] && Follow(items, st)
    ensures IsItem(items[0], st.mode) && IsFree(items[0], st.mode, st.fields)
    ensures SignAgrees(st, CountsAsNegative(items[0].number))
  {
    hide IsItem, IsFree, CountsAsNegative, FieldNamed, SameSign;
  }

  lemma {:induction false} NothingFollows(st: State)
    ensures Follow([], st)
  {
  }

  lemma {:induction false} TailFollows(items: seq<Item>, st: State, next: State)
    requires items != [] && Follow(items, st) && Follow(items[1..], next)
    ensures items[1..] != [] ==> StartsNegative(items[1..]) == StartsNegative(items)
    ensures FieldNamed(items[0].unit, st.mode).Some?
  {
    hide AreFree, CountsAsNegative, FieldNamed;
    SameSignSplits(items, StartsNegative(items));
    TailSign(items);
  }

  /** The scanner reads items exactly if they follow. */
  lemma {:induction false} ItemsRead(items: seq<Item>, st: State, precision: SecondPrecision)
    requires BetweenItems(st)
    ensures ReadItems(items, st, precision).Some? <==> Follow(items, st)
    ensures ReadItems(items, st, precision).Some? ==>
              var last := ReadItems(items, st, precision).value;
              && last.mode == st.mode && last.fields == FieldsNamed(items, st.mode, st.fields)
              && (items == [] ==> last.sign == st.sign)
              && (items != [] ==> last.sign != 0 && (last.sign < 0) == StartsNegative(items))
  {
    hide ReadItem, Follow, IsItem, IsFree, CountsAsNegative, FieldNamed, Taken;
    if items == [] {
      NothingFollows(st);
    } else {
      var item := items[0];
      ItemReads(st, item, precision);
      if ReadItem(st, item, precision).Some? {
        var next := Taken(st, item, precision);
        TakenKeeps(st, item, precision);
        FollowSplits(items, st, precision);
        ItemsRead(items[1..], next, precision);
        if ReadItems(items[1..], next, precision).Some? {
          TailFollows(items, st, next);
        }
      } else if Follow(items, st) {
        FollowStarts(items, st);
      }
    }
  }

  // ---- whole durations ------------------------------------------------------------------------

  const BEGUN := START.(mode := Period)

  /** The state before the time items. */
  ghost predicate IsMiddle(d: Duration, mid: State, precision: SecondPrecision) {
    ReadItems(d.date, BEGUN, precision) == Some(mid)
  }

  /** A duration is scanned in two halves; without a `T` the second is empty. */
  lemma {:induction false} Halves(d: Duration, precision: SecondPrecision) returns (mid: State)
    requires Meaning(d, precision).Some?
    ensures IsMiddle(d, mid, precision) && mid.mode == Period
    ensures var last := ReadItems(TimeItems(d), mid.(mode := Time), precision);
            && last.Some? && last.value.mode == Time
            && Meaning(d, precision) == Some(last.value.(mode := if d.hasTime then Time else Period))
  {
    mid := ReadItems(d.date, BEGUN, precision).value;
    ItemsRead(d.date, BEGUN, precision);
    ItemsRead(TimeItems(d), mid.(mode := Time), precision);
    hide FieldsNamed, Follow, Fold, StartsNegative;
  }

  /** Date items name no field of time. */
  lemma {:induction false} HalvesDisjoint(items: seq<Item>, fields: Mask)
    requires AreItems(items, Time) && !fields.hour && !fields.minute && !fields.second
    ensures AreFree(items, Time, fields)
  {
    forall i | 0 <= i < |items|
      ensures IsFree(items[i], Time, fields)
    {
      assert IsItem(items[i], Time);
    }
  }

  lemma {:induction false} DateTail(items: seq<Item>, half: Mode)
    requires items != [] && AreItems(items, half)
    ensures AreItems(items[1..], half)
  {
    hide IsItem, FieldNamed;
  }

  lemma {:induction false} DateFields(items: seq<Item>, fields: Mask)
    requires AreItems(items, Period) && !fields.hour && !fields.minute && !fields.second
    ensures var all := FieldsNamed(items, Period, fields); !all.hour && !all.minute && !all.second
    decreases |items|
  {
    if items != [] {
      assert IsItem(items[0], Period);
      DateTail(items, Period);
      DateFields(items[1..], fields.With(FieldNamed(items[0].unit, Period).value));
    }
  }

  lemma {:induction false} SameSignAppends(a: seq<Item>, b: seq<Item>, negative: bool)
    ensures SameSign(a + b, negative) <==> SameSign(a, negative) && SameSign(b, negative)
  {
    hide CountsAsNegative;
    if SameSign(a + b, negative) {
      forall i | 0 <= i < |b|
        ensures CountsAsNegative(b[i].number) == negative
      {
        assert b[i] == (a + b)[|a| + i];
      }
      forall i | 0 <= i < |a|
        ensures CountsAsNegative(a[i].number) == negative
      {
        assert a[i] == (a + b)[i];
      }
    }
  }

  lemma {:induction false} FollowsBegun(items: seq<Item>)
    ensures Follow(items, BEGUN) <==> AreItems(items, Period) && SameSign(items, StartsNegative(items))
  {
    hide IsItem, CountsAsNegative;
  }

  lemma {:induction false} FollowsDate(time: seq<Item>, date: seq<Item>, timed: State)
    requires timed.mode == Time && AreItems(date, Period) && timed.fields == FieldsNamed(date, Period, NO_FIELDS)
    requires if date == [] then timed.sign == 0 else timed.sign != 0 && (timed.sign < 0) == StartsNegative(date)
    ensures Follow(time, timed)
       <==> && AreItems(time, Time) && SameSign(time, StartsNegative(time))
            && (date != [] && time != [] ==> StartsNegative(time) == StartsNegative(date))
  {
    DateFields(date, NO_FIELDS);
    hide AreItems, FieldsNamed, IsFree, StartsNegative, SameSign, AreFree;
    if AreItems(time, Time) {
      HalvesDisjoint(time, timed.fields);
    }
  }

  /** All numbers have the sign of the first exactly if those of each half have, and the halves agree. */
  lemma {:induction false} SignOfHalves(date: seq<Item>, time: seq<Item>)
    ensures SameSign(date + time, StartsNegative(date + time))
       <==> && SameSign(date, StartsNegative(date)) && SameSign(time, StartsNegative(time))
            && (date != [] && time != [] ==> StartsNegative(time) == StartsNegative(date))
    ensures StartsNegative(date + time) == if date != [] then StartsNegative(date) else StartsNegative(time)
  {
    SameSignAppends(date, time, StartsNegative(date + time));
    hide CountsAsNegative;
    if date == [] {
      assert date + time == time;
    }
  }

  lemma {:induction false} Marks(c: char)
    ensures Fold(c) == 'p' <==> c == 'P' || c == 'p'
    ensures Fold(c) == 't' <==> c == 'T' || c == 't'
  {
  }

  lemma {:induction false} NoItems(st: State, precision: SecondPrecision)
    ensures ReadItems([], st, precision) == Some(st)
  {
  }

  /** The scanner accepts exactly the well-formed durations; the fields set are those named, and the sign
      is that of the numbers. */
  lemma {:induction false} Accepts(d: Duration, precision: SecondPrecision)
    ensures Meaning(d, precision).Some? <==> IsWellFormed(d)
    ensures Meaning(d, precision).Some? ==>
              var st := Meaning(d, precision).value;
              && BetweenItems(st) && st.fields == FieldsIn(d) && (st.sign < 0) == IsNegative(d)
  {
    ItemsRead(d.date, BEGUN, precision);
    FollowsBegun(d.date);
    SignOfHalves(d.date, TimeItems(d));
    Marks(d.p);
    Marks(d.t);
    hide ReadItems, FieldsNamed, Follow, AreItems, SameSign, StartsNegative, Fold;
    var mid := ReadItems(d.date, BEGUN, precision);
    if mid.Some? {
      var timed := mid.value.(mode := Time);
      FollowsDate(TimeItems(d), d.date, timed);
      ItemsRead(TimeItems(d), timed, precision);
      NoItems(timed, precision);
    }
  }

  /** A text is accepted exactly if it is a well-formed duration. */
  lemma {:induction false} AcceptedTexts(text: string, precision: SecondPrecision)
    ensures (var r := Run(text, START, precision); r.Some? && BetweenItems(r.value))
       <==> exists d: Duration :: Render(d) == text && IsWellFormed(d)
  {
    hide Run, Render, Meaning, IsWellFormed;
    var r := Run(text, START, precision);
    if r.Some? && BetweenItems(r.value) {
      var d := Parse(text, precision);
      Accepts(d, precision);
    }
    forall d: Duration | Render(d) == text && IsWellFormed(d)
      ensures r.Some? && BetweenItems(r.value)
    {
      Accepts(d, precision);
      ScanDuration(d, precision);
    }
  }
}
