/** Printing an interval as ISO 8601 and parsing it back. */
module IsoRoundTrip {
  import opened Decimals
  import opened Integers
  import opened Intervals
  import opened IsoParser
  import opened IsoGrammar
  import opened IsoNumbers
  import opened IsoShapes
  import opened IsoMeaning
  import opened Rebalancing
  import opened IsoPrinter
  import opened Wrappers

  // ---- printed numbers are read back ----------------------------------------------------------

  lemma {:induction false} SignedNumber(negative: bool, n: nat, rest: string)
    requires n <= MAX_U32 && rest != "" && !IsDigit(rest[0])
    ensures ReadSigned(SignText(negative) + Print(n) + rest, false)
         == Read(|SignText(negative) + Print(n)|, if negative then -(n as int) else n)
  {
    PrintDenotes(n);
    hide ReadSigned, ReadUnsigned, Print, Value;
    if negative {
      ReadNegative(Print(n), rest);
    } else {
      ReadPositive(Print(n), rest);
      assert SignText(negative) + Print(n) + rest == Print(n) + rest;
      assert SignText(negative) + Print(n) == Print(n);
    }
  }

  lemma {:induction false} DigitStarts(c: char)
    ensures IsDigit(c) ==> StartsNumber(c)
    ensures StartsNumber('-')
  {
  }

  lemma {:induction false} PrintedStarts(negative: bool, s: string)
    requires IsNumeral(s)
    ensures var t := SignText(negative) + s; t != "" && StartsNumber(t[0])
  {
    DigitStarts(s[0]);
    DigitStarts('0');
  }

  lemma {:induction false} PlainToken(s: string, digits: nat, v: int, precision: SecondPrecision)
    requires ReadSigned(s, false) == Read(digits, v) && -MAX_U32 <= v <= MAX_U32
    requires digits < |s| && s[digits] != '.'
    ensures ReadToken(s, precision) == Number(digits, if v < 0 then -v else v, v < 0, 0, false, Success)
  {
    hide ReadSigned, ReadUnsigned, Rescale;
  }

  lemma {:induction false} NumberToken(negative: bool, n: nat, unit: char, precision: SecondPrecision)
    requires n <= MAX_U32 && IsDelimiter(unit)
    ensures TokenOf(Item(SignText(negative) + Print(n), unit), precision)
         == Number(|SignText(negative) + Print(n)|, n, negative && n != 0, 0, false, Success)
  {
    var number := SignText(negative) + Print(n);
    DigitStarts('.');
    assert StartsNumber('.') && !StartsNumber(unit);
    PrintedStarts(negative, Print(n));
    hide ReadSigned, ReadToken, Print, StartsNumber, SignText;
    SignedNumber(negative, n, [unit]);
    var v: int := if negative then -(n as int) else n;
    assert (number + [unit])[|number|] == unit;
    PlainToken(number + [unit], |number|, v, precision);
  }

  lemma {:induction false} TokenWithFraction(s: string, digits: nat, v: int, f: nat, u: nat, precision: SecondPrecision)
    requires ReadSigned(s, false) == Read(digits, v) && -MAX_U32 <= v <= MAX_U32
    requires digits + 1 < |s| && s[digits] == '.'
    requires ReadUnsigned(s[digits + 1..], false) == Read(f, u) && u <= MAX_U32
    requires Rescale(u, f, precision) == u && f >= precision
    ensures ReadToken(s, precision) == Number(digits + 1 + f, if v < 0 then -v else v, v < 0, u, true, WithInfo)
  {
    hide ReadSigned, ReadUnsigned, Rescale;
  }

  lemma {:induction false} FractionReads(negative: bool, whole: nat, decimals: string, precision: SecondPrecision)
    requires whole <= MAX_U32 && IsNumeral(decimals) && |decimals| == precision
    ensures Value(decimals) <= MAX_U32
    ensures var number := SignText(negative) + (Print(whole) + "." + decimals);
            ReadToken(number + "S", precision)
            == Number(|number|, whole, negative && whole != 0, Value(decimals), true, WithInfo)
  {
    hide ReadToken, ReadSigned, ReadUnsigned, Print, Rescale, Value, Pow10;
    var number := SignText(negative) + (Print(whole) + "." + decimals);
    var head := SignText(negative) + Print(whole);
    var rest := "." + decimals + "S";
    ValueBound(decimals);
    BillionBounds(precision);
    SignedNumber(negative, whole, rest);
    ReadNumeral(decimals, "S");
    RescaleToSame(Value(decimals), precision);
    var s := number + "S";
    assert s == head + rest;
    assert s[|head|] == '.' && s[|head| + 1..] == decimals + "S";
    var v: int := if negative then -(whole as int) else whole;
    TokenWithFraction(s, |head|, v, precision, Value(decimals), precision);
  }

  lemma {:induction false} FractionToken(negative: bool, whole: nat, decimals: string, precision: SecondPrecision)
    requires whole <= MAX_U32 && IsNumeral(decimals) && |decimals| == precision
    ensures Value(decimals) <= MAX_U32
    ensures TokenOf(Item(SignText(negative) + (Print(whole) + "." + decimals), 'S'), precision)
         == Number(|SignText(negative) + (Print(whole) + "." + decimals)|, whole, negative && whole != 0,
                   Value(decimals), true, WithInfo)
  {
    FractionReads(negative, whole, decimals, precision);
    PrintedStarts(negative, Print(whole));
    var number := SignText(negative) + (Print(whole) + "." + decimals);
    assert number[0] == (SignText(negative) + Print(whole))[0];
    assert !StartsNumber('S');
    hide ReadToken, Print, StartsNumber, Value;
  }

  // ---- the printed duration -------------------------------------------------------------------

  function FieldItem(negative: bool, value: nat, unit: char): seq<Item> {
    if value == 0 then [] else [Item(SignText(negative) + Print(value), unit)]
  }

  function SecondItem(ivl: Interval, precision: SecondPrecision): seq<Item> {
    if ivl.second == 0 && ivl.fraction == 0 then []
    else [Item(SignText(ivl.negative) + SecondsText(ivl.second, ivl.fraction, precision), 'S')]
  }

  function ClockItems(ivl: Interval): seq<Item> {
    FieldItem(ivl.negative, ivl.monthOrHour, 'H') + FieldItem(ivl.negative, ivl.minute, 'M')
  }

  lemma {:induction false} FieldRendered(negative: bool, value: nat, unit: char)
    ensures RenderItems(FieldItem(negative, value, unit)) == FieldText(negative, value, unit)
  {
    hide Print;
    var items := FieldItem(negative, value, unit);
    if value != 0 {
      assert items[1..] == [];
    }
  }

  lemma {:induction false} RenderAppends(a: seq<Item>, b: seq<Item>)
    ensures RenderItems(a + b) == RenderItems(a) + RenderItems(b)
  {
    if a == [] {
      assert a + b == b;
    } else {
      assert (a + b)[1..] == a[1..] + b;
      RenderAppends(a[1..], b);
    }
  }

  lemma {:induction false} ReadAppends(a: seq<Item>, b: seq<Item>, st: State, precision: SecondPrecision)
    ensures ReadItems(a + b, st, precision)
         == match ReadItems(a, st, precision)
            case None => None
            case Some(next) => ReadItems(b, next, precision)
  {
    hide ReadItem;
    if a == [] {
      assert a + b == b;
    } else {
      assert (a + b)[1..] == a[1..] + b;
      if ReadItem(st, a[0], precision).Some? {
        ReadAppends(a[1..], b, ReadItem(st, a[0], precision).value, precision);
      }
    }
  }

  // ---- reading the printed items --------------------------------------------------------------

  /** The state after a printed field: as before for a zero, which is not printed. */
  function Stored(st: State, negative: bool, n: u32, f: Field): State {
    if n == 0 then st
    else
      Assign(st.(mode := AfterNumber, saved := st.mode, uint := n, hasFraction := false, code := Success,
                 sign := st.sign + if negative then -1 else 1), f)
  }

  lemma {:induction false} LetterStores(st: State, unit: char, f: Field)
    requires st.mode == AfterNumber && FieldNamed(unit, st.saved) == Some(f) && !st.fields.Has(f)
    requires st.hasFraction ==> f == Second
    ensures TakeLetter(st, unit) == Some(Assign(st, f))
  {
    hide Assign;
  }

  lemma {:induction false} ReadField(st: State, negative: bool, n: u32, unit: char, f: Field,
                                     precision: SecondPrecision)
    requires BetweenItems(st) && SignAgrees(st, negative) && !st.fields.Has(f)
    requires FieldNamed(unit, st.mode) == Some(f) && IsDelimiter(unit)
    ensures ReadItems(FieldItem(negative, n, unit), st, precision) == Some(Stored(st, negative, n, f))
  {
    var items := FieldItem(negative, n, unit);
    if n != 0 {
      NumberToken(negative, n, unit, precision);
      var t := TokenOf(items[0], precision);
      hide TokenOf, Print;
      assert items[1..] == [];
      var taken := TakeNumber(st, t).value;
      LetterStores(taken, unit, f);
      assert ReadItem(st, items[0], precision) == Some(Assign(taken, f));
    }
  }

  /** What the scanner holds: these fields set, with these values. */
  ghost predicate Holds(st: State, fields: Mask, d: u32, h: u32, m: u32, s: u32, fraction: u32) {
    && st.fields == fields && st.yearOrDay == d && st.monthOrHour == h && st.minute == m && st.second == s
    && st.fraction == fraction && st.secondFraction == fraction && st.hasFraction == (fraction != 0)
  }

  ghost predicate Signed(st: State, negative: bool, any: bool) {
    if !any then st.sign == 0 else if negative then st.sign < 0 else st.sign > 0
  }

  function AfterDay(ivl: Interval): State {
    Stored(BEGUN, ivl.negative, ivl.yearOrDay, Day)
  }

  function AfterClock(ivl: Interval): State {
    var hour := Stored(AfterDay(ivl).(mode := Time), ivl.negative, ivl.monthOrHour, Hour);
    Stored(hour, ivl.negative, ivl.minute, Minute)
  }

  predicate AnyClock(ivl: Interval) {
    ivl.yearOrDay != 0 || ivl.monthOrHour != 0 || ivl.minute != 0
  }

  function ClockMask(ivl: Interval): Mask {
    Mask(false, false, ivl.yearOrDay != 0, ivl.monthOrHour != 0, ivl.minute != 0, false)
  }

  lemma {:induction false} AfterDayHolds(ivl: Interval)
    ensures var st := AfterDay(ivl);
            && st.mode == Period && Signed(st, ivl.negative, ivl.yearOrDay != 0)
            && Holds(st, Mask(false, false, ivl.yearOrDay != 0, false, false, false), ivl.yearOrDay, 0, 0, 0, 0)
  {
  }

  lemma {:induction false} AfterHourHolds(ivl: Interval)
    ensures var st := Stored(AfterDay(ivl).(mode := Time), ivl.negative, ivl.monthOrHour, Hour);
            && st.mode == Time && Signed(st, ivl.negative, ivl.yearOrDay != 0 || ivl.monthOrHour != 0)
            && Holds(st, Mask(false, false, ivl.yearOrDay != 0, ivl.monthOrHour != 0, false, false),
                     ivl.yearOrDay, ivl.monthOrHour, 0, 0, 0)
  {
    AfterDayHolds(ivl);
    hide AfterDay;
  }

  lemma {:induction false} AfterClockHolds(ivl: Interval)
    ensures var st := AfterClock(ivl);
            && st.mode == Time && Signed(st, ivl.negative, AnyClock(ivl))
            && Holds(st, ClockMask(ivl), ivl.yearOrDay, ivl.monthOrHour, ivl.minute, 0, 0)
  {
    AfterHourHolds(ivl);
    hide AfterDay;
  }

  lemma {:induction false} Letters()
    ensures Fold('P') == 'p' && Fold('T') == 't'
    ensures IsDelimiter('Y') && IsDelimiter('M') && IsDelimiter('D') && IsDelimiter('H') && IsDelimiter('S')
    ensures FieldNamed('Y', Period) == Some(Year) && FieldNamed('M', Period) == Some(Month)
    ensures FieldNamed('D', Period) == Some(Day) && FieldNamed('H', Time) == Some(Hour)
    ensures FieldNamed('M', Time) == Some(Minute) && FieldNamed('S', Time) == Some(Second)
  {
  }

  /** Scanning the date, the time mark and the hour and minute of a printed value. */
  lemma {:induction false} ScanDay(ivl: Interval, rest: string, precision: SecondPrecision)
    ensures Run("P" + FieldText(ivl.negative, ivl.yearOrDay, 'D') + rest, START, precision)
         == Run(rest, AfterDay(ivl), precision)
  {
    var date := FieldItem(ivl.negative, ivl.yearOrDay, 'D');
    var text := FieldText(ivl.negative, ivl.yearOrDay, 'D');
    Letters();
    FieldRendered(ivl.negative, ivl.yearOrDay, 'D');
    hide Run, Stored, FieldText, FieldItem, ReadItems, Fold, IsDelimiter;
    assert "P" + text + rest == ['P'] + (text + rest);
    ScanMark('P', text + rest, START, precision);
    ReadField(BEGUN, ivl.negative, ivl.yearOrDay, 'D', Day, precision);
    ScanItems(date, rest, BEGUN, precision);
  }

  lemma {:induction false} ReadClock(ivl: Interval, precision: SecondPrecision)
    ensures ReadItems(ClockItems(ivl), AfterDay(ivl).(mode := Time), precision) == Some(AfterClock(ivl))
  {
    var timed := AfterDay(ivl).(mode := Time);
    AfterDayHolds(ivl);
    AfterHourHolds(ivl);
    Letters();
    hide AfterDay, Stored, FieldItem, IsDelimiter, FieldNamed;
    ReadField(timed, ivl.negative, ivl.monthOrHour, 'H', Hour, precision);
    var hour := Stored(timed, ivl.negative, ivl.monthOrHour, Hour);
    ReadField(hour, ivl.negative, ivl.minute, 'M', Minute, precision);
    ReadAppends(FieldItem(ivl.negative, ivl.monthOrHour, 'H'), FieldItem(ivl.negative, ivl.minute, 'M'),
                timed, precision);
  }

  lemma {:induction false} ScanClock(ivl: Interval, rest: string, precision: SecondPrecision)
    ensures Run("T" + RenderItems(ClockItems(ivl)) + rest, AfterDay(ivl), precision)
         == Run(rest, AfterClock(ivl), precision)
  {
    var text := RenderItems(ClockItems(ivl));
    AfterDayHolds(ivl);
    Letters();
    hide Run, Stored, ClockItems, ReadItems, Fold, RenderItems, AfterDay, AfterClock;
    assert "T" + text + rest == ['T'] + (text + rest);
    ScanMark('T', text + rest, AfterDay(ivl), precision);
    ReadClock(ivl, precision);
    ScanItems(ClockItems(ivl), rest, AfterDay(ivl).(mode := Time), precision);
  }

  // ---- the seconds ----------------------------------------------------------------------------

  /** A negative fraction of a second is printed as `-0.f`, and reads back as positive. */
  predicate LosesSign(ivl: Interval) {
    ivl.negative && ivl.fraction != 0 && ivl.second == 0
  }

  lemma {:induction false} ProperSeconds(ivl: Interval, precision: SecondPrecision)
    requires IsProper(ivl, precision) && ivl.fraction != 0
    ensures precision > 0
    ensures SecondsText(ivl.second, ivl.fraction, precision)
         == Print(ivl.second) + "." + Pad(ivl.fraction, precision)
    ensures Value(Pad(ivl.fraction, precision)) == ivl.fraction
  {
    assert precision > 0 by {
      assert Pow10(0) == 1;
    }
    PadDenotes(ivl.fraction, precision);
    SmallQuotient(ivl.fraction, Pow10(precision));
  }

  lemma {:induction false} SecondToken(ivl: Interval, precision: SecondPrecision)
    requires IsProper(ivl, precision) && (ivl.second != 0 || ivl.fraction != 0)
    ensures var t := TokenOf(SecondItem(ivl, precision)[0], precision);
            && t.Number? && t.length == |SecondItem(ivl, precision)[0].number|
            && t.magnitude == ivl.second && t.negative == (ivl.negative && ivl.second != 0)
            && t.fraction == ivl.fraction && t.hasFraction == (ivl.fraction != 0)
  {
    Letters();
    hide TokenOf, IsProper, Print, Pad;
    if ivl.fraction != 0 {
      ProperSeconds(ivl, precision);
      FractionToken(ivl.negative, ivl.second, Pad(ivl.fraction, precision), precision);
    } else {
      NumberToken(ivl.negative, ivl.second, 'S', precision);
    }
  }

  /** The final state, if the sign of the seconds agrees with what has been read. */
  function AfterSecond(ivl: Interval, t: Token): State
    requires t.Number? && TakeNumber(AfterClock(ivl), t).Some?
  {
    Assign(TakeNumber(AfterClock(ivl), t).value, Second)
  }

  lemma {:induction false} AfterSecondHolds(ivl: Interval, t: Token)
    requires t.Number? && t.magnitude == ivl.second && t.negative == (ivl.negative && ivl.second != 0)
    requires t.fraction == ivl.fraction && t.hasFraction == (ivl.fraction != 0)
    requires (ivl.second != 0 || ivl.fraction != 0)
    ensures TakeNumber(AfterClock(ivl), t).None? <==> LosesSign(ivl) && AnyClock(ivl)
    ensures !(LosesSign(ivl) && AnyClock(ivl)) ==>
              var st := AfterSecond(ivl, t);
              && st.mode == Time && (st.sign < 0 <==> ivl.negative && !LosesSign(ivl))
              && Holds(st, ClockMask(ivl).(second := true),
                       ivl.yearOrDay, ivl.monthOrHour, ivl.minute, ivl.second, ivl.fraction)
  {
    AfterClockHolds(ivl);
    hide AfterClock;
  }

  lemma {:induction false} SecondText(ivl: Interval, precision: SecondPrecision)
    requires IsProper(ivl, precision) && (ivl.second != 0 || ivl.fraction != 0)
    ensures var item := SecondItem(ivl, precision)[0];
            var text, t := SecondFieldText(ivl, precision), TokenOf(item, precision);
            && text != "" && StartsNumber(text[0]) && t.Number? && ReadToken(text, precision) == t
            && t.length <= |text| && text[t.length..] == "S"
  {
    SecondToken(ivl, precision);
    var item := SecondItem(ivl, precision)[0];
    hide ReadToken, SecondsText, IsProper, StartsNumber;
    var text := SecondFieldText(ivl, precision);
    assert text == item.number + [item.unit];
    assert text[0] == item.number[0];
  }

  lemma {:induction false} SecondAssigned(st: State, t: Token)
    requires t.Number? && TakeNumber(st, t).Some? && st.mode == Time && !st.fields.second
    ensures TakeLetter(TakeNumber(st, t).value, 'S') == Some(Assign(TakeNumber(st, t).value, Second))
    ensures !StartsNumber('S')
  {
    Letters();
    LetterStores(TakeNumber(st, t).value, 'S', Second);
  }

  /** A number and the designator of seconds that ends the text. */
  lemma {:induction false} LastSecond(text: string, st: State, t: Token, precision: SecondPrecision)
    requires text != "" && StartsNumber(text[0]) && t.Number? && ReadToken(text, precision) == t
    requires t.length <= |text| && text[t.length..] == "S" && st.mode == Time && !st.fields.second
    ensures Run(text, st, precision)
         == if TakeNumber(st, t).None? then None else Some(Assign(TakeNumber(st, t).value, Second))
  {
    hide Run, ReadToken, StartsNumber, Assign;
    NumberTurn(text, st, precision);
    if TakeNumber(st, t).Some? {
      var taken := TakeNumber(st, t).value;
      SecondAssigned(st, t);
      LetterTurn("S", taken, precision);
      assert "S"[1..] == "";
      ScanNothing(Assign(taken, Second), precision);
    }
  }

  lemma {:induction false} ScanSecond(ivl: Interval, precision: SecondPrecision)
    requires IsProper(ivl, precision) && (ivl.second != 0 || ivl.fraction != 0)
    ensures var r := Run(SecondFieldText(ivl, precision), AfterClock(ivl), precision);
            if LosesSign(ivl) && AnyClock(ivl) then r.None?
            else
              && r.Some? && r.value.mode == Time && (r.value.sign < 0 <==> ivl.negative && !LosesSign(ivl))
              && Holds(r.value, ClockMask(ivl).(second := true),
                       ivl.yearOrDay, ivl.monthOrHour, ivl.minute, ivl.second, ivl.fraction)
  {
    var t := TokenOf(SecondItem(ivl, precision)[0], precision);
    SecondToken(ivl, precision);
    SecondText(ivl, precision);
    AfterSecondHolds(ivl, t);
    AfterClockHolds(ivl);
    assert AfterClock(ivl).mode == Time && !AfterClock(ivl).fields.second;
    hide Run, AfterClock, ReadToken, TokenOf, SecondFieldText, SecondItem, Holds, LosesSign, AnyClock, IsProper,
         TakeNumber,
         StartsNumber, ClockMask;
    LastSecond(SecondFieldText(ivl, precision), AfterClock(ivl), t, precision);
  }

  // ---- the whole text -------------------------------------------------------------------------

  /** The fields a printed value shows. */
  function PrintedMask(ivl: Interval): Mask {
    if IsYearMonth(ivl.kind) then
      Mask(ivl.yearOrDay != 0, ivl.monthOrHour != 0 || IsZero(ivl), false, false, false, false)
    else ClockMask(ivl).(second := ivl.second != 0 || ivl.fraction != 0 || IsZero(ivl))
  }

  /** The scanner at the end of a printed value. */
  ghost predicate Recovered(r: Option<State>, ivl: Interval) {
    && r.Some? && BetweenItems(r.value)
    && (r.value.sign < 0 <==> ivl.negative && !IsZero(ivl) && !LosesSign(ivl))
    && Holds(r.value, PrintedMask(ivl), ivl.yearOrDay, ivl.monthOrHour, ivl.minute, ivl.second, ivl.fraction)
  }

  lemma {:induction false} ScanZeroItem(unit: char, f: Field, st: State, precision: SecondPrecision)
    requires BetweenItems(st) && st.sign == 0 && st.fields == NO_FIELDS
    requires FieldNamed(unit, st.mode) == Some(f) && IsDelimiter(unit)
    ensures Run("0" + [unit], st, precision)
         == Some(Assign(st.(mode := AfterNumber, saved := st.mode, sign := 1, uint := 0, hasFraction := false,
                            code := Success), f))
  {
    var item := Item("0", unit);
    NumberToken(false, 0, unit, precision);
    assert Print(0) == "0" && SignText(false) + Print(0) == "0";
    var t := TokenOf(item, precision);
    hide TokenOf, Print, Run, IsDelimiter, FieldNamed;
    var taken := TakeNumber(st, t).value;
    LetterStores(taken, unit, f);
    hide Assign;
    ScanItem(item, "", st, precision);
    assert item.number + [item.unit] + "" == "0" + [unit];
    ScanNothing(Assign(taken, f), precision);
  }

  lemma {:induction false} ScanZeroSeconds(precision: SecondPrecision)
    ensures var r := Run("PT0S", START, precision);
            && r.Some? && r.value.mode == Time && r.value.sign > 0
            && Holds(r.value, NO_FIELDS.(second := true), 0, 0, 0, 0, 0)
  {
    Letters();
    hide Run, Fold, IsDelimiter, FieldNamed;
    assert "PT0S" == ['P'] + "T0S" && "T0S" == ['T'] + "0S";
    ScanMark('P', "T0S", START, precision);
    ScanMark('T', "0S", BEGUN, precision);
    ScanZeroItem('S', Second, BEGUN.(mode := Time), precision);
    assert "0" + ['S'] == "0S";
  }

  lemma {:induction false} ScanZeroMonths(precision: SecondPrecision)
    ensures var r := Run("P0M", START, precision);
            && r.Some? && r.value.mode == Period && r.value.sign > 0
            && Holds(r.value, NO_FIELDS.(month := true), 0, 0, 0, 0, 0)
  {
    Letters();
    hide Run, Fold, IsDelimiter, FieldNamed;
    assert "P0M" == ['P'] + "0M";
    ScanMark('P', "0M", START, precision);
    ScanZeroItem('M', Month, BEGUN, precision);
    assert "0" + ['M'] == "0M";
  }

  lemma {:induction false} DaysText(ivl: Interval, precision: SecondPrecision)
    requires !IsYearMonth(ivl.kind)
    ensures var day, time := FieldText(ivl.negative, ivl.yearOrDay, 'D'), TimeText(ivl, precision);
            IsoText(ivl, precision)
            == if time != "" then "P" + day + ("T" + time) else if day != "" then "P" + day + "" else "PT0S"
  {
    hide FieldText, TimeText, IsYearMonth;
  }

  /** When parts of a printed value are empty. */
  lemma {:induction false} EmptyParts(ivl: Interval, precision: SecondPrecision)
    ensures FieldText(ivl.negative, ivl.yearOrDay, 'D') == "" <==> ivl.yearOrDay == 0
    ensures TimeText(ivl, precision) == ""
       <==> ivl.monthOrHour == 0 && ivl.minute == 0 && ivl.second == 0 && ivl.fraction == 0
  {
    FieldEmpty(ivl.negative, ivl.yearOrDay, 'D');
    FieldEmpty(ivl.negative, ivl.monthOrHour, 'H');
    FieldEmpty(ivl.negative, ivl.minute, 'M');
    hide FieldText, SecondsText;
  }

  lemma {:induction false} ClockOnlyRendered(ivl: Interval)
    ensures RenderItems(ClockItems(ivl))
         == FieldText(ivl.negative, ivl.monthOrHour, 'H') + FieldText(ivl.negative, ivl.minute, 'M')
  {
    FieldRendered(ivl.negative, ivl.monthOrHour, 'H');
    FieldRendered(ivl.negative, ivl.minute, 'M');
    RenderAppends(FieldItem(ivl.negative, ivl.monthOrHour, 'H'), FieldItem(ivl.negative, ivl.minute, 'M'));
  }

  lemma {:induction false} TimeIsClock(ivl: Interval, precision: SecondPrecision)
    ensures "T" + TimeText(ivl, precision) == "T" + RenderItems(ClockItems(ivl)) + SecondFieldText(ivl, precision)
  {
    ClockOnlyRendered(ivl);
    hide FieldText, ClockItems, RenderItems, SecondFieldText;
  }

  lemma {:induction false} ScanTime(ivl: Interval, precision: SecondPrecision)
    requires !IsYearMonth(ivl.kind) && IsProper(ivl, precision) && TimeText(ivl, precision) != ""
    ensures var r := Run("T" + TimeText(ivl, precision), AfterDay(ivl), precision);
            if LosesSign(ivl) && AnyClock(ivl) then r.None? else Recovered(r, ivl)
  {
    var clock, second := RenderItems(ClockItems(ivl)), SecondFieldText(ivl, precision);
    EmptyParts(ivl, precision);
    TimeIsClock(ivl, precision);
    hide Run, FieldText, TimeText, IsProper, AfterDay, AfterClock, ClockItems, RenderItems, SecondsText;
    ScanClock(ivl, second, precision);
    if ivl.second == 0 && ivl.fraction == 0 {
      AfterClockHolds(ivl);
      ScanNothing(AfterClock(ivl), precision);
    } else {
      hide SecondFieldText;
      ScanSecond(ivl, precision);
    }
  }

  lemma {:induction false} ScanPrintedDays(ivl: Interval, precision: SecondPrecision)
    requires !IsYearMonth(ivl.kind) && IsProper(ivl, precision)
    ensures var r := Run(IsoText(ivl, precision), START, precision);
            if LosesSign(ivl) && AnyClock(ivl) then r.None? else Recovered(r, ivl)
  {
    EmptyParts(ivl, precision);
    DaysText(ivl, precision);
    hide Run, FieldText, TimeText, IsoText, IsProper, AfterDay, AfterClock;
    if TimeText(ivl, precision) != "" {
      hide Recovered, LosesSign;
      ScanDay(ivl, "T" + TimeText(ivl, precision), precision);
      ScanTime(ivl, precision);
    } else if ivl.yearOrDay != 0 {
      ScanDay(ivl, "", precision);
      AfterDayHolds(ivl);
      ScanNothing(AfterDay(ivl), precision);
    } else {
      ScanZeroSeconds(precision);
    }
  }

  lemma {:induction false} MonthsText(ivl: Interval, precision: SecondPrecision)
    requires IsYearMonth(ivl.kind) && IsProper(ivl, precision)
    ensures IsoText(ivl, precision)
         == if IsZero(ivl) then "P0M"
            else ['P'] + (FieldText(ivl.negative, ivl.yearOrDay, 'Y') + FieldText(ivl.negative, ivl.monthOrHour, 'M'))
  {
    FieldEmpty(ivl.negative, ivl.yearOrDay, 'Y');
    FieldEmpty(ivl.negative, ivl.monthOrHour, 'M');
    hide FieldText;
  }

  function MonthsState(ivl: Interval): State {
    Stored(Stored(BEGUN, ivl.negative, ivl.yearOrDay, Year), ivl.negative, ivl.monthOrHour, Month)
  }

  lemma {:induction false} ReadMonths(ivl: Interval, precision: SecondPrecision)
    ensures ReadItems(FieldItem(ivl.negative, ivl.yearOrDay, 'Y') + FieldItem(ivl.negative, ivl.monthOrHour, 'M'),
                      BEGUN, precision) == Some(MonthsState(ivl))
  {
    Letters();
    var year := Stored(BEGUN, ivl.negative, ivl.yearOrDay, Year);
    assert year.mode == Period && !year.fields.month && SignAgrees(year, ivl.negative);
    hide FieldItem, IsDelimiter, FieldNamed, Stored;
    ReadField(BEGUN, ivl.negative, ivl.yearOrDay, 'Y', Year, precision);
    ReadField(year, ivl.negative, ivl.monthOrHour, 'M', Month, precision);
    ReadAppends(FieldItem(ivl.negative, ivl.yearOrDay, 'Y'), FieldItem(ivl.negative, ivl.monthOrHour, 'M'),
                BEGUN, precision);
  }

  lemma {:induction false} ScanMonths(ivl: Interval, precision: SecondPrecision)
    ensures Run(['P'] + (FieldText(ivl.negative, ivl.yearOrDay, 'Y') + FieldText(ivl.negative, ivl.monthOrHour, 'M')),
                START, precision) == Some(MonthsState(ivl))
  {
    var year, month := FieldItem(ivl.negative, ivl.yearOrDay, 'Y'), FieldItem(ivl.negative, ivl.monthOrHour, 'M');
    FieldRendered(ivl.negative, ivl.yearOrDay, 'Y');
    FieldRendered(ivl.negative, ivl.monthOrHour, 'M');
    RenderAppends(year, month);
    Letters();
    hide Run, FieldText, FieldItem, Fold, ReadItems, RenderItems, IsDelimiter, FieldNamed, MonthsState;
    ReadMonths(ivl, precision);
    var text := RenderItems(year + month);
    ScanMark('P', text, START, precision);
    ScanItems(year + month, "", BEGUN, precision);
    assert text + "" == text;
    ScanNothing(MonthsState(ivl), precision);
  }

  lemma {:induction false} MonthsHold(ivl: Interval)
    ensures var st := MonthsState(ivl);
            && st.mode == Period && Signed(st, ivl.negative, ivl.yearOrDay != 0 || ivl.monthOrHour != 0)
            && Holds(st, Mask(ivl.yearOrDay != 0, ivl.monthOrHour != 0, false, false, false, false),
                     ivl.yearOrDay, ivl.monthOrHour, 0, 0, 0)
  {
  }

  lemma {:induction false} ScanPrintedMonths(ivl: Interval, precision: SecondPrecision)
    requires IsYearMonth(ivl.kind) && IsProper(ivl, precision)
    ensures Recovered(Run(IsoText(ivl, precision), START, precision), ivl)
  {
    MonthsText(ivl, precision);
    hide IsoText, FieldText, Run, MonthsState, Pow10;
    if IsZero(ivl) {
      ScanZeroMonths(precision);
    } else {
      ScanMonths(ivl, precision);
      MonthsHold(ivl);
    }
  }

  // ---- the round trip -------------------------------------------------------------------------

  /** A caller's test for a value that survives: a negative value must show its sign on a non-zero
      number of seconds if it has a fraction, and not be zero; zero years cannot be printed; and a
      value some field of which is not printed will be rebalanced in 32 bits. */
  predicate Survives(ivl: Interval) {
    && !(ivl.negative && (IsZero(ivl) || LosesSign(ivl)))
    && !(IsZero(ivl) && ivl.kind == Single(Year))
    && (IsYearMonth(ivl.kind) || PrintedMask(ivl) == FieldsOf(ivl.kind) || Magnitude(ivl) <= MAX_U32)
  }

  lemma {:induction false} FinishMonths(ivl: Interval, st: State, precision: SecondPrecision)
    requires IsYearMonth(ivl.kind) && IsProper(ivl, precision) && Recovered(Some(st), ivl)
    ensures var o := Finish(st, ivl.kind); (o.Parsed? && o.ivl == ivl) <==> Survives(ivl)
  {
  }

  lemma {:induction false} HeldIsMagnitude(ivl: Interval, st: State)
    requires !IsYearMonth(ivl.kind) && Recovered(Some(st), ivl)
    ensures Held(st, InSeconds) == Magnitude(ivl) && OnScale(st.fields, InSeconds)
  {
    hide Survives;
  }

  lemma {:induction false} ProperIsDivisible(ivl: Interval)
    requires !IsYearMonth(ivl.kind) && IsMixedRadix(ivl)
    ensures Magnitude(ivl) / UnitSeconds(ivl.kind) * UnitSeconds(ivl.kind) == Magnitude(ivl)
  {
    var d: nat, h: nat, m: nat := ivl.yearOrDay, ivl.monthOrHour, ivl.minute;
    var fields := FieldsOf(ivl.kind);
    if fields.second {
    } else if fields.minute {
      MultipleIsUncut(1440 * d + 60 * h + m);
    } else if fields.hour {
      MultipleIsUncut(24 * d + h);
    } else {
      MultipleIsUncut(d);
    }
  }

  lemma {:induction false} FinishRebalanced(ivl: Interval, st: State, precision: SecondPrecision)
    requires !IsYearMonth(ivl.kind) && IsProper(ivl, precision) && Recovered(Some(st), ivl)
    requires NeedsRebalancing(st, ivl.kind)
    requires Held(st, InSeconds) == Magnitude(ivl) && OnScale(st.fields, InSeconds)
    ensures var o := Finish(st, ivl.kind); (o.Parsed? && o.ivl == ivl) <==> Survives(ivl)
  {
    hide Magnitude, IsMixedRadix, Held, OnScale, Finish, Pow10, UnitSeconds, Balanced, CheckedSeconds, PrintedMask;
    var o := Finish(st, ivl.kind);
    ProperIsDivisible(ivl);
    FinishConserves(st, ivl.kind);
    if o.Parsed? && Magnitude(ivl) <= MAX_U32 {
      MixedRadixIsUnique(o.ivl, ivl);
    }
  }

  lemma {:induction false} FinishDays(ivl: Interval, st: State, precision: SecondPrecision)
    requires !IsYearMonth(ivl.kind) && IsProper(ivl, precision) && Recovered(Some(st), ivl)
    ensures var o := Finish(st, ivl.kind); (o.Parsed? && o.ivl == ivl) <==> Survives(ivl)
  {
    HeldIsMagnitude(ivl, st);
    if NeedsRebalancing(st, ivl.kind) {
      FinishRebalanced(ivl, st, precision);
    } else {
      hide Balanced, CheckedSeconds, IsProper, Magnitude, Pow10;
    }
  }

  /** Parsing what was printed gives the value back, for all 13 types, exactly when it survives. */
  lemma {:induction false} IsoRoundTrip(ivl: Interval, precision: SecondPrecision)
    requires IsProper(ivl, precision)
    ensures var o := ParseIso(IsoText(ivl, precision), ivl.kind, precision);
            (o.Parsed? && o.ivl == ivl) <==> Survives(ivl)
  {
    hide Run, IsoText, IsProper;
    if IsYearMonth(ivl.kind) {
      ScanPrintedMonths(ivl, precision);
      FinishMonths(ivl, Run(IsoText(ivl, precision), START, precision).value, precision);
    } else {
      ScanPrintedDays(ivl, precision);
      if !(LosesSign(ivl) && AnyClock(ivl)) {
        FinishDays(ivl, Run(IsoText(ivl, precision), START, precision).value, precision);
      }
    }
  }

  // ---- where the meaning is lost --------------------------------------------------------------

  lemma {:induction false} ScanYears(n: u32, precision: SecondPrecision)
    ensures Run("P" + FieldText(false, n, 'Y'), START, precision) == Some(Stored(BEGUN, false, n, Year))
  {
    hide Run, FieldText, FieldItem, Fold, ReadItems, IsDelimiter, RenderItems, FieldNamed, Stored;
    var text := FieldText(false, n, 'Y');
    Letters();
    FieldRendered(false, n, 'Y');
    ReadField(BEGUN, false, n, 'Y', Year, precision);
    ScanMark('P', text, START, precision);
    ScanItems(FieldItem(false, n, 'Y'), "", BEGUN, precision);
    assert text + "" == text;
    ScanNothing(Stored(BEGUN, false, n, Year), precision);
  }

  /** Years and days share storage: `P<n>Y` read as a DAY interval is n days. */
  lemma {:induction false} YearsBecomeDays(n: u32, precision: SecondPrecision)
    requires 0 < n && 86400 * n <= MAX_U32
    ensures ParseIso("P" + FieldText(false, n, 'Y'), Single(Day), precision)
         == Parsed(Interval(Single(Day), false, n, 0, 0, 0, 0), Success)
  {
    hide Run, FieldText, CheckedSeconds;
    ScanYears(n, precision);
    CheckedSumIsExact(n, 0, 0, 0);
  }

  lemma {:induction false} ScanMinutes(n: u32, precision: SecondPrecision)
    ensures Run("PT" + FieldText(false, n, 'M'), START, precision)
         == Some(Stored(BEGUN.(mode := Time), false, n, Minute))
  {
    var timed := BEGUN.(mode := Time);
    var text := FieldText(false, n, 'M');
    Letters();
    FieldRendered(false, n, 'M');
    hide Run, FieldText, FieldItem, Fold, ReadItems, IsDelimiter, RenderItems, FieldNamed;
    ReadField(timed, false, n, 'M', Minute, precision);
    hide Stored;
    assert "PT" + text == ['P'] + (['T'] + text);
    ScanMark('P', ['T'] + text, START, precision);
    ScanMark('T', text, BEGUN, precision);
    ScanItems(FieldItem(false, n, 'M'), "", timed, precision);
    assert text + "" == text;
    ScanNothing(Stored(timed, false, n, Minute), precision);
  }

  /** A product can wrap before the checked sum sees it: 71582789 minutes, read as MINUTE TO SECOND,
      are 44 seconds. */
  lemma {:induction false} MinutesWrap(precision: SecondPrecision)
    ensures ParseIso("PT" + FieldText(false, 71_582_789, 'M'), MinuteToSecond, precision)
         == Parsed(Interval(MinuteToSecond, false, 0, 0, 0, 44, 0), Success)
  {
    hide Run, FieldText;
    ScanMinutes(71_582_789, precision);
    assert CheckedSeconds(0, 0, 71_582_789, 0) == Some(44);
  }
}
