/** What the text of an SQL interval value denotes (section 5.3 of ISO/IEC 9075:1992), read without
    any limit on its fields, and the ISO-to-SQL translation. */
module SqlMeanings {
  import opened Buffers
  import opened Decimals
  import opened Intervals
  import opened IsoParser
  import opened IsoGrammar
  import opened IsoNumbers
  import opened IsoShapes
  import opened IsoMeaning
  import opened Rebalancing
  import opened IsoPrinter
  import opened SqlPrinter
  import opened Wrappers

  // ---- the denotation -------------------------------------------------------------------------

  function Separators(kind: Kind): string {
    match kind
    case Single(_) => ""
    case YearToMonth => "-"
    case DayToHour => " "
    case DayToMinute => " :"
    case DayToSecond => " ::"
    case HourToMinute => ":"
    case HourToSecond => "::"
    case MinuteToSecond => ":"
  }

  function FieldList(kind: Kind): (fields: seq<Field>)
    ensures |fields| == |Separators(kind)| + 1
  {
    match kind
    case Single(f) => [f]
    case YearToMonth => [Year, Month]
    case DayToHour => [Day, Hour]
    case DayToMinute => [Day, Hour, Minute]
    case DayToSecond => [Day, Hour, Minute, Second]
    case HourToMinute => [Hour, Minute]
    case HourToSecond => [Hour, Minute, Second]
    case MinuteToSecond => [Minute, Second]
  }

  /** The text, cut at the first occurrence of each separator in turn. */
  function Pieces(s: string, separators: string): seq<string> {
    if separators == "" || IndexOf(s, separators[0]) == |s| then [s]
    else
      var i := IndexOf(s, separators[0]);
      [s[..i]] + Pieces(s[i + 1..], separators[1..])
  }

  predicate AreNumerals(numbers: seq<string>) {
    forall i :: 0 <= i < |numbers| ==> IsNumeral(numbers[i])
  }

  function Sum(numbers: seq<string>, fields: seq<Field>, scale: Scale): nat
    requires |numbers| == |fields| && AreNumerals(numbers)
  {
    if numbers == [] then 0
    else
      assert IsNumeral(numbers[0]);
      Times(Value(numbers[0]), Weight(scale, fields[0])) + Sum(numbers[1..], fields[1..], scale)
  }

  /** A sign, an amount in months or seconds, and the digits of a fraction of a second. */
  datatype SqlMeaning = SqlMeaning(negative: bool, amount: nat, fraction: string)

  function MeaningOfPieces(kind: Kind, negative: bool, pieces: seq<string>): Option<SqlMeaning> {
    if |pieces| != |FieldList(kind)| then None else
      var last := pieces[|pieces| - 1];
      var dot := IndexOf(last, '.');
      var numbers := pieces[..|pieces| - 1] + [last[..dot]];
      var fraction := if dot < |last| then last[dot + 1..] else "";
      if !AreNumerals(numbers) || !AllDigits(fraction) || (dot < |last| && !FieldsOf(kind).second) then None
      else Some(SqlMeaning(negative, Sum(numbers, FieldList(kind), ScaleOf(kind)), fraction))
  }

  function Denoted(kind: Kind, text: string): Option<SqlMeaning> {
    var negative := text != "" && text[0] == '-';
    MeaningOfPieces(kind, negative, Pieces(if negative then text[1..] else text, Separators(kind)))
  }

  // ---- what is printed denotes what was meant --------------------------------------------------

  /** Storage of fields outside the type is zero, and the fraction is within precision. */
  predicate IsConfined(ivl: Interval, precision: SecondPrecision) {
    var fields := FieldsOf(ivl.kind);
    && (fields.year || fields.day || ivl.yearOrDay == 0)
    && (fields.month || fields.hour || ivl.monthOrHour == 0)
    && (fields.minute || ivl.minute == 0)
    && (fields.second || ivl.second == 0)
    && ivl.fraction < Pow10(precision)
  }

  lemma {:induction false} IndexAfterNumeral(number: string, rest: string, c: char)
    requires AllDigits(number) && !IsDigit(c) && (rest == "" || rest[0] == c)
    ensures IndexOf(number + rest, c) == |number|
  {
    var s := number + rest;
    if number == "" {
      assert s == rest;
    } else {
      assert s[1..] == number[1..] + rest;
      IndexAfterNumeral(number[1..], rest, c);
    }
  }

  lemma {:induction false} FirstPiece(number: string, separator: char, rest: string, separators: string)
    requires IsNumeral(number) && !IsDigit(separator)
    ensures Pieces(number + [separator] + rest, [separator] + separators) == [number] + Pieces(rest, separators)
  {
    var s := number + [separator] + rest;
    IndexAfterNumeral(number, [separator] + rest, separator);
    assert s == number + ([separator] + rest);
    assert s[..|number|] == number && s[|number| + 1..] == rest;
    assert ([separator] + separators)[1..] == separators;
  }

  /** The last piece: a numeral, or a numeral with a fraction. */
  function LastPiece(number: string, fraction: string): string {
    if fraction == "" then number else number + "." + fraction
  }

  lemma {:induction false} OnlyPiece(number: string, fraction: string)
    requires IsNumeral(number) && AllDigits(fraction)
    ensures Pieces(LastPiece(number, fraction), "") == [LastPiece(number, fraction)]
    ensures var last, dot := LastPiece(number, fraction), IndexOf(LastPiece(number, fraction), '.');
            && dot == |number| && last[..dot] == number
            && (if fraction == "" then dot == |last| else dot < |last| && last[dot + 1..] == fraction)
  {
    if fraction == "" {
      assert number + "" == number;
      IndexAfterNumeral(number, "", '.');
    } else {
      assert number + "." + fraction == number + ("." + fraction);
      IndexAfterNumeral(number, "." + fraction, '.');
    }
  }

  /** The numbers of a printed value, field by field. */
  function Numbers(ivl: Interval): seq<string> {
    var a, b, m, s := Print(ivl.yearOrDay), Print(ivl.monthOrHour), Print(ivl.minute), Print(ivl.second);
    match ivl.kind
    case Single(Year) => [a]
    case Single(Month) => [b]
    case Single(Day) => [a]
    case Single(Hour) => [b]
    case Single(Minute) => [m]
    case Single(Second) => [s]
    case YearToMonth => [a, b]
    case DayToHour => [a, b]
    case DayToMinute => [a, b, m]
    case DayToSecond => [a, b, m, s]
    case HourToMinute => [b, m]
    case HourToSecond => [b, m, s]
    case MinuteToSecond => [m, s]
  }

  lemma {:induction false} PrintedWeight(n: nat, scale: Scale, f: Field)
    ensures Times(Value(Print(n)), Weight(scale, f)) == Weight(scale, f) * n
  {
    PrintDenotes(n);
    hide Print, Value;
  }

  lemma {:induction false} Sum1(a: string, f: Field, scale: Scale)
    requires IsNumeral(a)
    ensures Sum([a], [f], scale) == Times(Value(a), Weight(scale, f))
  {
    hide Times, Weight, Value;
    assert [a][1..] == [] && [f][1..] == [];
  }

  lemma {:induction false} SingleSum(ivl: Interval, precision: SecondPrecision)
    requires IsConfined(ivl, precision) && ivl.kind.Single?
    ensures |Numbers(ivl)| == 1 && AreNumerals(Numbers(ivl))
    ensures Sum(Numbers(ivl), FieldList(ivl.kind), ScaleOf(ivl.kind)) == Magnitude(ivl)
  {
    var n := match ivl.kind.field
      case Year | Day => ivl.yearOrDay
      case Month | Hour => ivl.monthOrHour
      case Minute => ivl.minute
      case Second => ivl.second;
    assert Numbers(ivl) == [Print(n)];
    PrintedWeight(n, ScaleOf(ivl.kind), ivl.kind.field);
    hide Print, Value, Times, Sum, IsNumeral, Numbers;
    Sum1(Print(n), ivl.kind.field, ScaleOf(ivl.kind));
  }

  lemma {:induction false} Sum2(a: string, b: string, f: Field, g: Field, scale: Scale)
    requires IsNumeral(a) && IsNumeral(b)
    ensures Sum([a, b], [f, g], scale) == Times(Value(a), Weight(scale, f)) + Times(Value(b), Weight(scale, g))
  {
    hide Times, Weight, Value;
    assert [a, b][1..] == [b] && [f, g][1..] == [g];
    Sum1(b, g, scale);
  }

  lemma {:induction false} PairSum(m: nat, n: nat, f: Field, g: Field, scale: Scale)
    ensures AreNumerals([Print(m), Print(n)])
    ensures Sum([Print(m), Print(n)], [f, g], scale) == Weight(scale, f) * m + Weight(scale, g) * n
  {
    PrintedWeight(m, scale, f);
    PrintedWeight(n, scale, g);
    hide Print, Value, Times, Sum, IsNumeral, Weight;
    Sum2(Print(m), Print(n), f, g, scale);
  }

  lemma {:induction false} DoubleSum(ivl: Interval, precision: SecondPrecision)
    requires IsConfined(ivl, precision) && |FieldList(ivl.kind)| == 2
    ensures |Numbers(ivl)| == 2 && AreNumerals(Numbers(ivl))
    ensures Sum(Numbers(ivl), FieldList(ivl.kind), ScaleOf(ivl.kind)) == Magnitude(ivl)
  {
    hide Print, Value, Times, Sum, IsNumeral;
    match ivl.kind
    case YearToMonth => PairSum(ivl.yearOrDay, ivl.monthOrHour, Year, Month, InMonths);
    case DayToHour => PairSum(ivl.yearOrDay, ivl.monthOrHour, Day, Hour, InSeconds);
    case HourToMinute => PairSum(ivl.monthOrHour, ivl.minute, Hour, Minute, InSeconds);
    case MinuteToSecond => PairSum(ivl.minute, ivl.second, Minute, Second, InSeconds);
  }

  lemma {:induction false} Sum3(a: string, b: string, c: string, f: Field, g: Field, h: Field, scale: Scale)
    requires IsNumeral(a) && IsNumeral(b) && IsNumeral(c)
    ensures Sum([a, b, c], [f, g, h], scale)
         == Times(Value(a), Weight(scale, f)) + Times(Value(b), Weight(scale, g)) + Times(Value(c), Weight(scale, h))
  {
    hide Times, Weight, Value;
    assert [a, b, c][1..] == [b, c] && [f, g, h][1..] == [g, h];
    Sum2(b, c, g, h, scale);
  }

  lemma {:induction false} TripleSum(l: nat, m: nat, n: nat, f: Field, g: Field, h: Field, scale: Scale)
    ensures AreNumerals([Print(l), Print(m), Print(n)])
    ensures Sum([Print(l), Print(m), Print(n)], [f, g, h], scale)
         == Weight(scale, f) * l + Weight(scale, g) * m + Weight(scale, h) * n
  {
    PrintedWeight(l, scale, f);
    PrintedWeight(m, scale, g);
    PrintedWeight(n, scale, h);
    hide Print, Value, Times, Sum, IsNumeral, Weight;
    Sum3(Print(l), Print(m), Print(n), f, g, h, scale);
  }

  lemma {:induction false} Sum4(a: string, b: string, c: string, d: string, f: Field, g: Field, h: Field, k: Field,
                                scale: Scale)
    requires IsNumeral(a) && IsNumeral(b) && IsNumeral(c) && IsNumeral(d)
    ensures Sum([a, b, c, d], [f, g, h, k], scale)
         == Times(Value(a), Weight(scale, f)) + Times(Value(b), Weight(scale, g))
            + Times(Value(c), Weight(scale, h)) + Times(Value(d), Weight(scale, k))
  {
    hide Times, Weight, Value;
    assert [a, b, c, d][1..] == [b, c, d] && [f, g, h, k][1..] == [g, h, k];
    Sum3(b, c, d, g, h, k, scale);
  }

  lemma {:induction false} QuadSum(d: nat, h: nat, m: nat, s: nat)
    ensures AreNumerals([Print(d), Print(h), Print(m), Print(s)])
    ensures Sum([Print(d), Print(h), Print(m), Print(s)], [Day, Hour, Minute, Second], InSeconds) == DaySeconds(d, h,
        m, s)
  {
    PrintedWeight(d, InSeconds, Day);
    PrintedWeight(h, InSeconds, Hour);
    PrintedWeight(m, InSeconds, Minute);
    PrintedWeight(s, InSeconds, Second);
    hide Print, Value, Times, Sum, IsNumeral;
    Sum4(Print(d), Print(h), Print(m), Print(s), Day, Hour, Minute, Second, InSeconds);
  }

  lemma {:induction false} LongSum(ivl: Interval, precision: SecondPrecision)
    requires IsConfined(ivl, precision) && |FieldList(ivl.kind)| > 2
    ensures |Numbers(ivl)| == |FieldList(ivl.kind)| && AreNumerals(Numbers(ivl))
    ensures Sum(Numbers(ivl), FieldList(ivl.kind), ScaleOf(ivl.kind)) == Magnitude(ivl)
  {
    hide Print, Value, Times, Sum, IsNumeral;
    match ivl.kind
    case DayToMinute => TripleSum(ivl.yearOrDay, ivl.monthOrHour, ivl.minute, Day, Hour, Minute, InSeconds);
    case HourToSecond => TripleSum(ivl.monthOrHour, ivl.minute, ivl.second, Hour, Minute, Second, InSeconds);
    case DayToSecond => QuadSum(ivl.yearOrDay, ivl.monthOrHour, ivl.minute, ivl.second);
  }

  lemma {:induction false} NumbersSum(ivl: Interval, precision: SecondPrecision)
    requires IsConfined(ivl, precision)
    ensures |Numbers(ivl)| == |FieldList(ivl.kind)| && AreNumerals(Numbers(ivl))
    ensures Sum(Numbers(ivl), FieldList(ivl.kind), ScaleOf(ivl.kind)) == Magnitude(ivl)
  {
    if ivl.kind.Single? {
      SingleSum(ivl, precision);
    } else if |FieldList(ivl.kind)| == 2 {
      DoubleSum(ivl, precision);
    } else {
      LongSum(ivl, precision);
    }
  }

  // ---- the printed text denotes the value ------------------------------------------------------

  /** The fraction digits printed after the seconds. */
  function FractionText(ivl: Interval, precision: SecondPrecision): string {
    if ivl.fraction == 0 || precision == 0 || !FieldsOf(ivl.kind).second then "" else Pad(ivl.fraction, precision)
  }

  lemma {:induction false} SecondsAreLastPiece(ivl: Interval, precision: SecondPrecision)
    requires ivl.fraction < Pow10(precision) && FieldsOf(ivl.kind).second
    ensures SecondsText(ivl.second, ivl.fraction, precision) == LastPiece(Print(ivl.second), FractionText(ivl,
        precision))
  {
    SmallQuotient(ivl.fraction, Pow10(precision));
  }

  /** The pieces a printed value is made of. */
  function PrintedPieces(ivl: Interval, precision: SecondPrecision): (pieces: seq<string>)
    ensures |pieces| == |FieldList(ivl.kind)|
  {
    var a, b, m := Print(ivl.yearOrDay), Print(ivl.monthOrHour), Print(ivl.minute);
    var s := SecondsText(ivl.second, ivl.fraction, precision);
    match ivl.kind
    case Single(Year) => [a]
    case Single(Month) => [b]
    case Single(Day) => [a]
    case Single(Hour) => [b]
    case Single(Minute) => [m]
    case Single(Second) => [s]
    case YearToMonth => [a, b]
    case DayToHour => [a, b]
    case DayToMinute => [a, b, m]
    case DayToSecond => [a, b, m, s]
    case HourToMinute => [b, m]
    case HourToSecond => [b, m, s]
    case MinuteToSecond => [m, s]
  }

  lemma {:induction false} PiecesAreNumbers(ivl: Interval, precision: SecondPrecision)
    requires ivl.fraction < Pow10(precision)
    ensures var numbers := Numbers(ivl);
            && numbers != []
            && PrintedPieces(ivl, precision)
               == numbers[..|numbers| - 1] + [LastPiece(numbers[|numbers| - 1], FractionText(ivl, precision))]
  {
    if FieldsOf(ivl.kind).second {
      SecondsAreLastPiece(ivl, precision);
    }
    hide SecondsText, Print;
  }

  lemma {:induction false} TriplePieceText(ivl: Interval, precision: SecondPrecision)
    ensures var a, b, m := Print(ivl.yearOrDay), Print(ivl.monthOrHour), Print(ivl.minute);
            var s := SecondsText(ivl.second, ivl.fraction, precision);
            && (ivl.kind == DayToMinute ==>
                  && SqlValue(ivl, precision) == a + [' '] + b + [':'] + m && Separators(ivl.kind) == [' ', ':']
                  && PrintedPieces(ivl, precision) == [a, b, m])
            && (ivl.kind == HourToSecond ==>
                  && SqlValue(ivl, precision) == b + [':'] + m + [':'] + s && Separators(ivl.kind) == [':', ':']
                  && PrintedPieces(ivl, precision) == [b, m, s])
  {
    hide Print, SecondsText;
  }

  lemma {:induction false} WholePiece(s: string)
    ensures Pieces(s, "") == [s]
  {
  }

  lemma {:induction false} TwoPieces(a: string, s1: char, b: string, s2: char, last: string)
    requires IsNumeral(a) && IsNumeral(b) && !IsDigit(s1) && !IsDigit(s2)
    ensures Pieces(a + [s1] + b + [s2] + last, [s1, s2]) == [a, b] + Pieces(last, "")
  {
    hide Pieces, IsNumeral;
    assert a + [s1] + b + [s2] + last == a + [s1] + (b + [s2] + last);
    assert [s1, s2] == [s1] + [s2] && [s2] == [s2] + "";
    FirstPiece(a, s1, b + [s2] + last, [s2]);
    FirstPiece(b, s2, last, "");
  }

  lemma {:induction false} TriplePieces(a: string, s1: char, b: string, s2: char, last: string)
    requires IsNumeral(a) && IsNumeral(b) && !IsDigit(s1) && !IsDigit(s2)
    ensures Pieces(a + [s1] + b + [s2] + last, [s1, s2]) == [a, b, last]
  {
    TwoPieces(a, s1, b, s2, last);
    WholePiece(last);
    hide Pieces, IsNumeral;
    assert [a, b] + [last] == [a, b, last];
  }

  lemma {:induction false} ThreePieces(a: string, b: string, m: string, s: string)
    requires IsNumeral(a) && IsNumeral(b) && IsNumeral(m)
    ensures Pieces(a + " " + b + ":" + m + ":" + s, " ::") == [a, b, m, s]
  {
    hide Pieces, IsNumeral;
    var rest := b + [':'] + m + [':'] + s;
    assert a + " " + b + ":" + m + ":" + s == a + [' '] + rest;
    FirstPiece(a, ' ', rest, "::");
    TwoPieces(b, ':', m, ':', s);
    WholePiece(s);
    assert [' '] + "::" == " ::" && [':', ':'] == "::";
  }

  lemma {:induction false} ManyPiecesOfValue(ivl: Interval, precision: SecondPrecision)
    requires |FieldList(ivl.kind)| > 2
    ensures Pieces(SqlValue(ivl, precision), Separators(ivl.kind)) == PrintedPieces(ivl, precision)
  {
    var a, b, m := Print(ivl.yearOrDay), Print(ivl.monthOrHour), Print(ivl.minute);
    var s := SecondsText(ivl.second, ivl.fraction, precision);
    if ivl.kind == DayToSecond {
      hide SecondsText, Print, IsNumeral, Pieces;
      ThreePieces(a, b, m, s);
    } else {
      TriplePieceText(ivl, precision);
      hide SecondsText, Print, IsNumeral, Pieces, SqlValue, Separators, PrintedPieces;
      if ivl.kind == DayToMinute {
        TriplePieces(a, ' ', b, ':', m);
      } else {
        TriplePieces(b, ':', m, ':', s);
      }
    }
  }

  lemma {:induction false} PairPieces(a: string, separator: char, b: string)
    requires IsNumeral(a) && !IsDigit(separator)
    ensures Pieces(a + [separator] + b, [separator]) == [a, b]
  {
    hide IsNumeral;
    assert [separator] + "" == [separator];
    FirstPiece(a, separator, b, "");
  }

  lemma {:induction false} FewPiecesOfValue(ivl: Interval, precision: SecondPrecision)
    requires |FieldList(ivl.kind)| <= 2
    ensures Pieces(SqlValue(ivl, precision), Separators(ivl.kind)) == PrintedPieces(ivl, precision)
  {
    var a, b, m := Print(ivl.yearOrDay), Print(ivl.monthOrHour), Print(ivl.minute);
    var s := SecondsText(ivl.second, ivl.fraction, precision);
    hide SecondsText, Print, IsNumeral, Pieces;
    WholePiece(SqlValue(ivl, precision));
    match ivl.kind
    case Single(_) =>
    case YearToMonth => PairPieces(a, '-', b);
    case DayToHour => PairPieces(a, ' ', b);
    case HourToMinute => PairPieces(b, ':', m);
    case MinuteToSecond => PairPieces(m, ':', s);
  }

  /** Cutting a printed value at its separators gives the pieces back. */
  lemma {:induction false} PiecesOfValue(ivl: Interval, precision: SecondPrecision)
    ensures Pieces(SqlValue(ivl, precision), Separators(ivl.kind)) == PrintedPieces(ivl, precision)
  {
    if |FieldList(ivl.kind)| <= 2 {
      FewPiecesOfValue(ivl, precision);
    } else {
      ManyPiecesOfValue(ivl, precision);
    }
  }

  lemma {:induction false} DenotedWithSign(kind: Kind, negative: bool, value: string)
    requires value != "" && IsDigit(value[0])
    ensures Denoted(kind, SignText(negative) + value)
         == MeaningOfPieces(kind, negative, Pieces(value, Separators(kind)))
  {
    hide Pieces, MeaningOfPieces, Separators;
    var text := SignText(negative) + value;
    assert negative ==> text[1..] == value;
    assert !negative ==> text == value;
  }

  lemma {:induction false} NumbersMean(kind: Kind, negative: bool, numbers: seq<string>, fraction: string)
    requires |numbers| == |FieldList(kind)| && AreNumerals(numbers) && AllDigits(fraction)
    requires fraction == "" || FieldsOf(kind).second
    ensures MeaningOfPieces(kind, negative, numbers[..|numbers| - 1] + [LastPiece(numbers[|numbers| - 1], fraction)])
         == Some(SqlMeaning(negative, Sum(numbers, FieldList(kind), ScaleOf(kind)), fraction))
  {
    var n := numbers[|numbers| - 1];
    var pieces := numbers[..|numbers| - 1] + [LastPiece(n, fraction)];
    OnlyPiece(n, fraction);
    assert pieces[..|pieces| - 1] == numbers[..|numbers| - 1];
    assert numbers[..|numbers| - 1] + [n] == numbers;
    hide Sum, FieldList, LastPiece, IsNumeral;
  }

  lemma {:induction false} FractionDenotes(ivl: Interval, precision: SecondPrecision)
    requires ivl.fraction < Pow10(precision)
    ensures AllDigits(FractionText(ivl, precision))
    ensures FieldsOf(ivl.kind).second ==> Value(FractionText(ivl, precision)) == ivl.fraction
    ensures !FieldsOf(ivl.kind).second ==> FractionText(ivl, precision) == ""
  {
    assert Pow10(0) == 1;
    PadDenotes(ivl.fraction, precision);
  }

  lemma {:induction false} ValueStartsWithDigit(ivl: Interval, precision: SecondPrecision)
    ensures SqlValue(ivl, precision) != "" && IsDigit(SqlValue(ivl, precision)[0])
  {
    assert IsNumeral(Print(ivl.yearOrDay)) && IsNumeral(Print(ivl.monthOrHour)) && IsNumeral(Print(ivl.minute));
    assert SecondsText(ivl.second, ivl.fraction, precision) != ""
        && IsDigit(SecondsText(ivl.second, ivl.fraction, precision)[0]);
    hide Print, SecondsText;
  }

  /** The printed text of any confined value denotes its sign, its amount and its fraction. */
  lemma {:induction false} SqlTextDenotes(ivl: Interval, precision: SecondPrecision)
    requires IsConfined(ivl, precision)
    ensures Denoted(ivl.kind, SqlText(ivl, precision))
         == Some(SqlMeaning(ivl.negative, Magnitude(ivl), FractionText(ivl, precision)))
    ensures AllDigits(FractionText(ivl, precision))
    ensures FieldsOf(ivl.kind).second ==> Value(FractionText(ivl, precision)) == ivl.fraction
  {
    ValueStartsWithDigit(ivl, precision);
    PiecesOfValue(ivl, precision);
    PiecesAreNumbers(ivl, precision);
    NumbersSum(ivl, precision);
    FractionDenotes(ivl, precision);
    NumbersMean(ivl.kind, ivl.negative, Numbers(ivl), FractionText(ivl, precision));
    DenotedWithSign(ivl.kind, ivl.negative, SqlValue(ivl, precision));
    hide Denoted, Pieces, SqlValue, Sum, Numbers, LastPiece, Separators, FractionText, Magnitude, IsConfined,
         IsNumeral, PrintedPieces, MeaningOfPieces, AreNumerals, FieldList, FieldsOf, ScaleOf;
  }

  // ---- the translation --------------------------------------------------------------------------

  /** Slots that no field of the text goes to are empty. */
  lemma {:induction false} UnsetSlots(d: Duration, kind: Kind, precision: SecondPrecision)
    requires IsWellFormed(d) && FieldsIn(d).Within(FieldsOf(kind))
    ensures var fields := FieldsIn(d);
            && (!fields.year && !fields.day ==> Overlaid(d, DaySlot) == 0)
            && (!fields.month && !fields.hour ==> Overlaid(d, HourSlot) == 0)
            && (!fields.minute ==> Overlaid(d, MinuteSlot) == 0)
            && (!fields.second ==> Overlaid(d, SecondSlot) == 0 && FractionOf(d, precision) == 0)
  {
    hide Meaning, Pow10, FractionOf, Overlaid, IsWellFormed, FieldsIn, IsNegative, CodeOf, Held, EndsInPoint, FieldsOf,
         Loss, Denotes;
    Accepts(d, precision);
    ScaleOfKind(FieldsIn(d), kind);
    ScannerHoldsMeaning(d, ScaleOf(kind), precision);
    StoredSlots(d, precision);
    StoredAsWritten(d, precision);
  }

  /** A parsed value is confined to its type, whatever its size. */
  lemma {:induction false} ParsedIsConfined(d: Duration, kind: Kind, precision: SecondPrecision)
    requires IsWellFormed(d) && ParseIso(Render(d), kind, precision).Parsed?
    ensures var ivl := ParseIso(Render(d), kind, precision).ivl;
            && IsConfined(ivl, precision) && ivl.kind == kind
            && ivl.negative == IsNegative(d) && ivl.fraction == FractionOf(d, precision)
  {
    hide Meaning, Render, ParseIso, Pow10, FractionOf, Overlaid, IsWellFormed, FieldsIn, IsNegative, CodeOf, Held,
         CheckedSeconds, Balanced, EndsInPoint;
    ParsesAsUnderstood(d, kind, precision);
    FractionFitsIn(d, precision);
    if Rebalances(d, kind) {
      var secs := OverlaidSum(d).value;
      BalancedIsMixedRadix(kind, IsNegative(d), secs, FractionOf(d, precision));
      BalancedKeeps(kind, IsNegative(d), secs, FractionOf(d, precision));
    } else {
      UnsetSlots(d, kind, precision);
    }
  }

  /** What of an amount a type keeps: all of it, or what is left by the cut to its smallest field. */
  function Cutting(d: Duration, kind: Kind, amount: nat): nat {
    if Rebalances(d, kind) then amount / UnitSeconds(kind) * UnitSeconds(kind) else amount
  }

  lemma {:induction false} FractionDenotesIn(ivl: Interval, precision: SecondPrecision)
    ensures !FieldsOf(ivl.kind).second ==> FractionText(ivl, precision) == ""
  {
  }

  /** The translated text denotes what the ISO text denotes: the same sign, the same fraction at the
      record's precision if the type has seconds, and the same amount - cut to the smallest field of the
      type if the value had to be rebalanced - exactly if a rebalanced amount fits 32 bits, and no number
      of another is a `-` before 2^63. */
  lemma {:induction false} TranslationPreservesMeaning(d: Duration, kind: Kind, precision: SecondPrecision)
    requires IsWellFormed(d) && ParseIso(Render(d), kind, precision).Parsed?
    requires OnScale(FieldsIn(d), ScaleOf(kind))
    ensures var amount := Denotes(d, ScaleOf(kind));
            var sql := Denoted(kind, SqlText(ParseIso(Render(d), kind, precision).ivl, precision));
            && sql.Some? && sql.value.negative == IsNegative(d)
            && (sql.value.amount == Cutting(d, kind, amount)
                <==> if Rebalances(d, kind) then amount <= MAX_U32 else NoneVanishes(AllItems(d)))
            && (if FieldsOf(kind).second then
                  AllDigits(sql.value.fraction) && Value(sql.value.fraction) == FractionOf(d, precision)
                else sql.value.fraction == "")
  {
    var ivl := ParseIso(Render(d), kind, precision).ivl;
    ParsedIsConfined(d, kind, precision);
    hide ParseIso, Denotes, IsConfined, SqlText, Denoted, Render, FractionOf, FractionText, IsWellFormed, FieldsIn,
         IsNegative, OverlaidSum, EndsInPoint, FieldsOf, NoneVanishes, OnScale, Magnitude, IsMixedRadix, Loss;
    SqlTextDenotes(ivl, precision);
    FractionDenotesIn(ivl, precision);
    if Rebalances(d, kind) {
      StorageIsConserved(d, kind, precision);
      RebalancingConservesTime(d, kind, precision);
    } else {
      ParsedFields(d, kind, precision);
      ExactFieldsConserve(d, kind, precision);
    }
  }

  lemma {:induction false} LongValueFits(ivl: Interval, precision: SecondPrecision)
    requires |Print(ivl.yearOrDay)| <= 10 && |Print(ivl.monthOrHour)| <= 10 && |Print(ivl.minute)| <= 10
    requires |SecondsText(ivl.second, ivl.fraction, precision)| <= 20 && |FieldList(ivl.kind)| > 2
    ensures |SqlValue(ivl, precision)| <= 53
  {
    hide Print, SecondsText;
  }

  lemma {:induction false} FieldFits(n: u32)
    ensures |Print(n)| <= 10
  {
    Pow10Sum(5, 5);
    assert Pow10(5) == 100_000;
    PrintLength(n, 10);
  }

  lemma {:induction false} SecondsFit(ivl: Interval, precision: SecondPrecision)
    requires ivl.fraction < Pow10(precision)
    ensures |SecondsText(ivl.second, ivl.fraction, precision)| <= 20
  {
    FieldFits(ivl.second);
    SmallQuotient(ivl.fraction, Pow10(precision));
    hide Print, Pow10;
  }

  /** Any interval whatever is printed with at most 54 characters: the sign, four fields and the fraction. The
      translation's local buffer has room for 55 and a terminator. */
  lemma {:induction false} SqlTextFits(ivl: Interval, precision: SecondPrecision)
    requires ivl.fraction < Pow10(precision)
    ensures |SqlText(ivl, precision)| <= 54
  {
    FieldFits(ivl.yearOrDay);
    FieldFits(ivl.monthOrHour);
    FieldFits(ivl.minute);
    SecondsFit(ivl, precision);
    hide Print, SecondsText;
    if |FieldList(ivl.kind)| > 2 {
      LongValueFits(ivl, precision);
    }
  }

  lemma {:induction false} ParsedFractionFits(text: string, kind: Kind, precision: SecondPrecision)
    requires ParseIso(text, kind, precision).Parsed?
    ensures ParseIso(text, kind, precision).ivl.fraction < Pow10(precision)
  {
    hide Run, Meaning, Render, IsWellFormed;
    var d := Parse(text, precision);
    Accepts(d, precision);
    ParsedIsConfined(d, kind, precision);
  }

  /** `interval_iso8601_to_sql`: the translated text and its terminator, or nothing. */
  method IsoToSql(text: string, kind: Kind, precision: SecondPrecision, lit: array<char>)
    returns (chars0: nat, ret: Outcome)
    requires lit.Length >= 56
    modifies lit
    ensures ret == ParseIso(text, kind, precision)
    ensures ret.Parsed? ==> chars0 == |SqlText(ret.ivl, precision)| + 1 <= lit.Length
                            && lit[..chars0] == SqlText(ret.ivl, precision) + ['\0']
    ensures !ret.Parsed? ==> lit[..] == old(lit[..])
  {
    ret := ParseInterval(text, kind, precision);
    chars0 := 0;
    if ret.Parsed? {
      ParsedFractionFits(text, kind, precision);
      SqlTextFits(ret.ivl, precision);
      ghost var base := lit[..];
      hide ParseIso, SqlText, Pow10;
      chars0 := PrintSql(ret.ivl, precision, lit);
      chars0 := Put(lit, chars0, ['\0'], base, 0, SqlText(ret.ivl, precision));
    }
  }
}
