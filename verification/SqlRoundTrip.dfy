/** Printing an interval as an SQL literal and parsing it back. */
module SqlRoundTrip {
  import opened Decimals
  import opened Integers
  import opened Intervals
  import opened IsoGrammar
  import opened IsoShapes
  import opened IsoMeaning
  import opened IsoParser
  import opened IsoPrinter
  import opened Rebalancing
  import opened SqlPrinter
  import opened SqlLiterals
  import opened SqlGrammar
  import M = SqlMeanings

  // ---- printed numbers ----------------------------------------------------------------------------

  predicate Ends(rest: string) {
    rest == "" || !IsDigit(rest[0])
  }

  lemma {:induction false} FieldReads(n: u32, rest: string, limit: u32, rec: Record)
    requires Ends(rest)
    ensures ReadField(Print(n) + rest, limit, rec)
         == if limit == 0 && !Fits(n, rec) then Fault(S22018)
            else if limit != 0 && limit < n then Fault(S22015)
            else Ok((n, rest))
  {
    PrintDenotes(n);
    ReadNumeral(Print(n), rest);
    hide Print, ReadUnsigned, Value;
    assert (Print(n) + rest)[|Print(n)|..] == rest;
  }

  lemma {:induction false} LastReads(n: u32, limit: u32, rec: Record)
    ensures ReadLast(Print(n), limit, rec)
         == if limit == 0 && !Fits(n, rec) then Fault(S22018)
            else if limit != 0 && limit < n then Fault(S22015)
            else Ok(n)
  {
    hide Print, ReadField;
    FieldReads(n, "", limit, rec);
    assert Print(n) + "" == Print(n);
  }

  lemma {:induction false} DecimalsRead(decimals: string, fraction: u32, rec: Record)
    requires IsNumeral(decimals) && Value(decimals) == fraction
    ensures ReadField(decimals, MAX_U32, rec) == Ok((fraction, ""))
  {
    ReadNumeral(decimals, "");
    assert decimals + "" == decimals;
  }

  lemma {:induction false} SecondAndFraction(second: u32, fraction: u32, limit: u32, rec: Record)
    requires 0 < fraction < Pow10(rec.precision) && rec.precision > 0
    requires limit == 0 || second <= limit
    ensures ReadSecond(SecondsText(second, fraction, rec.precision), limit, rec)
         == if limit == 0 && !Fits(second, rec) then Fault(S22018) else Ok((second, fraction))
  {
    var p := rec.precision;
    var decimals := Pad(fraction, p);
    var tail := "." + decimals;
    SmallQuotient(fraction, Pow10(p));
    PadDenotes(fraction, p);
    DecimalsRead(decimals, fraction, rec);
    RescaleToSame(fraction, p);
    hide Print, ReadField, Pow10, Pad, Rescale, Value;
    assert SecondsText(second, fraction, p) == Print(second) + tail by {
      assert Print(second) + "." + decimals == Print(second) + ("." + decimals);
    }
    assert tail[1..] == decimals;
    FieldReads(second, tail, limit, rec);
  }

  lemma {:induction false} SecondReads(second: u32, fraction: u32, limit: u32, rec: Record)
    requires fraction < Pow10(rec.precision)
    requires limit == 0 || second <= limit
    ensures ReadSecond(SecondsText(second, fraction, rec.precision), limit, rec)
         == if limit == 0 && !Fits(second, rec) then Fault(S22018) else Ok((second, fraction))
  {
    if fraction == 0 || rec.precision == 0 {
      assert Pow10(0) == 1;
      hide Print, ReadField, Pow10;
      FieldReads(second, "", limit, rec);
      assert Print(second) + "" == Print(second);
    } else {
      SecondAndFraction(second, fraction, limit, rec);
    }
  }

  // ---- printed values -----------------------------------------------------------------------------

  lemma {:induction false} SingleReads(ivl: Interval, rec: Record)
    requires IsProper(ivl, rec.precision) && ivl.kind.Single?
    ensures ReadValue(ivl.kind, ivl.negative, SqlValue(ivl, rec.precision), rec)
         == if Fits(Leading(ivl), rec) then Ok(ivl) else Fault(S22018)
  {
    hide Print, ReadLast, ReadSecond, SecondsText, Fits, Pow10;
    if ivl.kind.field == Second {
      SecondReads(ivl.second, ivl.fraction, 0, rec);
    } else {
      LastReads(Leading(ivl), 0, rec);
    }
  }

  lemma {:induction false} NumberIsTrimmed(s: string)
    requires s != "" && !IsSpace(s[0])
    ensures TrimLeft(s) == s && TrimLeft(" " + s) == s
  {
    assert (" " + s)[1..] == s;
  }

  lemma {:induction false} PrintIsTrimmed(n: nat, rest: string)
    ensures TrimLeft(" " + (Print(n) + rest)) == Print(n) + rest
    ensures TrimLeft(Print(n) + rest) == Print(n) + rest
  {
    var s := Print(n) + rest;
    assert s[0] == Print(n)[0] && IsDigit(s[0]);
    hide Print;
    NumberIsTrimmed(s);
  }

  lemma {:induction false} DashIsTrimmed(b: string)
    ensures TrimLeft("-" + b) == "-" + b && ("-" + b)[1..] == b
  {
  }

  lemma {:induction false} YearToMonthReads(ivl: Interval, rec: Record)
    requires IsProper(ivl, rec.precision) && ivl.kind == YearToMonth
    ensures ReadValue(ivl.kind, ivl.negative, SqlValue(ivl, rec.precision), rec)
         == if Fits(Leading(ivl), rec) then Ok(ivl) else Fault(S22018)
  {
    var a, b := Print(ivl.yearOrDay), Print(ivl.monthOrHour);
    PrintIsTrimmed(ivl.monthOrHour, "");
    DashIsTrimmed(b);
    hide Print, ReadLast, ReadField, Fits, TrimLeft, Pow10;
    assert b + "" == b && a + "-" + b == a + ("-" + b);
    FieldReads(ivl.yearOrDay, "-" + b, 0, rec);
    LastReads(ivl.monthOrHour, 11, rec);
  }

  lemma {:induction false} DayToHourReads(ivl: Interval, rec: Record)
    requires IsProper(ivl, rec.precision) && ivl.kind == DayToHour
    ensures ReadValue(ivl.kind, ivl.negative, SqlValue(ivl, rec.precision), rec)
         == if Fits(Leading(ivl), rec) then Ok(ivl) else Fault(S22018)
  {
    var a, b := Print(ivl.yearOrDay), Print(ivl.monthOrHour);
    PrintIsTrimmed(ivl.monthOrHour, "");
    hide Print, ReadLast, ReadField, Fits, TrimLeft, Pow10;
    assert b + "" == b && a + " " + b == a + (" " + b);
    FieldReads(ivl.yearOrDay, " " + b, 0, rec);
    LastReads(ivl.monthOrHour, 23, rec);
  }

  lemma {:induction false} DayToMinuteReads(ivl: Interval, rec: Record)
    requires IsProper(ivl, rec.precision) && ivl.kind == DayToMinute
    ensures ReadValue(ivl.kind, ivl.negative, SqlValue(ivl, rec.precision), rec)
         == if Fits(Leading(ivl), rec) then Ok(ivl) else Fault(S22018)
  {
    var a, b, m := Print(ivl.yearOrDay), Print(ivl.monthOrHour), Print(ivl.minute);
    PrintIsTrimmed(ivl.monthOrHour, ":" + m);
    hide Print, ReadLast, ReadField, Fits, TrimLeft, Pow10;
    assert a + " " + b + ":" + m == a + (" " + (b + (":" + m)));
    FieldReads(ivl.yearOrDay, " " + (b + (":" + m)), 0, rec);
    FieldReads(ivl.monthOrHour, ":" + m, 23, rec);
    assert (":" + m)[1..] == m;
    LastReads(ivl.minute, 59, rec);
  }

  lemma {:induction false} HourToMinuteReads(ivl: Interval, rec: Record)
    requires IsProper(ivl, rec.precision) && ivl.kind == HourToMinute
    ensures ReadValue(ivl.kind, ivl.negative, SqlValue(ivl, rec.precision), rec)
         == if Fits(Leading(ivl), rec) then Ok(ivl) else Fault(S22018)
  {
    var b, m := Print(ivl.monthOrHour), Print(ivl.minute);
    hide Print, ReadLast, ReadField, Fits, TrimLeft, Pow10;
    assert b + ":" + m == b + (":" + m);
    FieldReads(ivl.monthOrHour, ":" + m, 0, rec);
    assert (":" + m)[1..] == m;
    LastReads(ivl.minute, 59, rec);
  }

  lemma {:induction false} PairReads(ivl: Interval, rec: Record)
    requires IsProper(ivl, rec.precision) && !ivl.kind.Single? && !FieldsOf(ivl.kind).second
    ensures ReadValue(ivl.kind, ivl.negative, SqlValue(ivl, rec.precision), rec)
         == if Fits(Leading(ivl), rec) then Ok(ivl) else Fault(S22018)
  {
    hide ReadValue, SqlValue, Fits, IsProper;
    match ivl.kind
    case YearToMonth => YearToMonthReads(ivl, rec);
    case DayToHour => DayToHourReads(ivl, rec);
    case DayToMinute => DayToMinuteReads(ivl, rec);
    case HourToMinute => HourToMinuteReads(ivl, rec);
  }

  /** A separator, and what follows it. */
  predicate Follows(rest: string, separator: char, tail: string) {
    rest != "" && rest[0] == separator && rest[1..] == tail
  }

  lemma {:induction false} MinuteToSecondChain(negative: bool, text: string, rec: Record, m: u32, rest: string,
                                               s: string,
                                               second: u32, f: u32)
    requires ReadField(text, 0, rec) == Ok((m, rest)) && Follows(rest, ':', s)
    requires ReadSecond(s, 59, rec) == Ok((second, f))
    ensures ReadValue(MinuteToSecond, negative, text, rec) == Ok(Interval(MinuteToSecond, negative, 0, 0, m, second, f))
  {
    hide ReadField, ReadSecond;
  }

  lemma {:induction false} LeadingFaults(kind: Kind, negative: bool, text: string, rec: Record)
    requires kind == DayToSecond || kind == HourToSecond || kind == MinuteToSecond
    requires ReadField(text, 0, rec) == Fault(S22018)
    ensures ReadValue(kind, negative, text, rec) == Fault(S22018)
  {
    hide ReadField, ReadSecond, TrimLeft, Skip;
  }

  lemma {:induction false} Colon(tail: string)
    ensures Follows(":" + tail, ':', tail) && Ends(":" + tail)
  {
  }

  lemma {:induction false} MinuteToSecondReads(ivl: Interval, rec: Record)
    requires IsProper(ivl, rec.precision) && ivl.kind == MinuteToSecond
    ensures ReadValue(ivl.kind, ivl.negative, SqlValue(ivl, rec.precision), rec)
         == if Fits(Leading(ivl), rec) then Ok(ivl) else Fault(S22018)
  {
    var s := SecondsText(ivl.second, ivl.fraction, rec.precision);
    hide ReadValue, ReadField, ReadSecond, Print, SecondsText, Follows, Fits, Pow10;
    var text := Print(ivl.minute) + (":" + s);
    assert SqlValue(ivl, rec.precision) == text;
    Colon(s);
    SecondReads(ivl.second, ivl.fraction, 59, rec);
    FieldReads(ivl.minute, ":" + s, 0, rec);
    if Fits(ivl.minute, rec) {
      MinuteToSecondChain(ivl.negative, text, rec, ivl.minute, ":" + s, s, ivl.second, ivl.fraction);
    } else {
      LeadingFaults(ivl.kind, ivl.negative, text, rec);
    }
  }

  lemma {:induction false} HourToSecondChain(negative: bool, text: string, rec: Record, h: u32, rest: string, t: string,
                                             m: u32, rest': string, s: string, second: u32, f: u32)
    requires ReadField(text, 0, rec) == Ok((h, rest)) && Follows(rest, ':', t)
    requires ReadField(t, 59, rec) == Ok((m, rest')) && Follows(rest', ':', s)
    requires ReadSecond(s, 59, rec) == Ok((second, f))
    ensures ReadValue(HourToSecond, negative, text, rec) == Ok(Interval(HourToSecond, negative, 0, h, m, second, f))
  {
    hide ReadField, ReadSecond;
  }

  lemma {:induction false} HourToSecondReads(ivl: Interval, rec: Record)
    requires IsProper(ivl, rec.precision) && ivl.kind == HourToSecond
    ensures ReadValue(ivl.kind, ivl.negative, SqlValue(ivl, rec.precision), rec)
         == if Fits(Leading(ivl), rec) then Ok(ivl) else Fault(S22018)
  {
    var s := SecondsText(ivl.second, ivl.fraction, rec.precision);
    hide ReadValue, ReadField, ReadSecond, Print, SecondsText, Follows, Fits, Pow10;
    var t := Print(ivl.minute) + (":" + s);
    var text := Print(ivl.monthOrHour) + (":" + t);
    assert SqlValue(ivl, rec.precision) == text;
    Colon(s);
    Colon(t);
    SecondReads(ivl.second, ivl.fraction, 59, rec);
    FieldReads(ivl.minute, ":" + s, 59, rec);
    FieldReads(ivl.monthOrHour, ":" + t, 0, rec);
    if Fits(ivl.monthOrHour, rec) {
      HourToSecondChain(ivl.negative, text, rec, ivl.monthOrHour, ":" + t, t,
                        ivl.minute, ":" + s, s, ivl.second, ivl.fraction);
    } else {
      LeadingFaults(ivl.kind, ivl.negative, text, rec);
    }
  }

  lemma {:induction false} DayToSecondChain(negative: bool, text: string, rec: Record, d: u32, blank: string, u: string,
                                            h: u32, rest: string, t: string,
                                            m: u32, rest': string, s: string, second: u32, f: u32)
    requires ReadField(text, 0, rec) == Ok((d, blank)) && TrimLeft(blank) == u
    requires ReadField(u, 23, rec) == Ok((h, rest)) && Follows(rest, ':', t)
    requires ReadField(t, 59, rec) == Ok((m, rest')) && Follows(rest', ':', s)
    requires ReadSecond(s, 59, rec) == Ok((second, f))
    ensures ReadValue(DayToSecond, negative, text, rec) == Ok(Interval(DayToSecond, negative, d, h, m, second, f))
  {
    hide ReadField, ReadSecond, TrimLeft;
  }

  lemma {:induction false} DayToSecondReads(ivl: Interval, rec: Record)
    requires IsProper(ivl, rec.precision) && ivl.kind == DayToSecond
    ensures ReadValue(ivl.kind, ivl.negative, SqlValue(ivl, rec.precision), rec)
         == if Fits(Leading(ivl), rec) then Ok(ivl) else Fault(S22018)
  {
    hide ReadValue, ReadField, ReadSecond, Print, SecondsText, Follows, Fits, TrimLeft, Pow10;
    var s := SecondsText(ivl.second, ivl.fraction, rec.precision);
    var t := Print(ivl.minute) + (":" + s);
    PrintIsTrimmed(ivl.monthOrHour, ":" + t);
    var u := Print(ivl.monthOrHour) + (":" + t);
    var text := Print(ivl.yearOrDay) + (" " + u);
    assert SqlValue(ivl, rec.precision) == text;
    Colon(s);
    Colon(t);
    SecondReads(ivl.second, ivl.fraction, 59, rec);
    FieldReads(ivl.minute, ":" + s, 59, rec);
    FieldReads(ivl.monthOrHour, ":" + t, 23, rec);
    FieldReads(ivl.yearOrDay, " " + u, 0, rec);
    if Fits(ivl.yearOrDay, rec) {
      DayToSecondChain(ivl.negative, text, rec, ivl.yearOrDay, " " + u, u, ivl.monthOrHour, ":" + t, t,
                       ivl.minute, ":" + s, s, ivl.second, ivl.fraction);
    } else {
      LeadingFaults(ivl.kind, ivl.negative, text, rec);
    }
  }

  lemma {:induction false} ToSecondReads(ivl: Interval, rec: Record)
    requires IsProper(ivl, rec.precision) && !ivl.kind.Single? && FieldsOf(ivl.kind).second
    ensures ReadValue(ivl.kind, ivl.negative, SqlValue(ivl, rec.precision), rec)
         == if Fits(Leading(ivl), rec) then Ok(ivl) else Fault(S22018)
  {
    hide ReadValue, SqlValue, Fits, IsProper;
    match ivl.kind
    case DayToSecond => DayToSecondReads(ivl, rec);
    case HourToSecond => HourToSecondReads(ivl, rec);
    case MinuteToSecond => MinuteToSecondReads(ivl, rec);
  }

  /** The value parser reads a proper value back exactly when its leading field fits. */
  lemma {:induction false} ValueReads(ivl: Interval, rec: Record)
    requires IsProper(ivl, rec.precision)
    ensures ReadValue(ivl.kind, ivl.negative, SqlValue(ivl, rec.precision), rec)
         == if Fits(Leading(ivl), rec) then Ok(ivl) else Fault(S22018)
  {
    if ivl.kind.Single? {
      SingleReads(ivl, rec);
    } else if FieldsOf(ivl.kind).second {
      ToSecondReads(ivl, rec);
    } else {
      PairReads(ivl, rec);
    }
  }

  // ---- the qualifier ------------------------------------------------------------------------------

  function FieldWord(f: Field): string {
    match f
    case Year => "YEAR"
    case Month => "MONTH"
    case Day => "DAY"
    case Hour => "HOUR"
    case Minute => "MINUTE"
    case Second => "SECOND"
  }

  /** The qualifier of a type, as SQL spells it. */
  function Qualifier(kind: Kind): string {
    match kind
    case Single(f) => FieldWord(f)
    case YearToMonth => "YEAR TO MONTH"
    case DayToHour => "DAY TO HOUR"
    case DayToMinute => "DAY TO MINUTE"
    case DayToSecond => "DAY TO SECOND"
    case HourToMinute => "HOUR TO MINUTE"
    case HourToSecond => "HOUR TO SECOND"
    case MinuteToSecond => "MINUTE TO SECOND"
  }

  /** Taking the last word off leaves what was before it, without the space between. */
  lemma {:induction false} WordTaken(text: string, spelled: string, word: string)
    requires text != "" && !IsSpace(text[|text| - 1])
    requires LowerAll(spelled) == word
    ensures Without(text + " " + spelled, word) == Ok(text)
  {
    var s := text + " " + spelled;
    assert s[|s| - |word|..] == spelled;
    assert s[..|s| - |word|] == text + " ";
    assert (text + " ")[..|text|] == text && IsSpace((text + " ")[|text|]);
    assert TrimRight(text + " ") == TrimRight(text) == text;
    assert |spelled| == |word|;
  }

  lemma {:induction false} Halves(a: string, a': string, b: string, b': string)
    requires LowerAll(a) == a' && LowerAll(b) == b'
    ensures LowerAll(a + b) == a' + b'
  {
  }

  lemma {:induction false} FieldWords()
    ensures LowerAll("YEAR") == "year" && LowerAll("MONTH") == "month" && LowerAll("DAY") == "day"
    ensures LowerAll("TO") == "to"
  {
    Halves("YE", "ye", "AR", "ar");
    Halves("MO", "mo", "NTH", "nth");
    assert "YEAR" == "YE" + "AR" && "year" == "ye" + "ar";
    assert "MONTH" == "MO" + "NTH" && "month" == "mo" + "nth";
  }

  lemma {:induction false} TimeWords()
    ensures LowerAll("HOUR") == "hour" && LowerAll("MINUTE") == "minute" && LowerAll("SECOND") == "second"
  {
    Halves("HO", "ho", "UR", "ur");
    Halves("MIN", "min", "UTE", "ute");
    Halves("SEC", "sec", "OND", "ond");
    assert "HOUR" == "HO" + "UR" && "hour" == "ho" + "ur";
    assert "MINUTE" == "MIN" + "UTE" && "minute" == "min" + "ute";
    assert "SECOND" == "SEC" + "OND" && "second" == "sec" + "ond";
  }

  lemma {:induction false} Words()
    ensures LowerAll("YEAR") == "year" && LowerAll("MONTH") == "month" && LowerAll("DAY") == "day"
    ensures LowerAll("HOUR") == "hour" && LowerAll("MINUTE") == "minute" && LowerAll("SECOND") == "second"
    ensures LowerAll("TO") == "to"
  {
    FieldWords();
    TimeWords();
    hide LowerAll;
  }

  lemma {:induction false} IntervalWord()
    ensures LowerAll("INTERVAL") == INTERVAL
  {
    Halves("INT", "int", "ERV", "erv");
    Halves("INT" + "ERV", "int" + "erv", "AL", "al");
    assert "INT" + "ERV" + "AL" == "INTERVAL" && "int" + "erv" + "al" == INTERVAL;
  }

  lemma {:induction false} SingleQualifier(body: string, f: Field)
    requires EndsValue(body)
    ensures ReadQualifier(body + " " + FieldWord(f)) == Ok((Single(f), body))
  {
    Words();
    WordTaken(body, FieldWord(f), LowerAll(FieldWord(f)));
    hide Without, LowerAll;
  }

  /** The words of a two-field qualifier are taken off one by one. */
  ghost predicate TakenApart(text: string, last: string, first: string, body: string) {
    var withTo := Without(text, last);
    && |text| > 3 && withTo.Ok? && !EndsValue(withTo.value)
    && var withFirst := Without(withTo.value, "to");
    && withFirst.Ok? && withFirst.value != ""
    && Without(withFirst.value, first) == Ok(body)
  }

  /** The first word of a qualifier, with the text before it. */
  function FirstOf(text: string, last: string): string {
    var withTo := Without(text, last);
    if withTo.Fault? || Without(withTo.value, "to").Fault? then "" else Without(withTo.value, "to").value
  }

  lemma {:induction false} NoSpace(letter: char)
    requires 'A' <= letter <= 'Z'
    ensures !IsSpace(letter)
  {
  }

  lemma {:induction false} TakesApart(body: string, first: string, last: string, first': string, last': string)
    requires EndsValue(body) && |first| > 1 && !IsSpace(first[|first| - 1]) && |last| > 1 && !IsSpace(last[|last| - 1])
    requires LowerAll(first) == first' && LowerAll(last) == last'
    ensures var text := body + " " + (first + " TO " + last);
            && TakenApart(text, last', first', body) && FirstOf(text, last') == body + " " + first
            && text[|text| - 1] == last[|last| - 1] && text[|text| - 2] == last[|last| - 2]
  {
    var withFirst := body + " " + first;
    var withTo := withFirst + " " + "TO";
    assert body + " " + (first + " TO " + last) == withTo + " " + last;
    Words();
    WordTaken(body, first, first');
    WordTaken(withFirst, "TO", "to");
    WordTaken(withTo, last, last');
    hide Without, LowerAll;
  }

  lemma {:induction false} ToMonth(text: string, body: string)
    requires TakenApart(text, "month", "year", body) && LastLetter(text) == 'h'
    ensures ReadQualifier(text) == Ok((YearToMonth, body))
  {
    hide Without, EndsValue, LastLetter;
  }

  lemma {:induction false} ToHour(text: string, body: string)
    requires TakenApart(text, "hour", "day", body) && LastLetter(text) == 'r' && Lower(text[|text| - 2]) == 'u'
    ensures ReadQualifier(text) == Ok((DayToHour, body))
  {
    hide Without, EndsValue, LastLetter, Lower;
  }

  lemma {:induction false} ToMinute(text: string, first: string, body: string)
    requires TakenApart(text, "minute", first, body) && LastLetter(text) == 'e'
    requires var f := FirstOf(text, "minute");
             (LastLetter(f) == 'y' && first == "day") || (LastLetter(f) == 'r' && first == "hour")
    ensures ReadQualifier(text) == Ok((if first == "day" then DayToMinute else HourToMinute, body))
  {
    hide Without, EndsValue, LastLetter;
  }

  lemma {:induction false} ToSecond(text: string, first: string, body: string)
    requires TakenApart(text, "second", first, body) && LastLetter(text) == 'd'
    requires var f := FirstOf(text, "second");
             (LastLetter(f) == 'y' && first == "day") || (LastLetter(f) == 'r' && first == "hour")
             || (LastLetter(f) == 'e' && first == "minute")
    ensures ReadQualifier(text)
         == Ok((if first == "day" then DayToSecond else if first == "hour" then HourToSecond else MinuteToSecond, body))
  {
    hide Without, EndsValue, LastLetter;
  }

  lemma {:induction false} HighQualifier(body: string, kind: Kind)
    requires EndsValue(body) && (kind == YearToMonth || kind == DayToHour)
    ensures ReadQualifier(body + " " + Qualifier(kind)) == Ok((kind, body))
  {
    var text := body + " " + Qualifier(kind);
    Words();
    hide ReadQualifier, LowerAll, TakenApart, FirstOf, EndsValue;
    if kind == YearToMonth {
      assert text == body + " " + ("YEAR" + " TO " + "MONTH");
      TakesApart(body, "YEAR", "MONTH", "year", "month");
      ToMonth(text, body);
    } else {
      assert text == body + " " + ("DAY" + " TO " + "HOUR");
      TakesApart(body, "DAY", "HOUR", "day", "hour");
      ToHour(text, body);
    }
  }

  lemma {:induction false} MinuteQualifier(body: string, kind: Kind)
    requires EndsValue(body) && (kind == DayToMinute || kind == HourToMinute)
    ensures ReadQualifier(body + " " + Qualifier(kind)) == Ok((kind, body))
  {
    var text := body + " " + Qualifier(kind);
    Words();
    hide ReadQualifier, LowerAll, TakenApart, FirstOf, EndsValue;
    if kind == DayToMinute {
      assert text == body + " " + ("DAY" + " TO " + "MINUTE");
      TakesApart(body, "DAY", "MINUTE", "day", "minute");
      ToMinute(text, "day", body);
    } else {
      assert text == body + " " + ("HOUR" + " TO " + "MINUTE");
      TakesApart(body, "HOUR", "MINUTE", "hour", "minute");
      ToMinute(text, "hour", body);
    }
  }

  lemma {:induction false} SecondAfter(body: string, first: string, first': string)
    requires EndsValue(body) && LowerAll(first) == first'
    requires (first == "DAY" && first' == "day") || (first == "HOUR" && first' == "hour")
          || (first == "MINUTE" && first' == "minute")
    ensures ReadQualifier(body + " " + (first + " TO SECOND"))
         == Ok((if first' == "day" then DayToSecond else if first' == "hour" then HourToSecond else MinuteToSecond,
                body))
  {
    hide ReadQualifier, LowerAll, TakenApart, FirstOf, EndsValue, IsSpace;
    var text := body + " " + (first + " TO SECOND");
    assert first + " TO SECOND" == first + " TO " + "SECOND";
    Words();
    NoSpace('D');
    NoSpace(first[|first| - 1]);
    TakesApart(body, first, "SECOND", first', "second");
    ToSecond(text, first', body);
  }

  lemma {:induction false} SecondQualifier(body: string, kind: Kind)
    requires EndsValue(body) && (kind == DayToSecond || kind == HourToSecond || kind == MinuteToSecond)
    ensures ReadQualifier(body + " " + Qualifier(kind)) == Ok((kind, body))
  {
    hide ReadQualifier, EndsValue;
    Words();
    if kind == DayToSecond {
      assert Qualifier(kind) == "DAY" + " TO SECOND";
      SecondAfter(body, "DAY", "day");
    } else if kind == HourToSecond {
      assert Qualifier(kind) == "HOUR" + " TO SECOND";
      SecondAfter(body, "HOUR", "hour");
    } else {
      assert Qualifier(kind) == "MINUTE" + " TO SECOND";
      SecondAfter(body, "MINUTE", "minute");
    }
  }

  lemma {:induction false} DoubleQualifier(body: string, kind: Kind)
    requires EndsValue(body) && !kind.Single?
    ensures ReadQualifier(body + " " + Qualifier(kind)) == Ok((kind, body))
  {
    hide ReadQualifier, EndsValue, Qualifier;
    match kind
    case YearToMonth => HighQualifier(body, kind);
    case DayToHour => HighQualifier(body, kind);
    case DayToMinute => MinuteQualifier(body, kind);
    case HourToMinute => MinuteQualifier(body, kind);
    case DayToSecond => SecondQualifier(body, kind);
    case HourToSecond => SecondQualifier(body, kind);
    case MinuteToSecond => SecondQualifier(body, kind);
  }

  lemma {:induction false} QualifierReads(body: string, kind: Kind)
    requires EndsValue(body)
    ensures ReadQualifier(body + " " + Qualifier(kind)) == Ok((kind, body))
  {
    hide ReadQualifier, EndsValue;
    if kind.Single? {
      SingleQualifier(body, kind.field);
    } else {
      DoubleQualifier(body, kind);
    }
  }

  // ---- the literal --------------------------------------------------------------------------------

  /** The value of a literal as it may be written: signed, and quoted or not. */
  function Valued(negative: bool, quoted: bool, value: string): string {
    SignText(negative) + (if quoted then "'" + value + "'" else value)
  }

  /** The literal around a value, in braces or not. */
  function Framed(body: string, qualifier: string, braced: bool): string {
    var text := "INTERVAL" + (" " + (body + " " + qualifier));
    if braced then "{" + text + "}" else text
  }

  function LiteralText(ivl: Interval, precision: SecondPrecision, quoted: bool, braced: bool): string {
    Framed(Valued(ivl.negative, quoted, SqlValue(ivl, precision)), Qualifier(ivl.kind), braced)
  }

  predicate IsNumberLike(value: string) {
    value != "" && IsDigit(value[0]) && IsDigit(value[|value| - 1])
  }

  lemma {:induction false} PrintIsNumberLike(n: nat, rest: string)
    requires rest == "" || IsDigit(rest[|rest| - 1])
    ensures IsNumberLike(Print(n) + rest)
  {
  }

  lemma {:induction false} SecondsAreNumberLike(second: nat, fraction: nat, precision: SecondPrecision)
    ensures IsNumberLike(SecondsText(second, fraction, precision))
  {
    if fraction != 0 && precision != 0 {
      var whole, decimals := Print(second + Over(fraction, Pow10(precision))), Pad(fraction % Pow10(precision),
          precision);
      PadDenotes(fraction % Pow10(precision), precision);
      hide Print, Pad, Pow10, Over, Value;
      assert whole + "." + decimals == whole + ("." + decimals);
      PrintIsNumberLike(second + Over(fraction, Pow10(precision)), "." + decimals);
    } else {
      PrintIsNumberLike(second, "");
      assert Print(second) + "" == Print(second);
    }
  }

  lemma {:induction false} Joins(a: string, between: string, b: string)
    requires IsNumberLike(a) && IsNumberLike(b)
    ensures IsNumberLike(a + between + b)
  {
  }

  lemma {:induction false} ValueIsNumberLike(ivl: Interval, precision: SecondPrecision)
    ensures IsNumberLike(SqlValue(ivl, precision))
  {
    var a, b, m := Print(ivl.yearOrDay), Print(ivl.monthOrHour), Print(ivl.minute);
    PrintIsNumberLike(ivl.yearOrDay, "");
    PrintIsNumberLike(ivl.monthOrHour, "");
    PrintIsNumberLike(ivl.minute, "");
    SecondsAreNumberLike(ivl.second, ivl.fraction, precision);
    assert a + "" == a && b + "" == b && m + "" == m;
    hide Print, SecondsText, IsNumberLike;
    var s := SecondsText(ivl.second, ivl.fraction, precision);
    Joins(a, "-", b);
    Joins(a, " ", b);
    Joins(b, ":", m);
    Joins(m, ":", s);
    Joins(a + " " + b, ":", m);
    Joins(b + ":" + m, ":", s);
    Joins(a + " " + b + ":" + m, ":", s);
  }

  lemma {:induction false} EndKept(a: string, b: string)
    requires EndsValue(b)
    ensures EndsValue(a + b)
  {
  }

  lemma {:induction false} PlainShape(quoted: bool, value: string)
    requires IsNumberLike(value)
    ensures var plain := if quoted then "'" + value + "'" else value;
            && plain != "" && !IsSpace(plain[0]) && !IsSignChar(plain)
            && EndsValue(plain) && Unquoted(plain) == value
  {
    if quoted {
      assert ("'" + value + "'")[1..|value| + 1] == value;
    }
  }

  lemma {:induction false} ValuedShape(negative: bool, quoted: bool, value: string)
    requires IsNumberLike(value)
    ensures var body := Valued(negative, quoted, value);
            && body != "" && !IsSpace(body[0]) && EndsValue(body)
            && (IsSignChar(body) <==> negative) && (negative ==> body[0] == '-')
            && Unquoted(if negative then TrimLeft(body[1..]) else body) == value
  {
    var body := Valued(negative, quoted, value);
    var plain := if quoted then "'" + value + "'" else value;
    PlainShape(quoted, value);
    assert TrimLeft(plain) == plain;
    hide Unquoted, TrimLeft, IsNumberLike, EndsValue;
    if negative {
      assert body == "-" + plain && body[1..] == plain;
      EndKept("-", plain);
    } else {
      assert body == plain;
    }
  }

  lemma {:induction false} LetterEnd(kind: Kind)
    ensures |Qualifier(kind)| >= 3 && var last := Qualifier(kind)[|Qualifier(kind)| - 1]; 'A' <= last <= 'Z'
  {
  }

  lemma {:induction false} BracesOff(text: string)
    requires text != "" && !IsSpace(text[0]) && !IsSpace(text[|text| - 1]) && text[0] != '{'
    ensures Unbraced("{" + text + "}") == text == Unbraced(text)
  {
    assert ("{" + text + "}")[1..|text| + 1] == text;
  }

  lemma {:induction false} KeywordOff(rest: string)
    ensures LowerAll(("INTERVAL" + rest)[..|INTERVAL|]) == INTERVAL && ("INTERVAL" + rest)[|INTERVAL|..] == rest
  {
    IntervalWord();
    assert ("INTERVAL" + rest)[..8] == "INTERVAL";
  }

  lemma {:induction false} LiteralChain(s: string, text: string, rest: string, kind: Kind, body: string, rec: Record)
    requires |s| >= |INTERVAL| + 4 && Unbraced(s) == text && |text| > |INTERVAL|
    requires LowerAll(text[..|INTERVAL|]) == INTERVAL && TrimLeft(text[|INTERVAL|..]) == rest
    requires ReadQualifier(rest) == Ok((kind, body))
    ensures ReadLiteral(s, rec)
         == ReadValue(kind, IsSignChar(body) && body[0] == '-',
                      Unquoted(if IsSignChar(body) then TrimLeft(body[1..]) else body), rec)
  {
    hide ReadQualifier, ReadValue, Unbraced, Unquoted, LowerAll, TrimLeft;
  }

  /** What is left to parse once the braces, the keyword and the qualifier are off. */
  lemma {:induction false} LiteralOpens(body: string, qualifier: string, kind: Kind, braced: bool, rec: Record)
    requires body != "" && !IsSpace(body[0]) && ReadQualifier(body + " " + qualifier) == Ok((kind, body))
    requires |qualifier| >= 3 && 'A' <= qualifier[|qualifier| - 1] <= 'Z'
    ensures ReadLiteral(Framed(body, qualifier, braced), rec)
         == ReadValue(kind, IsSignChar(body) && body[0] == '-',
                      Unquoted(if IsSignChar(body) then TrimLeft(body[1..]) else body), rec)
  {
    hide ReadQualifier, ReadValue, Unbraced, Unquoted, LowerAll, TrimLeft;
    var rest := body + " " + qualifier;
    var text := "INTERVAL" + (" " + rest);
    assert text[|text| - 1] == qualifier[|qualifier| - 1];
    BracesOff(text);
    NumberIsTrimmed(rest);
    KeywordOff(" " + rest);
    LiteralChain(if braced then "{" + text + "}" else text, text, rest, kind, body, rec);
  }

  lemma {:induction false} BodyEnds(ivl: Interval, quoted: bool, rec: Record)
    ensures EndsValue(Valued(ivl.negative, quoted, SqlValue(ivl, rec.precision)))
  {
    hide SqlValue, Valued;
    ValueIsNumberLike(ivl, rec.precision);
    ValuedShape(ivl.negative, quoted, SqlValue(ivl, rec.precision));
  }

  /** The same with any qualifier that is read as the type. */
  lemma {:induction false} ReadsBackAs(ivl: Interval, qualifier: string, rec: Record, quoted: bool, braced: bool)
    requires IsProper(ivl, rec.precision)
    ensures var body := Valued(ivl.negative, quoted, SqlValue(ivl, rec.precision));
            && |qualifier| >= 3 && 'A' <= qualifier[|qualifier| - 1] <= 'Z'
            && ReadQualifier(body + " " + qualifier) == Ok((ivl.kind, body)) ==>
              ReadLiteral(Framed(body, qualifier, braced), rec)
              == if Fits(Leading(ivl), rec) then Ok(ivl) else Fault(S22018)
  {
    var value := SqlValue(ivl, rec.precision);
    var body := Valued(ivl.negative, quoted, value);
    hide ReadLiteral, ReadQualifier, ReadValue, SqlValue, Valued, Unquoted, TrimLeft, IsProper, Fits, IsSignChar,
         EndsValue, Framed;
    ValueIsNumberLike(ivl, rec.precision);
    ValuedShape(ivl.negative, quoted, value);
    ValueReads(ivl, rec);
    if |qualifier| >= 3 && 'A' <= qualifier[|qualifier| - 1] <= 'Z'
       && ReadQualifier(body + " " + qualifier) == Ok((ivl.kind, body)) {
      LiteralOpens(body, qualifier, ivl.kind, braced, rec);
    }
  }

  /** A printed literal, quoted or not and in braces or not, reads back as the value it was printed
      from exactly when the leading field has no more digits than the record allows. */
  lemma {:induction false} LiteralReadsBack(ivl: Interval, rec: Record, quoted: bool, braced: bool)
    requires IsProper(ivl, rec.precision)
    ensures ReadLiteral(LiteralText(ivl, rec.precision, quoted, braced), rec)
         == if Fits(Leading(ivl), rec) then Ok(ivl) else Fault(S22018)
  {
    var body := Valued(ivl.negative, quoted, SqlValue(ivl, rec.precision));
    hide ReadLiteral, ReadQualifier, SqlValue, Valued, Qualifier, Fits, EndsValue;
    ReadsBackAs(ivl, Qualifier(ivl.kind), rec, quoted, braced);
    LetterEnd(ivl.kind);
    BodyEnds(ivl, quoted, rec);
    QualifierReads(body, ivl.kind);
  }

  lemma {:induction false} MinuteText(body: string, qualifier: string)
    ensures body + " " + (qualifier + " TO MINUTE") == ((body + " " + qualifier) + " " + "TO") + " " + "MINUTE"
  {
  }

  lemma {:induction false} MonthEnd(body: string, kind: Kind)
    requires EndsValue(body) && (kind == Single(Month) || kind == YearToMonth)
    ensures Without(body + " " + Qualifier(kind), "month").Ok?
  {
    Words();
    hide LowerAll, Without;
    if kind == YearToMonth {
      assert body + " " + Qualifier(kind) == (body + " YEAR TO") + " " + "MONTH";
      WordTaken(body + " YEAR TO", "MONTH", "month");
    } else {
      WordTaken(body, "MONTH", "month");
    }
  }

  lemma {:induction false} MinuteAfter(body: string, kind: Kind)
    requires EndsValue(body) && (kind == Single(Month) || kind == YearToMonth)
    ensures ReadQualifier(body + " " + (Qualifier(kind) + " TO MINUTE")) == Ok((kind, body))
  {
    hide *;
    var inner := body + " " + Qualifier(kind);
    var withTo := inner + " " + "TO";
    MinuteText(body, Qualifier(kind));
    Words();
    LetterEnd(kind);
    NoSpace(Qualifier(kind)[|Qualifier(kind)| - 1]);
    NoSpace('O');
    WordTaken(inner, "TO", "to");
    WordTaken(withTo, "MINUTE", "minute");
    EndsInMinute(withTo + " " + "MINUTE");
    ToIsNoValue(withTo);
    MonthEnd(body, kind);
    EndsInMonth(inner);
    WithoutEnds(inner, "month");
    QualifierReads(body, kind);
  }

  /** MONTH TO MINUTE is taken for MONTH, and YEAR TO MONTH TO MINUTE for YEAR TO MONTH. */
  lemma {:induction false} ToMinuteIsPassedOver(ivl: Interval, rec: Record, quoted: bool, braced: bool)
    requires IsProper(ivl, rec.precision) && (ivl.kind == Single(Month) || ivl.kind == YearToMonth)
    ensures var body := Valued(ivl.negative, quoted, SqlValue(ivl, rec.precision));
            ReadLiteral(Framed(body, Qualifier(ivl.kind) + " TO MINUTE", braced), rec)
            == if Fits(Leading(ivl), rec) then Ok(ivl) else Fault(S22018)
  {
    var body := Valued(ivl.negative, quoted, SqlValue(ivl, rec.precision));
    hide ReadLiteral, ReadQualifier, SqlValue, Valued, Fits, EndsValue;
    BodyEnds(ivl, quoted, rec);
    MinuteAfter(body, ivl.kind);
    ReadsBackAs(ivl, Qualifier(ivl.kind) + " TO MINUTE", rec, quoted, braced);
  }

  /** Whatever literal was read, the one printed from its value reads the same. */
  lemma {:induction false} PrintedReadsTheSame(s: string, rec: Record, quoted: bool, braced: bool)
    requires ReadLiteral(s, rec).Ok?
    ensures ReadLiteral(LiteralText(ReadLiteral(s, rec).value, rec.precision, quoted, braced), rec)
         == ReadLiteral(s, rec)
  {
    hide ReadLiteral, LiteralText, IsProper, Fits, Leading;
    LiteralIsProper(s, rec);
    LiteralReadsBack(ReadLiteral(s, rec).value, rec, quoted, braced);
  }

  lemma {:induction false} RebalancedIsMixedRadix(d: Duration, kind: Kind, precision: SecondPrecision)
    requires IsWellFormed(d) && ParseIso(Render(d), kind, precision).Parsed? && Rebalances(d, kind)
    ensures IsMixedRadix(ParseIso(Render(d), kind, precision).ivl)
  {
    hide ParseIso, Render, IsMixedRadix, IsWellFormed, FieldsIn, OverlaidSum, OverlaidSeconds, IsRefused, FractionOf,
         IsNegative;
    StorageIsConserved(d, kind, precision);
  }

  /** The ISO-to-SQL translation loses nothing a literal could hold: the translated text, put into a
      literal, reads back as the very value the ISO text was parsed to exactly if that value was
      rebalanced or is in mixed radix, has a fraction only of seconds, and its leading field fits. */
  lemma {:induction false} TranslationReadsBack(d: Duration, kind: Kind, rec: Record, braced: bool)
    requires IsWellFormed(d) && ParseIso(Render(d), kind, rec.precision).Parsed?
    ensures var ivl := ParseIso(Render(d), kind, rec.precision).ivl;
            ReadLiteral(Framed(SqlText(ivl, rec.precision), Qualifier(kind), braced), rec) == Ok(ivl)
            <==> && (Rebalances(d, kind) || IsMixedRadix(ivl))
                 && (FieldsOf(kind).second || FractionOf(d, rec.precision) == 0)
                 && Fits(Leading(ivl), rec)
  {
    var ivl := ParseIso(Render(d), kind, rec.precision).ivl;
    hide ReadLiteral, ParseIso, Render, IsMixedRadix, FractionOf, IsWellFormed, IsNegative, FieldsOf, Pow10, Fits,
         Leading, SqlValue, Qualifier, Framed, FieldsIn;
    M.ParsedIsConfined(d, kind, rec.precision);
    var text := Framed(SqlText(ivl, rec.precision), Qualifier(kind), braced);
    assert text == LiteralText(ivl, rec.precision, false, braced);
    if Rebalances(d, kind) {
      RebalancedIsMixedRadix(d, kind, rec.precision);
    }
    if ReadLiteral(text, rec) == Ok(ivl) {
      LiteralIsProper(text, rec);
    }
    if IsProper(ivl, rec.precision) {
      LiteralReadsBack(ivl, rec, false, braced);
    }
  }
}
