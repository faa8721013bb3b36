/** The SQL interval literal parser, as it consumes its text. */
module SqlParser {
  import opened Decimals
  import opened Integers
  import opened Intervals
  import IsoParser
  import opened SqlGrammar
  import opened SqlLiterals

  /** `wstr_st`: a text that is consumed from both ends. After a fault, what is left is of no use. */
  class Text {
    var s: string

    constructor (text: string)
      ensures s == text
    {
      s := text;
    }

    method TrimLeftWs()
      modifies this
      ensures s == TrimLeft(old(s))
      ensures StartsTight(s) && exists gap :: AllSpace(gap) && old(s) == gap + s
    {
      ghost var gap := LeftGap(s);
      while s != "" && IsSpace(s[0])
        invariant TrimLeft(s) == TrimLeft(old(s))
        decreases |s|
      {
        s := s[1..];
      }
    }

    method TrimRightWs()
      modifies this
      ensures s == TrimRight(old(s))
      ensures EndsTight(s) && exists gap :: AllSpace(gap) && old(s) == s + gap
    {
      ghost var gap := RightGap(s);
      while s != "" && IsSpace(s[|s| - 1])
        invariant TrimRight(s) == TrimRight(old(s))
        decreases |s|
      {
        s := s[..|s| - 1];
      }
    }

    /** Drop the separator in front. */
    method Expect(separator: char) returns (ok: bool)
      modifies this
      ensures ok <==> Skip(old(s), separator).Ok?
      ensures ok ==> s == Skip(old(s), separator).value
    {
      ok := s != "" && s[0] == separator;
      if ok {
        s := s[1..];
      }
    }

    method ParseField(limit: u32, rec: Record) returns (r: Result<u32>)
      modifies this
      ensures match ReadField(old(s), limit, rec)
              case Ok((v, rest)) => r == Ok(v) && s == rest
              case Fault(state) => r == Fault(state)
      ensures r.Ok? ==> FieldAt(old(s), limit, rec, r.value, s)
      ensures r.Fault? ==> forall v: u32, rest: string :: !FieldAt(old(s), limit, rec, v, rest)
    {
      hide ReadUnsigned, FieldAt;
      FieldsAre(s, limit, rec);
      var read := Str2UBigInt(s, false);
      if read.Rejected? {
        return Fault(if read.outOfRange then S22015 else S22018);
      }
      var digits, ubint := read.count, read.value;
      if digits == 0 {
        return Fault(S22018);
      }
      s := s[digits..];
      if MAX_U32 < ubint {
        return Fault(S22015);
      }
      if limit == 0 {
        if rec.leadingDigits < digits {
          return Fault(S22018);
        }
      } else if limit < ubint {
        return Fault(S22015);
      }
      return Ok(ubint);
    }

    method ParseSecond(limit: u32, rec: Record) returns (r: Result<(u32, u32)>)
      modifies this
      ensures r == ReadSecond(old(s), limit, rec)
      ensures forall second: u32, f: u32 :: r == Ok((second, f)) <==> SecondAt(old(s), limit, rec, second, f)
    {
      hide ReadField, Rescale, SecondAt, FieldAt;
      SecondsAre(s, limit, rec);
      var second := ParseField(limit, rec);
      if second.Fault? {
        return Fault(second.state);
      }
      if s == "" {
        return Ok((second.value, 0));
      }
      if s[0] != '.' {
        return Fault(S22018);
      }
      s := s[1..];
      if s == "" {
        return Ok((second.value, 0));
      }
      var digits := |s|;
      FractionFits(s, rec);
      var fraction := ParseField(MAX_U32, rec);
      if fraction.Fault? {
        return Fault(fraction.state);
      }
      digits := digits - |s|;
      var scaled, code := IsoParser.AdjustToPrecision(fraction.value, digits, rec.precision);
      if s != "" {
        return Fault(S22018);
      }
      return Ok((second.value, scaled));
    }

    /** `PARSE_IVL_FLD_OR_RET` with the whole text to be consumed. */
    method ParseLast(limit: u32, rec: Record) returns (r: Result<u32>)
      modifies this
      ensures r == ReadLast(old(s), limit, rec)
    {
      hide ReadField, FieldAt;
      r := ParseField(limit, rec);
      if r.Ok? && s != "" {
        return Fault(S22018);
      }
    }

    /** `parse_interval_literal_value`: types that start with the same fields share their code. */
    method ParseValue(kind: Kind, negative: bool, rec: Record) returns (r: Result<Interval>)
      modifies this
      ensures r == ReadValue(kind, negative, old(s), rec)
      ensures forall ivl: Interval :: r == Ok(ivl) <==> ivl.kind == kind && ValueAt(old(s), negative, ivl, rec)
    {
      hide ReadField, ReadLast, ReadSecond, TrimLeft, FieldAt, ValueAt;
      ValuesAre(kind, negative, s, rec);
      if kind.Single? {
        r := ParseSingle(kind.field, negative, rec);
      } else if kind == YearToMonth {
        var year := ParseField(0, rec);
        if year.Fault? {
          return Fault(year.state);
        }
        TrimLeftWs();
        var dash := Expect('-');
        if !dash {
          return Fault(S22018);
        }
        TrimLeftWs();
        var month := ParseLast(11, rec);
        if month.Fault? {
          return Fault(month.state);
        }
        return Ok(Interval(kind, negative, year.value, month.value, 0, 0, 0));
      } else if FieldsOf(kind).day {
        r := ParseDayTo(kind, negative, rec);
      } else {
        r := ParseHourOrMinuteTo(kind, negative, rec);
      }
    }

    method ParseSingle(field: Field, negative: bool, rec: Record) returns (r: Result<Interval>)
      modifies this
      ensures r == ReadValue(Single(field), negative, old(s), rec)
    {
      hide ReadField, ReadLast, ReadSecond, TrimLeft, FieldAt, SecondAt;
      if field == Second {
        var second := ParseSecond(0, rec);
        if second.Fault? {
          return Fault(second.state);
        }
        return Ok(Interval(Single(field), negative, 0, 0, 0, second.value.0, second.value.1));
      }
      var v := ParseLast(0, rec);
      if v.Fault? {
        return Fault(v.state);
      }
      r := Ok(Interval(Single(field), negative,
                       if field == Year || field == Day then v.value else 0,
                       if field == Month || field == Hour then v.value else 0,
                       if field == Minute then v.value else 0, 0, 0));
    }

    method ParseDayTo(kind: Kind, negative: bool, rec: Record) returns (r: Result<Interval>)
      requires kind == DayToHour || kind == DayToMinute || kind == DayToSecond
      modifies this
      ensures r == ReadValue(kind, negative, old(s), rec)
    {
      hide ReadField, ReadSecond, TrimLeft, FieldAt, SecondAt;
      var day := ParseField(0, rec);
      if day.Fault? {
        return Fault(day.state);
      }
      TrimLeftWs();
      var hour := ParseField(23, rec);
      if hour.Fault? {
        return Fault(hour.state);
      }
      if kind == DayToHour {
        return if s != "" then Fault(S22018) else Ok(Interval(kind, negative, day.value, hour.value, 0, 0, 0));
      }
      var colon := Expect(':');
      if !colon {
        return Fault(S22018);
      }
      var minute := ParseField(59, rec);
      if minute.Fault? {
        return Fault(minute.state);
      }
      if kind == DayToMinute {
        return if s != "" then Fault(S22018)
          else Ok(Interval(kind, negative, day.value, hour.value, minute.value, 0, 0));
      }
      colon := Expect(':');
      if !colon {
        return Fault(S22018);
      }
      var second := ParseSecond(59, rec);
      if second.Fault? {
        return Fault(second.state);
      }
      return Ok(Interval(kind, negative, day.value, hour.value, minute.value, second.value.0, second.value.1));
    }

    /** The hours fall through to the minutes. */
    method ParseHourOrMinuteTo(kind: Kind, negative: bool, rec: Record) returns (r: Result<Interval>)
      requires kind == HourToMinute || kind == HourToSecond || kind == MinuteToSecond
      modifies this
      ensures r == ReadValue(kind, negative, old(s), rec)
    {
      hide ReadField, ReadSecond, FieldAt, SecondAt;
      var hour := Ok(0);
      if kind != MinuteToSecond {
        hour := ParseField(0, rec);
        if hour.Fault? {
          return Fault(hour.state);
        }
        var colon := Expect(':');
        if !colon {
          return Fault(S22018);
        }
      }
      var minute := ParseField(if kind == MinuteToSecond then 0 else 59, rec);
      if minute.Fault? {
        return Fault(minute.state);
      }
      if kind == HourToMinute {
        return if s != "" then Fault(S22018) else Ok(Interval(kind, negative, 0, hour.value, minute.value, 0, 0));
      }
      var colon := Expect(':');
      if !colon {
        return Fault(S22018);
      }
      var second := ParseSecond(59, rec);
      if second.Fault? {
        return Fault(second.state);
      }
      return Ok(Interval(kind, negative, 0, hour.value, minute.value, second.value.0, second.value.1));
    }

    /** `TRIM_IF_ENDS_WITH_OR_RET`. */
    method TrimIfEndsWith(word: string) returns (ok: bool)
      modifies this
      ensures ok <==> Without(old(s), word).Ok?
      ensures ok ==> s == Without(old(s), word).value && Takes(old(s), word, s)
      ensures !ok ==> forall t: string :: !Takes(old(s), word, t)
    {
      hide Takes;
      WordsAre(s, word);
      ok := |word| < |s| && LowerAll(s[|s| - |word|..]) == word;
      if ok {
        s := s[..|s| - |word|];
        TrimRightWs();
      }
    }

    /** `parse_interval_type`. */
    method ParseQualifier() returns (r: Result<Kind>)
      modifies this
      ensures match ReadQualifier(old(s))
              case Ok((kind, rest)) => r == Ok(kind) && s == rest
              case Fault(state) => r == Fault(state)
      ensures r.Ok? ==> Qualifies(old(s), r.value, s)
      ensures r.Fault? ==> forall kind: Kind, rest: string :: !Qualifies(old(s), kind, rest)
    {
      hide Without, EndsValue, Qualifies, Takes;
      QualifiersAre(s);
      if |s| <= 3 {
        return Fault(S22018);
      }
      var last := LastLetter(s);
      var ok;
      if last == 'y' {
        ok := TrimIfEndsWith("day");
        return if ok then Ok(Single(Day)) else Fault(S22018);
      } else if last == 'r' {
        r := ParseYearOrHour();
      } else if last == 'e' {
        r := ParseToMinute();
      } else if last == 'h' {
        r := ParseMonth();
      } else if last == 'd' {
        r := ParseToSecond();
      } else {
        return Fault(S22018);
      }
    }

    method ParseYearOrHour() returns (r: Result<Kind>)
      requires |s| > 3 && LastLetter(s) == 'r'
      modifies this
      ensures match ReadQualifier(old(s))
              case Ok((kind, rest)) => r == Ok(kind) && s == rest
              case Fault(state) => r == Fault(state)
    {
      hide Without, EndsValue, Takes;
      var ok;
      var c := Lower(s[|s| - 2]);
      if c == 'a' {
        ok := TrimIfEndsWith("year");
        return if ok then Ok(Single(Year)) else Fault(S22018);
      } else if c != 'u' {
        return Fault(S22018);
      }
      ok := TrimIfEndsWith("hour");
      if !ok {
        return Fault(S22018);
      } else if EndsValue(s) {
        return Ok(Single(Hour));
      }
      ok := TrimIfEndsWith("to");
      if !ok {
        return Fault(S22018);
      }
      ok := TrimIfEndsWith("day");
      return if ok then Ok(DayToHour) else Fault(S22018);
    }

    method ParseToMinute() returns (r: Result<Kind>)
      requires |s| > 3 && LastLetter(s) == 'e'
      modifies this
      ensures match ReadQualifier(old(s))
              case Ok((kind, rest)) => r == Ok(kind) && s == rest
              case Fault(state) => r == Fault(state)
    {
      hide Without, EndsValue, MonthQualifier, Takes;
      var ok := TrimIfEndsWith("minute");
      if !ok {
        return Fault(S22018);
      } else if EndsValue(s) {
        return Ok(Single(Minute));
      }
      ok := TrimIfEndsWith("to");
      if !ok {
        return Fault(S22018);
      }
      var last := LastLetter(s);
      if last == 'y' {
        ok := TrimIfEndsWith("day");
        return if ok then Ok(DayToMinute) else Fault(S22018);
      } else if last == 'r' {
        ok := TrimIfEndsWith("hour");
        return if ok then Ok(HourToMinute) else Fault(S22018);
      }
      r := ParseMonth();
    }

    method ParseMonth() returns (r: Result<Kind>)
      modifies this
      ensures match MonthQualifier(old(s))
              case Ok((kind, rest)) => r == Ok(kind) && s == rest
              case Fault(state) => r == Fault(state)
    {
      hide Without, EndsValue, Takes;
      var ok := TrimIfEndsWith("month");
      if !ok {
        return Fault(S22018);
      } else if EndsValue(s) {
        return Ok(Single(Month));
      }
      ok := TrimIfEndsWith("to");
      if !ok {
        return Fault(S22018);
      }
      ok := TrimIfEndsWith("year");
      return if ok then Ok(YearToMonth) else Fault(S22018);
    }

    method ParseToSecond() returns (r: Result<Kind>)
      requires |s| > 3 && LastLetter(s) == 'd'
      modifies this
      ensures match ReadQualifier(old(s))
              case Ok((kind, rest)) => r == Ok(kind) && s == rest
              case Fault(state) => r == Fault(state)
    {
      hide Without, EndsValue, Takes;
      var ok := TrimIfEndsWith("second");
      if !ok {
        return Fault(S22018);
      } else if EndsValue(s) {
        return Ok(Single(Second));
      }
      ok := TrimIfEndsWith("to");
      if !ok {
        return Fault(S22018);
      }
      var last := LastLetter(s);
      if last == 'y' {
        ok := TrimIfEndsWith("day");
        return if ok then Ok(DayToSecond) else Fault(S22018);
      } else if last == 'r' {
        ok := TrimIfEndsWith("hour");
        return if ok then Ok(HourToSecond) else Fault(S22018);
      } else if last == 'e' {
        ok := TrimIfEndsWith("minute");
        return if ok then Ok(MinuteToSecond) else Fault(S22018);
      }
      return Fault(S22018);
    }

    /** `parse_interval_literal`. */
    method ParseLiteral(rec: Record) returns (r: Result<Interval>)
      modifies this
      ensures r == ReadLiteral(old(s), rec)
      ensures forall ivl: Interval :: r == Ok(ivl) <==> IsLiteral(old(s), ivl, rec)
    {
      hide ReadQualifier, ReadSignedValue, TrimLeft, TrimRight, LowerAll, IsLiteral, Qualifies;
      LiteralsAre(s, rec);
      if |s| < |INTERVAL| + 4 {
        return Fault(S22018);
      }
      if s[0] == '{' && s[|s| - 1] == '}' {
        s := s[1..|s| - 1];
        TrimLeftWs();
        TrimRightWs();
      }
      if |s| <= |INTERVAL| || LowerAll(s[..|INTERVAL|]) != INTERVAL {
        return Fault(S22018);
      }
      s := s[|INTERVAL|..];
      TrimLeftWs();
      var kind := ParseQualifier();
      if kind.Fault? {
        return Fault(kind.state);
      }
      r := ParseSigned(kind.value, rec);
    }

    /** The sign and the quotes of the value. */
    method ParseSigned(kind: Kind, rec: Record) returns (r: Result<Interval>)
      modifies this
      ensures r == ReadSignedValue(kind, old(s), rec)
    {
      hide ReadValue, TrimLeft, ValueAt;
      var negative := false;
      if IsSignChar(s) {
        negative := s[0] == '-';
        s := s[1..];
        TrimLeftWs();
      }
      if s != "" && s[0] == '\'' && s[|s| - 1] == '\'' {
        s := if |s| == 1 then "" else s[1..|s| - 1];
      }
      r := ParseValue(kind, negative, rec);
    }
  }
}
