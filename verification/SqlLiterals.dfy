/** The SQL interval literal parser (section 5.3 of ISO/IEC 9075:1992). */
module SqlLiterals {
  import opened Decimals
  import opened Integers
  import opened Intervals

  datatype SqlState = S22015 | S22018

  datatype Result<+T> = Ok(value: T) | Fault(state: SqlState) {
    predicate IsFailure() {
      Fault?
    }

    function PropagateFailure<U>(): Result<U>
      requires Fault?
    {
      Fault(state)
    }

    function Extract(): T
      requires Ok?
    {
      value
    }
  }

  /** What a descriptor record asks of a literal. */
  datatype Record = Record(leadingDigits: nat, precision: SecondPrecision)

  // ---- characters -------------------------------------------------------------------------------

  predicate IsSpace(c: char) {
    c == ' ' || '\t' <= c <= '\r'
  }

  function Lower(c: char): char {
    if 'A' <= c <= 'Z' then (c as int + 32) as char else c
  }

  function LowerAll(s: string): (t: string)
    ensures |t| == |s| && forall i :: 0 <= i < |s| ==> t[i] == Lower(s[i])
  {
    seq(|s|, i requires 0 <= i < |s| => Lower(s[i]))
  }

  function TrimLeft(s: string): (t: string)
    ensures t == "" || !IsSpace(t[0])
  {
    if s != "" && IsSpace(s[0]) then TrimLeft(s[1..]) else s
  }

  function TrimRight(s: string): (t: string)
    ensures t == "" || !IsSpace(t[|t| - 1])
    ensures t <= s
  {
    if s != "" && IsSpace(s[|s| - 1]) then TrimRight(s[..|s| - 1]) else s
  }

  // ---- fields -----------------------------------------------------------------------------------

  /** `parse_interval_field`: a number and what follows it. A limit of 0 marks the leading field,
      which is held to the record's digits instead. */
  function ReadField(s: string, limit: u32, rec: Record): (r: Result<(u32, string)>)
    ensures r.Ok? ==> |r.value.1| < |s|
  {
    match ReadUnsigned(s, false)
    case Rejected(range) => Fault(if range then S22015 else S22018)
    case Read(digits, v) =>
      if digits == 0 then Fault(S22018)
      else if v > MAX_U32 then Fault(S22015)
      else if limit == 0 && rec.leadingDigits < digits then Fault(S22018)
      else if limit != 0 && limit < v then Fault(S22015)
      else Ok((v, s[digits..]))
  }

  lemma {:induction false} FractionFits(s: string, rec: Record)
    ensures var r := ReadField(s, MAX_U32, rec);
            r.Ok? ==> Rescale(r.value.0, |s| - |r.value.1|, rec.precision) < Pow10(rec.precision) <= MAX_U32
  {
    var r := ReadUnsigned(s, false);
    if r.Read? {
      ReadBound(s);
      RescaledFits(r.value, r.count, rec.precision);
      BillionBounds(rec.precision);
    }
  }

  /** `parse_interval_second`: the seconds and their fraction, up to the end of the text. */
  function ReadSecond(s: string, limit: u32, rec: Record): Result<(u32, u32)> {
    var (second, rest) :- ReadField(s, limit, rec);
    if rest == "" then Ok((second, 0))
    else if rest[0] != '.' then Fault(S22018)
    else if rest[1..] == "" then Ok((second, 0))
    else
      var (digits, end) :- ReadField(rest[1..], MAX_U32, rec);
      FractionFits(rest[1..], rec);
      var fraction := Rescale(digits, |rest| - 1 - |end|, rec.precision);
      if end != "" then Fault(S22018) else Ok((second, fraction))
  }

  /** The last field of a value without seconds. */
  function ReadLast(s: string, limit: u32, rec: Record): Result<u32> {
    var (v, rest) :- ReadField(s, limit, rec);
    if rest != "" then Fault(S22018) else Ok(v)
  }

  function Skip(s: string, separator: char): Result<string> {
    if s == "" || s[0] != separator then Fault(S22018) else Ok(s[1..])
  }

  /** `parse_interval_literal_value`. */
  function ReadValue(kind: Kind, negative: bool, s: string, rec: Record): Result<Interval> {
    match kind
    case Single(Year) =>
      var v :- ReadLast(s, 0, rec); Ok(Interval(kind, negative, v, 0, 0, 0, 0))
    case Single(Month) =>
      var v :- ReadLast(s, 0, rec); Ok(Interval(kind, negative, 0, v, 0, 0, 0))
    case Single(Day) =>
      var v :- ReadLast(s, 0, rec); Ok(Interval(kind, negative, v, 0, 0, 0, 0))
    case Single(Hour) =>
      var v :- ReadLast(s, 0, rec); Ok(Interval(kind, negative, 0, v, 0, 0, 0))
    case Single(Minute) =>
      var v :- ReadLast(s, 0, rec); Ok(Interval(kind, negative, 0, 0, v, 0, 0))
    case Single(Second) =>
      var (v, f) :- ReadSecond(s, 0, rec); Ok(Interval(kind, negative, 0, 0, 0, v, f))
    case YearToMonth =>
      var (year, s) :- ReadField(s, 0, rec);
      var s :- Skip(TrimLeft(s), '-');
      var month :- ReadLast(TrimLeft(s), 11, rec);
      Ok(Interval(kind, negative, year, month, 0, 0, 0))
    case DayToHour =>
      var (day, s) :- ReadField(s, 0, rec);
      var hour :- ReadLast(TrimLeft(s), 23, rec);
      Ok(Interval(kind, negative, day, hour, 0, 0, 0))
    case DayToMinute =>
      var (day, s) :- ReadField(s, 0, rec);
      var (hour, s) :- ReadField(TrimLeft(s), 23, rec);
      var s :- Skip(s, ':');
      var minute :- ReadLast(s, 59, rec);
      Ok(Interval(kind, negative, day, hour, minute, 0, 0))
    case DayToSecond =>
      var (day, s) :- ReadField(s, 0, rec);
      var (hour, s) :- ReadField(TrimLeft(s), 23, rec);
      var s :- Skip(s, ':');
      var (minute, s) :- ReadField(s, 59, rec);
      var s :- Skip(s, ':');
      var (second, f) :- ReadSecond(s, 59, rec);
      Ok(Interval(kind, negative, day, hour, minute, second, f))
    case HourToMinute =>
      var (hour, s) :- ReadField(s, 0, rec);
      var s :- Skip(s, ':');
      var minute :- ReadLast(s, 59, rec);
      Ok(Interval(kind, negative, 0, hour, minute, 0, 0))
    case HourToSecond =>
      var (hour, s) :- ReadField(s, 0, rec);
      var s :- Skip(s, ':');
      var (minute, s) :- ReadField(s, 59, rec);
      var s :- Skip(s, ':');
      var (second, f) :- ReadSecond(s, 59, rec);
      Ok(Interval(kind, negative, 0, hour, minute, second, f))
    case MinuteToSecond =>
      var (minute, s) :- ReadField(s, 0, rec);
      var s :- Skip(s, ':');
      var (second, f) :- ReadSecond(s, 59, rec);
      Ok(Interval(kind, negative, 0, 0, minute, second, f))
  }

  // ---- the qualifier ----------------------------------------------------------------------------

  /** `TRIM_IF_ENDS_WITH_OR_RET`: the text without its last word; something must be left of it. */
  function Without(s: string, word: string): (r: Result<string>)
    ensures r.Fault? ==> r.state == S22018
  {
    if |s| <= |word| || LowerAll(s[|s| - |word|..]) != word then Fault(S22018)
    else Ok(TrimRight(s[..|s| - |word|]))
  }

  /** A quote, a point or a digit ends the value, and so the qualifier. */
  predicate EndsValue(s: string) {
    s != "" && (s[|s| - 1] == '\'' || s[|s| - 1] == '.' || IsDigit(s[|s| - 1]))
  }

  function LastLetter(s: string): char {
    if s == "" then ' ' else Lower(s[|s| - 1])
  }

  function MonthQualifier(s: string): Result<(Kind, string)> {
    var s :- Without(s, "month");
    if EndsValue(s) then Ok((Single(Month), s)) else
      var s :- Without(s, "to");
      var s :- Without(s, "year");
      Ok((YearToMonth, s))
  }

  /** `parse_interval_type`: the type the qualifier names, and the text before it. An unknown word
      before TO MINUTE is tried as MONTH: that case falls through. */
  function ReadQualifier(s: string): Result<(Kind, string)> {
    if |s| <= 3 then Fault(S22018)
    else
      match LastLetter(s)
      case 'y' =>
        var s :- Without(s, "day"); Ok((Single(Day), s))
      case 'r' =>
        if Lower(s[|s| - 2]) == 'a' then
          var s :- Without(s, "year"); Ok((Single(Year), s))
        else if Lower(s[|s| - 2]) == 'u' then
          var s :- Without(s, "hour");
          if EndsValue(s) then Ok((Single(Hour), s)) else
            var s :- Without(s, "to");
            var s :- Without(s, "day");
            Ok((DayToHour, s))
        else Fault(S22018)
      case 'e' =>
        var s :- Without(s, "minute");
        if EndsValue(s) then Ok((Single(Minute), s)) else
          var s :- Without(s, "to");
          if LastLetter(s) == 'y' then
            var s :- Without(s, "day"); Ok((DayToMinute, s))
          else if LastLetter(s) == 'r' then
            var s :- Without(s, "hour"); Ok((HourToMinute, s))
          else MonthQualifier(s)
      case 'h' => MonthQualifier(s)
      case 'd' =>
        var s :- Without(s, "second");
        if EndsValue(s) then Ok((Single(Second), s)) else
          var s :- Without(s, "to");
          if LastLetter(s) == 'y' then
            var s :- Without(s, "day"); Ok((DayToSecond, s))
          else if LastLetter(s) == 'r' then
            var s :- Without(s, "hour"); Ok((HourToSecond, s))
          else if LastLetter(s) == 'e' then
            var s :- Without(s, "minute"); Ok((MinuteToSecond, s))
          else Fault(S22018)
      case _ => Fault(S22018)
  }

  // ---- the literal ------------------------------------------------------------------------------

  const INTERVAL := "interval"

  /** The enclosing braces, if any, with the space within them. */
  function Unbraced(s: string): string {
    if s != "" && s[0] == '{' && s[|s| - 1] == '}' then
      TrimRight(TrimLeft(s[1..|s| - 1]))
    else s
  }

  /** The enclosing quotes, if any; a lone quote leaves nothing to read. */
  function Unquoted(s: string): string {
    if s != "" && s[0] == '\'' && s[|s| - 1] == '\'' then
      if |s| == 1 then "" else s[1..|s| - 1]
    else s
  }

  predicate IsSignChar(s: string) {
    s != "" && (s[0] == '-' || s[0] == '+')
  }

  function ReadSignedValue(kind: Kind, s: string, rec: Record): Result<Interval> {
    if IsSignChar(s) then ReadValue(kind, s[0] == '-', Unquoted(TrimLeft(s[1..])), rec)
    else ReadValue(kind, false, Unquoted(s), rec)
  }

  /** `parse_interval_literal`: `INTERVAL [+|-] ['] value ['] qualifier`, possibly in braces. */
  function ReadLiteral(s: string, rec: Record): Result<Interval> {
    if |s| < |INTERVAL| + 4 then Fault(S22018)
    else
      var s := Unbraced(s);
      if |s| <= |INTERVAL| || LowerAll(s[..|INTERVAL|]) != INTERVAL then Fault(S22018)
      else
        var (kind, s) :- ReadQualifier(TrimLeft(s[|INTERVAL|..]));
        ReadSignedValue(kind, s, rec)
  }
}
