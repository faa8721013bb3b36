/** The ISO 8601 duration parser (section 4.4.3.2 of ISO 8601:2004) and its rebalancing step. */
module IsoParser {
  import opened Decimals
  import opened Integers
  import opened Intervals
  import opened Wrappers

  /** The return code of the last number read; a text without numbers leaves it unset. */
  datatype Code = Unset | Success | WithInfo

  datatype Outcome =
    | Parsed(ivl: Interval, code: Code)
    | Malformed   // SQLSTATE 22018
    | Overflow    // SQLSTATE 22015

  // ---- numbers ------------------------------------------------------------------------------

  datatype Token =
    | NoNumber
    | Number(length: nat, magnitude: u32, negative: bool, fraction: u32, hasFraction: bool, code: Code)

  /** The stored magnitude: -2^63 is its own negation in 64 bits, passes the range check and is
      truncated to 32 zero bits. */
  function Magnitude32(v: int): (m: nat) {
    if v == -MIN_I64_MAGNITUDE then 0 else if v < 0 then -v else v
  }

  /** A 32-bit fraction rescaled to a record's precision stays a 32-bit number. */
  lemma {:induction false} FractionFits(s: string, precision: SecondPrecision)
    ensures var r := ReadUnsigned(s, false);
            r.Read? ==> Rescale(r.value, r.count, precision) < Pow10(precision) <= MAX_U32
  {
    var r := ReadUnsigned(s, false);
    if r.Read? {
      ReadBound(s);
      RescaledFits(r.value, r.count, precision);
      BillionBounds(precision);
    }
  }

  /** `parse_iso8601_number`, but for its check of mixed signs. */
  function ReadToken(s: string, precision: SecondPrecision): (t: Token)
    ensures t.Number? ==> t.length <= |s| && t.fraction < Pow10(precision)
  {
    match ReadSigned(s, false)
    case Rejected(_) => NoNumber
    case Read(digits, v) =>
      if |s| <= digits || Magnitude32(v) > MAX_U32 then NoNumber
      else if s[digits] != '.' then Number(digits, Magnitude32(v), v < 0, 0, false, Success)
      else if |s| <= digits + 1 then NoNumber
      else
        var rest := s[digits + 1..];
        FractionFits(rest, precision);
        match ReadUnsigned(rest, false)
        case Rejected(_) => NoNumber
        case Read(fdigits, u) =>
          if u > MAX_U32 then NoNumber
          else
            Number(digits + 1 + fdigits, Magnitude32(v), v < 0, Rescale(u, fdigits, precision), true,
                   if fdigits < precision then Success else WithInfo)
  }

  // ---- designators --------------------------------------------------------------------------

  datatype Mode = Uninited | Period | Time | AfterNumber

  /** The parser's variables: `mode` and `saved`, the last number, the fields set so far and the
      interval's storage. */
  datatype State = State(
    mode: Mode, saved: Mode, sign: int,
    uint: u32, fraction: u32, hasFraction: bool, code: Code,
    fields: Mask,
    yearOrDay: u32, monthOrHour: u32, minute: u32, second: u32, secondFraction: u32)

  const START := State(Uninited, Uninited, 0, 0, 0, false, Unset, NO_FIELDS, 0, 0, 0, 0, 0)

  /** `c | 0x20`. */
  function Fold(c: char): char {
    if (c as int / 32) % 2 == 0 then (c as int + 32) as char else c
  }

  predicate StartsNumber(c: char) {
    var f := Fold(c);
    f == '+' || f == '-' || f == '.' || IsDigit(f)
  }

  function TakeNumber(st: State, t: Token): Option<State>
    requires t.Number?
  {
    var inc := if t.negative then -1 else 1;
    if (st.sign < 0 && inc > 0) || (st.sign > 0 && inc < 0) then None
    else
      Some(st.(mode := AfterNumber, saved := st.mode, sign := st.sign + inc, uint := t.magnitude,
               fraction := if t.hasFraction then t.fraction else st.fraction,
               hasFraction := t.hasFraction, code := t.code))
  }

  /** The field a designator names, in the half of the text it is found in. */
  function FieldNamed(designator: char, half: Mode): Option<Field> {
    match Fold(designator)
    case 'y' => if half == Period then Some(Year) else None
    case 'd' => if half == Period then Some(Day) else None
    case 'h' => if half == Time then Some(Hour) else None
    case 's' => if half == Time then Some(Second) else None
    case 'm' => if half == Period then Some(Month) else if half == Time then Some(Minute) else None
    case _ => None
  }

  /** Store the last number in field `f`; the year-month and day-second storage overlaps. */
  function Assign(st: State, f: Field): (r: State)
    ensures r.mode == st.saved && r.fields == st.fields.With(f) && r.sign == st.sign
  {
    var st := st.(mode := st.saved, fields := st.fields.With(f));
    match f
    case Year | Day => st.(yearOrDay := st.uint)
    case Month | Hour => st.(monthOrHour := st.uint)
    case Minute => st.(minute := st.uint)
    case Second =>
      st.(second := st.uint, secondFraction := if st.hasFraction then st.fraction else st.secondFraction)
  }

  function TakeLetter(st: State, c: char): Option<State> {
    match Fold(c)
    case 'p' => if st.mode == Uninited then Some(st.(mode := Period)) else None
    case 't' => if st.mode == Period then Some(st.(mode := Time)) else None
    case _ =>
      if st.mode != AfterNumber then None
      else
        match FieldNamed(c, st.saved)
        case None => None
        case Some(f) =>
          if (st.hasFraction && f != Second) || st.fields.Has(f) then None else Some(Assign(st, f))
  }

  datatype Move = Stuck | Advance(length: nat, next: State)

  /** The sign counter is a C `char`. It moves once a number, and there are at most as many numbers
      as fields and one more, so it never wraps. */
  ghost predicate SignIsSmall(st: State) {
    var numbers := st.fields.Count() + if st.mode == AfterNumber then 1 else 0;
    -numbers <= st.sign <= numbers
  }

  lemma {:induction false} LetterKeepsSign(st: State, c: char)
    requires TakeLetter(st, c).Some?
    ensures SignIsSmall(st) ==> SignIsSmall(TakeLetter(st, c).value)
  {
    var letter := Fold(c);
    if letter != 'p' && letter != 't' {
      OneMoreField(st.fields, FieldNamed(c, st.saved).value);
    }
  }

  /** One turn of the loop. A character that only looks like a number once folded is consumed by
      nothing, but a number cannot follow a number. */
  function Turn(s: string, st: State, precision: SecondPrecision): (m: Move)
    requires s != ""
    ensures m.Advance? ==> m.length <= |s|
    ensures m.Advance? && m.length == 0 ==> st.mode != AfterNumber && m.next.mode == AfterNumber
    ensures m.Advance? && SignIsSmall(st) ==> SignIsSmall(m.next)
  {
    if StartsNumber(s[0]) then
      if st.mode != Period && st.mode != Time then Stuck
      else
        var t := ReadToken(s, precision);
        if t.NoNumber? then Stuck
        else match TakeNumber(st, t)
             case None => Stuck
             case Some(next) => Advance(t.length, next)
    else
      match TakeLetter(st, s[0])
      case None => Stuck
      case Some(next) => LetterKeepsSign(st, s[0]); Advance(1, next)
  }

  /** The scan of a whole text; it always stops. */
  function Run(s: string, st: State, precision: SecondPrecision): Option<State>
    decreases |s|, if st.mode == AfterNumber then 0 else 1
  {
    if s == "" then Some(st)
    else
      match Turn(s, st, precision)
      case Stuck => None
      case Advance(length, next) => Run(s[length..], next, precision)
  }

  // ---- rebalancing --------------------------------------------------------------------------

  const MOD32 := 0x1_0000_0000

  /** The checked 32-bit sum of the fields; each product has already wrapped when it is added. */
  function CheckedSeconds(day: u32, hour: u32, minute: u32, second: u32): Option<u32> {
    var a := second + (60 * minute) % MOD32;
    if a > MAX_U32 then None else
      var b := a + (3600 * hour) % MOD32;
      if b > MAX_U32 then None else
        var c := b + (24 * 3600 * day) % MOD32;
        if c > MAX_U32 then None else Some(c)
  }

  /** `secs` as a value of a day-second type, what is below its smallest field cut off. */
  function Balanced(kind: Kind, negative: bool, secs: u32, fraction: u32): Interval {
    var fields := FieldsOf(kind);
    var second := if fields.minute then secs % 60 else secs;
    var minute := if fields.hour then secs / 60 % 60 else secs / 60;
    var hour := if fields.day then secs / 3600 % 24 else secs / 3600;
    Interval(kind, negative,
             if fields.day then secs / 86400 else 0,
             if fields.hour then hour else 0,
             if fields.minute then minute else 0,
             if fields.second then second else 0,
             fraction)
  }

  predicate NeedsRebalancing(st: State, kind: Kind) {
    st.fields != FieldsOf(kind) && !IsYearMonth(kind)
  }

  function Finish(st: State, kind: Kind): Outcome {
    if st.mode != Period && st.mode != Time then Malformed
    else if NeedsRebalancing(st, kind) then
      match CheckedSeconds(st.yearOrDay, st.monthOrHour, st.minute, st.second)
      case None => Overflow
      case Some(secs) =>
        if !FieldsOf(kind).second && st.hasFraction then Malformed
        else Parsed(Balanced(kind, st.sign < 0, secs, st.fraction), st.code)
    else if !st.fields.Within(FieldsOf(kind)) then Malformed
    else
      Parsed(Interval(kind, st.sign < 0, st.yearOrDay, st.monthOrHour, st.minute, st.second,
                      st.secondFraction), st.code)
  }

  function ParseIso(text: string, kind: Kind, precision: SecondPrecision): Outcome {
    match Run(text, START, precision)
    case None => Malformed
    case Some(st) => Finish(st, kind)
  }

  // ---- the loop -----------------------------------------------------------------------------

  /** `adjust_to_precision`: scaling down is reported, even by no digits at all. The powers of ten are
      those of 64-bit arithmetic; one that would shift a word by 64 or more, which C leaves undefined, is
      taken as exact. */
  method AdjustToPrecision(value: u32, have: nat, precision: SecondPrecision) returns (r: nat, code: Code)
    ensures r == Rescale(value, have, precision)
    ensures code == if have < precision then Success else WithInfo
  {
    if have < precision {
      var pow := PowerOfTen(precision - have);
      r, code := Times(value, pow), Success;
    } else {
      var n := have - precision;
      if n < 64 {
        var pow := PowerOfTen(n);
        WrappedDivides(value, n);
        r := Over(value, pow);
      } else {
        r := Over(value, Pow10(n));
      }
      code := WithInfo;
    }
  }

  method ParseIsoNumber(s: string, precision: SecondPrecision) returns (t: Token)
    ensures t == ReadToken(s, precision)
  {
    hide ReadSigned, ReadUnsigned, Rescale;
    var r := Str2BigInt(s, false);
    if r.Rejected? {
      return NoNumber;
    }
    var digits, bint := r.count, r.value;
    if |s| <= digits {
      return NoNumber;
    }
    var fraction: u32, hasFraction, code := 0, false, Success;
    var length := digits;
    if s[digits] == '.' {
      if |s| <= digits + 1 {
        return NoNumber;
      }
      var f := Str2UBigInt(s[digits + 1..], false);
      if f.Rejected? || MAX_U32 < f.value {
        return NoNumber;
      }
      length := digits + 1 + f.count;
      FractionFits(s[digits + 1..], precision);
      fraction, code := AdjustToPrecision(f.value, f.count, precision);
      hasFraction := true;
    }
    var negative := bint < 0;
    if negative {
      bint := if bint == -MIN_I64_MAGNITUDE then bint else -bint;
    }
    if MAX_U32 < bint {
      return NoNumber;
    }
    return Number(length, bint % MOD32, negative, fraction, hasFraction, code);
  }

  method TakeTurn(s: string, st: State, precision: SecondPrecision) returns (m: Move)
    requires s != ""
    ensures m == Turn(s, st, precision)
  {
    if StartsNumber(s[0]) {
      if st.mode != Period && st.mode != Time {
        return Stuck;
      }
      var t := ParseIsoNumber(s, precision);
      if t.NoNumber? {
        return Stuck;
      }
      var next := TakeNumber(st, t);
      return if next.None? then Stuck else Advance(t.length, next.value);
    } else {
      var next := TakeLetter(st, s[0]);
      return if next.None? then Stuck else Advance(1, next.value);
    }
  }

  lemma {:induction false} SignFitsChar(st: State)
    ensures SignIsSmall(START) && (SignIsSmall(st) ==> -128 <= st.sign <= 127)
  {
  }

  /** The scanning loop. */
  method Scan(text: string, precision: SecondPrecision) returns (r: Option<State>)
    ensures r == Run(text, START, precision)
  {
    hide Turn, SignIsSmall;
    SignFitsChar(START);
    var st, crr := START, 0;
    assert text[0..] == text;
    while crr < |text|
      invariant crr <= |text|
      invariant SignIsSmall(st) && -128 <= st.sign <= 127
      invariant Run(text[crr..], st, precision) == Run(text, START, precision)
      decreases |text| - crr, if st.mode == AfterNumber then 0 else 1
    {
      var move := TakeTurn(text[crr..], st, precision);
      if move.Stuck? {
        return None;
      }
      assert text[crr..][move.length..] == text[crr + move.length..];
      SignFitsChar(move.next);
      st, crr := move.next, crr + move.length;
    }
    return Some(st);
  }

  /** The `ULONG_SAFE_ADD`s: each product is added if that does not pass 32 bits. */
  method AddSafely(day: u32, hour: u32, minute: u32, second: u32) returns (r: Option<u32>)
    ensures r == CheckedSeconds(day, hour, minute, second)
  {
    var secs := second;
    if MAX_U32 - (60 * minute) % MOD32 < secs {
      return None;
    }
    secs := secs + (60 * minute) % MOD32;
    if MAX_U32 - (3600 * hour) % MOD32 < secs {
      return None;
    }
    secs := secs + (3600 * hour) % MOD32;
    if MAX_U32 - (24 * 3600 * day) % MOD32 < secs {
      return None;
    }
    return Some(secs + (24 * 3600 * day) % MOD32);
  }

  lemma {:induction false} Quotients(secs: nat)
    ensures secs / 60 / 60 == secs / 3600 && secs / 3600 / 24 == secs / 86400
  {
  }

  /** The quotients and remainders of the seconds, taken one field at a time. */
  method Divide(fields: Mask, secs: u32) returns (day: u32, hour: u32, minute: u32, second: u32)
    requires fields.second && fields.hour ==> fields.minute
    requires (fields.second || fields.minute) && fields.day ==> fields.hour
    ensures second == if !fields.second then 0 else if fields.minute then secs % 60 else secs
    ensures minute == if !fields.minute then 0 else if fields.hour then secs / 60 % 60 else secs / 60
    ensures hour == if !fields.hour then 0 else if fields.day then secs / 3600 % 24 else secs / 3600
    ensures day == if fields.day then secs / 86400 else 0
  {
    Quotients(secs);
    day, hour, minute, second := 0, 0, 0, 0;
    if fields.second {
      second := secs;
    }
    if fields.minute {
      if second != 0 {
        minute := second / 60;
        second := secs % 60;
      } else {
        minute := secs / 60;
      }
    }
    if fields.hour {
      if minute != 0 {
        hour := minute / 60;
        minute := minute % 60;
      } else {
        hour := secs / 3600;
      }
    }
    if fields.day {
      if hour != 0 {
        day := hour / 24;
        hour := hour % 24;
      } else {
        day := secs / (24 * 3600);
      }
    }
  }

  /** The rebalancing branch. */
  method Rebalance(kind: Kind, st: State) returns (r: Outcome)
    requires NeedsRebalancing(st, kind) && (st.mode == Period || st.mode == Time)
    ensures r == Finish(st, kind)
  {
    hide CheckedSeconds;
    var fields := FieldsOf(kind);
    var secs := AddSafely(st.yearOrDay, st.monthOrHour, st.minute, st.second);
    if secs.None? {
      return Overflow;
    }
    if !fields.second && st.hasFraction {
      return Malformed;
    }
    var day, hour, minute, second := Divide(fields, secs.value);
    return Parsed(Interval(kind, st.sign < 0, day, hour, minute, second, st.fraction), st.code);
  }

  /** The parser. */
  method ParseInterval(text: string, kind: Kind, precision: SecondPrecision) returns (r: Outcome)
    ensures r == ParseIso(text, kind, precision)
  {
    var scanned := Scan(text, precision);
    if scanned.None? {
      return Malformed;
    }
    var st := scanned.value;
    if st.mode != Period && st.mode != Time {
      r := Malformed;
    } else if st.fields != FieldsOf(kind) && !IsYearMonth(kind) {
      r := Rebalance(kind, st);
    } else if !st.fields.Within(FieldsOf(kind)) {
      r := Malformed;
    } else {
      r := Parsed(Interval(kind, st.sign < 0, st.yearOrDay, st.monthOrHour, st.minute, st.second,
                           st.secondFraction), st.code);
    }
  }
}
