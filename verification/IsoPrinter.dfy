/** The ISO 8601 printer. */
module IsoPrinter {
  import opened Buffers
  import opened Decimals
  import opened Intervals
  import opened IsoGrammar

  /** Seconds and fraction as a decimal number; a fraction of no digits is not printed. */
  function SecondsText(second: nat, fraction: nat, precision: SecondPrecision): string {
    if fraction == 0 || precision == 0 then Print(second)
    else
      Print(second + Over(fraction, Pow10(precision))) + "."
      + Pad(fraction % Pow10(precision), precision)
  }

  function SignText(negative: bool): string {
    if negative then "-" else ""
  }

  /** A field is printed only if it is not zero. */
  function FieldText(negative: bool, value: nat, unit: char): string {
    if value == 0 then "" else SignText(negative) + Print(value) + [unit]
  }

  function SecondFieldText(ivl: Interval, precision: SecondPrecision): string {
    if ivl.second == 0 && ivl.fraction == 0 then ""
    else SignText(ivl.negative) + SecondsText(ivl.second, ivl.fraction, precision) + "S"
  }

  function TimeText(ivl: Interval, precision: SecondPrecision): string {
    FieldText(ivl.negative, ivl.monthOrHour, 'H') + FieldText(ivl.negative, ivl.minute, 'M')
    + SecondFieldText(ivl, precision)
  }

  /** Only the non-zero fields, and at least one. */
  function IsoText(ivl: Interval, precision: SecondPrecision): string {
    if IsYearMonth(ivl.kind) then
      var date := FieldText(ivl.negative, ivl.yearOrDay, 'Y') + FieldText(ivl.negative, ivl.monthOrHour, 'M');
      "P" + if date == "" then "0M" else date
    else
      var date, time := FieldText(ivl.negative, ivl.yearOrDay, 'D'), TimeText(ivl, precision);
      "P" + date + if time != "" then "T" + time else if date == "" then "T0S" else ""
  }

  // ---- the writer ----------------------------------------------------------------------------

  /** `print_interval_sec`, the double it goes through taken as an exact decimal. */
  method SecondsOf(ivl: Interval, precision: SecondPrecision) returns (text: string)
    ensures text == SecondsText(ivl.second, ivl.fraction, precision)
  {
    if ivl.fraction != 0 && precision != 0 {
      var whole := ivl.second + Over(ivl.fraction, Pow10(precision));
      text := Print(whole) + "." + Pad(ivl.fraction % Pow10(precision), precision);
    } else {
      text := Print(ivl.second);
    }
  }

  /** The time mark goes before the first time field. */
  function Marked(mark: bool, text: string): string {
    if mark && text != "" then "T" + text else text
  }

  /** `PRINT_FIELD`: nothing for a zero. */
  method PutField(dest: array<char>, pos: nat, negative: bool, value: u32, unit: char, isTime: bool, tAdded: bool,
                  ghost base: seq<char>, ghost done: string)
    returns (end: nat, t: bool)
    requires Wrote(dest, base, 0, done) && pos == |done|
    requires pos + |Marked(isTime && !tAdded, FieldText(negative, value, unit))| <= dest.Length
    modifies dest
    ensures end == pos + |Marked(isTime && !tAdded, FieldText(negative, value, unit))|
    ensures Wrote(dest, base, 0, done + Marked(isTime && !tAdded, FieldText(negative, value, unit)))
    ensures t == (tAdded || (isTime && value != 0))
  {
    hide Wrote;
    end, t := pos, tAdded;
    if value != 0 {
      var mark := if isTime && !t then "T" else "";
      t := tAdded || isTime;
      var text := mark + (SignText(negative) + Print(value) + [unit]);
      assert text == Marked(isTime && !tAdded, FieldText(negative, value, unit));
      end := Put(dest, end, text, base, 0, done);
    } else {
      assert done + "" == done;
    }
  }

  method PutMonths(ivl: Interval, precision: SecondPrecision, dest: array<char>, ghost base: seq<char>)
    returns (pos: nat)
    requires IsYearMonth(ivl.kind) && Wrote(dest, base, 0, "P") && |IsoText(ivl, precision)| <= dest.Length
    modifies dest
    ensures pos == |IsoText(ivl, precision)| && Wrote(dest, base, 0, IsoText(ivl, precision))
  {
    hide Wrote, FieldText;
    var t;
    ghost var year := FieldText(ivl.negative, ivl.yearOrDay, 'Y');
    ghost var month := FieldText(ivl.negative, ivl.monthOrHour, 'M');
    pos, t := PutField(dest, 1, ivl.negative, ivl.yearOrDay, 'Y', false, false, base, "P");
    pos, t := PutField(dest, pos, ivl.negative, ivl.monthOrHour, 'M', false, false, base, "P" + year);
    assert "P" + year + month == "P" + (year + month);
    if pos <= 1 {
      pos := Put(dest, pos, "0M", base, 0, "P" + (year + month));
      assert "P" + (year + month) + "0M" == "P" + "0M";
    }
  }

  lemma {:induction false} FieldEmpty(negative: bool, value: nat, unit: char)
    ensures FieldText(negative, value, unit) == "" <==> value == 0
  {
  }

  /** Marking field by field marks the whole. */
  lemma {:induction false} MarkedThrice(a: string, b: string, c: string)
    ensures Marked(true, a) + Marked(a == "", b) == Marked(true, a + b)
    ensures Marked(true, a + b) + Marked(a + b == "", c) == Marked(true, a + b + c)
  {
  }

  /** The time part of `print_interval_iso8601`. */
  method PutTime(ivl: Interval, precision: SecondPrecision, dest: array<char>, start: nat,
                 ghost base: seq<char>, ghost done: string)
    returns (pos: nat)
    requires Wrote(dest, base, 0, done) && start == |done|
    requires start + |Marked(true, TimeText(ivl, precision))| <= dest.Length
    modifies dest
    ensures pos == start + |Marked(true, TimeText(ivl, precision))|
    ensures Wrote(dest, base, 0, done + Marked(true, TimeText(ivl, precision)))
  {
    hide Wrote;
    FieldEmpty(ivl.negative, ivl.monthOrHour, 'H');
    FieldEmpty(ivl.negative, ivl.minute, 'M');
    hide FieldText, SecondsText;
    ghost var hour := FieldText(ivl.negative, ivl.monthOrHour, 'H');
    ghost var minute := FieldText(ivl.negative, ivl.minute, 'M');
    ghost var second := SecondFieldText(ivl, precision);
    MarkedThrice(hour, minute, second);
    MarkedThrice(hour, minute, "");
    var t;
    pos, t := PutField(dest, start, ivl.negative, ivl.monthOrHour, 'H', true, false, base, done);
    pos, t := PutField(dest, pos, ivl.negative, ivl.minute, 'M', true, t, base, done + Marked(true, hour));
    Reassociate(done, Marked(true, hour), Marked(hour == "", minute));
    if ivl.second != 0 || ivl.fraction != 0 {
      var mark := if !t then "T" else "";
      var seconds := SecondsOf(ivl, precision);
      var text := mark + (SignText(ivl.negative) + seconds + "S");
      assert text == Marked(hour + minute == "", second);
      pos := Put(dest, pos, text, base, 0, done + Marked(true, hour + minute));
      Reassociate(done, Marked(true, hour + minute), text);
    } else {
      assert hour + minute + "" == hour + minute;
    }
  }

  method PutDays(ivl: Interval, precision: SecondPrecision, dest: array<char>, ghost base: seq<char>)
    returns (pos: nat)
    requires !IsYearMonth(ivl.kind) && Wrote(dest, base, 0, "P") && |IsoText(ivl, precision)| <= dest.Length
    modifies dest
    ensures pos == |IsoText(ivl, precision)| && Wrote(dest, base, 0, IsoText(ivl, precision))
  {
    hide Wrote;
    ghost var day := FieldText(ivl.negative, ivl.yearOrDay, 'D');
    ghost var time := TimeText(ivl, precision);
    FieldEmpty(ivl.negative, ivl.monthOrHour, 'H');
    FieldEmpty(ivl.negative, ivl.minute, 'M');
    FieldEmpty(ivl.negative, ivl.yearOrDay, 'D');
    hide FieldText, SecondsText;
    var t;
    pos, t := PutField(dest, 1, ivl.negative, ivl.yearOrDay, 'D', false, false, base, "P");
    pos := PutTime(ivl, precision, dest, pos, base, "P" + day);
    if pos <= 1 {
      pos := Put(dest, pos, "T0S", base, 0, "P" + day + Marked(true, time));
      assert "P" + day + Marked(true, time) + "T0S" == "P" + day + "T0S";
    }
  }

  method PrintIso(ivl: Interval, precision: SecondPrecision, dest: array<char>) returns (pos: nat)
    requires |IsoText(ivl, precision)| <= dest.Length
    modifies dest
    ensures pos == |IsoText(ivl, precision)| && Wrote(dest, old(dest[..]), 0, IsoText(ivl, precision))
  {
    hide Wrote, Print, SecondsText;
    ghost var base := dest[..];
    WroteNothing(dest, 0);
    pos := Put(dest, 0, "P", base, 0, "");
    assert "" + "P" == "P";
    if IsYearMonth(ivl.kind) {
      pos := PutMonths(ivl, precision, dest, base);
    } else {
      pos := PutDays(ivl, precision, dest, base);
    }
  }
}
