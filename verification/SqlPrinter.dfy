/** The SQL printer of intervals, what its text denotes, and the ISO-to-SQL translation. */
module SqlPrinter {
  import opened Buffers
  import opened Decimals
  import opened Intervals
  import opened IsoParser
  import opened IsoPrinter

  // ---- the printer ----------------------------------------------------------------------------

  /** The value between the quotes of an interval literal, without its sign. */
  function SqlValue(ivl: Interval, precision: SecondPrecision): string {
    var day, hour, minute := Print(ivl.yearOrDay), Print(ivl.monthOrHour), Print(ivl.minute);
    var second := SecondsText(ivl.second, ivl.fraction, precision);
    match ivl.kind
    case Single(Year) => Print(ivl.yearOrDay)
    case Single(Month) => Print(ivl.monthOrHour)
    case Single(Day) => day
    case Single(Hour) => hour
    case Single(Minute) => minute
    case Single(Second) => second
    case YearToMonth => Print(ivl.yearOrDay) + "-" + Print(ivl.monthOrHour)
    case DayToHour => day + " " + hour
    case DayToMinute => day + " " + hour + ":" + minute
    case DayToSecond => day + " " + hour + ":" + minute + ":" + second
    case HourToMinute => hour + ":" + minute
    case HourToSecond => hour + ":" + minute + ":" + second
    case MinuteToSecond => minute + ":" + second
  }

  function SqlText(ivl: Interval, precision: SecondPrecision): string {
    SignText(ivl.negative) + SqlValue(ivl, precision)
  }

  predicate IsToSecond(kind: Kind) {
    kind == DayToSecond || kind == HourToSecond || kind == MinuteToSecond
  }

  lemma {:induction false} SqlToSecond(ivl: Interval, precision: SecondPrecision)
    requires IsToSecond(ivl.kind)
    ensures var second := SecondsText(ivl.second, ivl.fraction, precision);
            var text := if ivl.kind == DayToSecond then Print(ivl.yearOrDay) + " " else "";
            var text := if ivl.kind == MinuteToSecond then text else text + (Print(ivl.monthOrHour) + ":");
            SqlValue(ivl, precision) == text + (Print(ivl.minute) + ":" + second)
  {
    hide Print, SecondsText;
  }

  /** The types from some field to seconds, which fall through into one another. */
  method PutToSecond(ivl: Interval, precision: SecondPrecision, dest: array<char>, start: nat,
                     ghost base: seq<char>, ghost done: string)
    returns (pos: nat)
    requires IsToSecond(ivl.kind) && Wrote(dest, base, 0, done) && start == |done|
    requires start + |SqlValue(ivl, precision)| <= dest.Length
    modifies dest
    ensures pos == start + |SqlValue(ivl, precision)|
    ensures Wrote(dest, base, 0, done + SqlValue(ivl, precision))
  {
    hide Wrote, Print, SecondsText;
    var day, hour, minute := Print(ivl.yearOrDay), Print(ivl.monthOrHour), Print(ivl.minute);
    ghost var second := SecondsText(ivl.second, ivl.fraction, precision);
    SqlToSecond(ivl, precision);
    hide SqlValue;
    ghost var text := "";
    pos := start;
    assert done + "" == done;
    if ivl.kind == DayToSecond {
      pos := Put(dest, pos, day + " ", base, 0, done);
      text := day + " ";
    }
    if ivl.kind != MinuteToSecond {
      pos := Put(dest, pos, hour + ":", base, 0, done + text);
      Reassociate(done, text, hour + ":");
      text := text + (hour + ":");
    }
    var last := SecondsOf(ivl, precision);
    pos := Put(dest, pos, minute + ":" + last, base, 0, done + text);
    Reassociate(done, text, minute + ":" + second);
  }

  /** The switch over the types. */
  method PutValue(ivl: Interval, precision: SecondPrecision, dest: array<char>, start: nat,
                  ghost base: seq<char>, ghost done: string)
    returns (pos: nat)
    requires Wrote(dest, base, 0, done) && start == |done|
    requires start + |SqlValue(ivl, precision)| <= dest.Length
    modifies dest
    ensures pos == start + |SqlValue(ivl, precision)|
    ensures Wrote(dest, base, 0, done + SqlValue(ivl, precision))
  {
    if IsToSecond(ivl.kind) {
      hide Wrote, SqlValue;
      pos := PutToSecond(ivl, precision, dest, start, base, done);
    } else {
      hide Wrote, Print, SecondsText;
      var day, hour, minute := Print(ivl.yearOrDay), Print(ivl.monthOrHour), Print(ivl.minute);
      var second := SecondsOf(ivl, precision);
      var text := match ivl.kind
        case Single(Year) | Single(Day) => day
        case Single(Month) | Single(Hour) => hour
        case Single(Minute) => minute
        case Single(Second) => second
        case YearToMonth => day + "-" + hour
        case DayToHour => day + " " + hour
        case DayToMinute => day + " " + hour + ":" + minute
        case HourToMinute => hour + ":" + minute;
      pos := Put(dest, start, text, base, 0, done);
    }
  }

  method PrintSql(ivl: Interval, precision: SecondPrecision, dest: array<char>) returns (pos: nat)
    requires |SqlText(ivl, precision)| <= dest.Length
    modifies dest
    ensures pos == |SqlText(ivl, precision)|
    ensures Wrote(dest, old(dest[..]), 0, SqlText(ivl, precision))
  {
    hide Wrote;
    ghost var base := dest[..];
    WroteNothing(dest, 0);
    var sign := SignText(ivl.negative);
    pos := Put(dest, 0, sign, base, 0, "");
    assert "" + sign == sign;
    pos := PutValue(ivl, precision, dest, pos, base, sign);
  }
}
