/** The ODBC interval structure and what it denotes. */
module Intervals {
  import opened Decimals

  datatype Field = Year | Month | Day | Hour | Minute | Second

  /** The 13 interval types. */
  datatype Kind =
    | Single(field: Field)
    | YearToMonth
    | DayToHour | DayToMinute | DayToSecond
    | HourToMinute | HourToSecond
    | MinuteToSecond

  function Bit(b: bool): nat {
    if b then 1 else 0
  }

  /** A bit mask of fields. */
  datatype Mask = Mask(year: bool, month: bool, day: bool, hour: bool, minute: bool, second: bool)
  {
    predicate Has(f: Field) {
      match f
      case Year => year
      case Month => month
      case Day => day
      case Hour => hour
      case Minute => minute
      case Second => second
    }

    function With(f: Field): (m: Mask)
      ensures forall g :: m.Has(g) <==> Has(g) || g == f
    {
      Mask(year || f == Year, month || f == Month, day || f == Day,
           hour || f == Hour, minute || f == Minute, second || f == Second)
    }

    predicate Within(other: Mask) {
      && (year ==> other.year) && (month ==> other.month) && (day ==> other.day)
      && (hour ==> other.hour) && (minute ==> other.minute) && (second ==> other.second)
    }

    function Count(): nat {
      Bit(year) + Bit(month) + Bit(day) + Bit(hour) + Bit(minute) + Bit(second)
    }
  }

  lemma {:induction false} OneMoreField(m: Mask, f: Field)
    requires !m.Has(f)
    ensures m.With(f).Count() == m.Count() + 1
  {
    match f
    case Year =>
    case Month =>
    case Day =>
    case Hour =>
    case Minute =>
    case Second =>
  }

  const NO_FIELDS := Mask(false, false, false, false, false, false)

  /** `type2bm`: the fields an interval type consists of. */
  function FieldsOf(kind: Kind): Mask {
    match kind
    case Single(f) => NO_FIELDS.With(f)
    case YearToMonth => Mask(true, true, false, false, false, false)
    case DayToHour => Mask(false, false, true, true, false, false)
    case DayToMinute => Mask(false, false, true, true, true, false)
    case DayToSecond => Mask(false, false, true, true, true, true)
    case HourToMinute => Mask(false, false, false, true, true, false)
    case HourToSecond => Mask(false, false, false, true, true, true)
    case MinuteToSecond => Mask(false, false, false, false, true, true)
  }

  predicate IsYearMonth(kind: Kind) {
    FieldsOf(kind).year || FieldsOf(kind).month
  }

  /** SQL_INTERVAL_STRUCT. The year-month and day-second parts are a union, so the year shares its
      storage with the day, and the month with the hour. */
  datatype Interval = Interval(
    kind: Kind, negative: bool,
    yearOrDay: u32, monthOrHour: u32, minute: u32, second: u32, fraction: u32)

  /** Seconds in the day-second part, not counting the fraction. */
  function DaySeconds(day: nat, hour: nat, minute: nat, second: nat): nat {
    86400 * day + 3600 * hour + 60 * minute + second
  }

  /** The duration: whole seconds for the day-second types, months for the others. */
  function Magnitude(ivl: Interval): nat {
    if IsYearMonth(ivl.kind) then 12 * ivl.yearOrDay + ivl.monthOrHour
    else DaySeconds(ivl.yearOrDay, ivl.monthOrHour, ivl.minute, ivl.second)
  }

  /** Seconds in the smallest field of a day-second type. */
  function UnitSeconds(kind: Kind): (u: nat)
    requires !IsYearMonth(kind)
    ensures u > 0
  {
    if FieldsOf(kind).second then 1
    else if FieldsOf(kind).minute then 60
    else if FieldsOf(kind).hour then 3600
    else 86400
  }

  /** Every non-leading field within its range, and nothing outside the type. */
  predicate IsMixedRadix(ivl: Interval) {
    var fields := FieldsOf(ivl.kind);
    && (fields.year || fields.day || ivl.yearOrDay == 0)
    && (fields.month || fields.hour || ivl.monthOrHour == 0)
    && (fields.minute || ivl.minute == 0)
    && (fields.second || ivl.second == 0)
    && (ivl.kind == YearToMonth ==> ivl.monthOrHour < 12)
    && (fields.day ==> ivl.monthOrHour < 24)
    && (fields.hour ==> ivl.minute < 60)
    && (fields.minute ==> ivl.second < 60)
  }

  /** Digits of fractional seconds a descriptor record may ask for. */
  type SecondPrecision = p: nat | p <= 9

  /** A value as ODBC defines it: mixed radix, and a fraction only of seconds and within precision. */
  predicate IsProper(ivl: Interval, precision: SecondPrecision) {
    && IsMixedRadix(ivl)
    && ivl.fraction < Pow10(precision)
    && (!FieldsOf(ivl.kind).second ==> ivl.fraction == 0)
  }

  predicate IsZero(ivl: Interval) {
    ivl.yearOrDay == ivl.monthOrHour == ivl.minute == ivl.second == ivl.fraction == 0
  }

  /** Two mixed-radix values of one type and duration are the same value. */
  lemma {:induction false} MixedRadixIsUnique(a: Interval, b: Interval)
    requires a.kind == b.kind && IsMixedRadix(a) && IsMixedRadix(b)
    requires Magnitude(a) == Magnitude(b)
    ensures a.yearOrDay == b.yearOrDay && a.monthOrHour == b.monthOrHour
         && a.minute == b.minute && a.second == b.second
  {
  }
}
