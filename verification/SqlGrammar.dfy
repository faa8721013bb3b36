/** The SQL interval literals, as a grammar, and that the parser reads just these. */
module SqlGrammar {
  import opened Decimals
  import opened Integers
  import opened Intervals
  import opened IsoMeaning
  import opened IsoNumbers
  import opened Rebalancing
  import opened SqlLiterals
  import M = SqlMeanings

  // ---- characters -----------------------------------------------------------------------------

  /** White space, character by character. */
  predicate IsWhite(c: char) {
    c == ' ' || c == '\t' || c == '\n' || c == '\U{0B}' || c == '\U{0C}' || c == '\r'
  }

  lemma {:induction false} SpaceIsWhite(c: char)
    ensures IsSpace(c) <==> IsWhite(c)
  {
  }

  predicate AllSpace(s: string) {
    forall i :: 0 <= i < |s| ==> IsWhite(s[i])
  }

  predicate StartsTight(s: string) {
    s == "" || !IsWhite(s[0])
  }

  predicate EndsTight(s: string) {
    s == "" || !IsWhite(s[|s| - 1])
  }

  /** A letter in either case is that letter in lower case. */
  predicate IsLetterOf(c: char, lower: char) {
    if 'A' <= c <= 'Z' then lower as int - 'a' as int == c as int - 'A' as int else lower == c
  }

  predicate IsWordIn(spelled: string, word: string) {
    |spelled| == |word| && forall i :: 0 <= i < |word| ==> IsLetterOf(spelled[i], word[i])
  }

  lemma {:induction false} InAnyCase(spelled: string, word: string)
    ensures LowerAll(spelled) == word <==> IsWordIn(spelled, word)
  {
    var lower := LowerAll(spelled);
    assert forall i :: 0 <= i < |spelled| ==> lower[i] == Lower(spelled[i]);
    hide LowerAll;
  }

  // ---- a field --------------------------------------------------------------------------------

  /** Digits, possibly after a `+`; the `+` may even be alone, and counts as a digit. */
  predicate IsFieldText(t: string) {
    t != "" && AllDigits(AfterPlus(t))
  }

  function FieldValue(t: string): nat {
    DigitsValue(AfterPlus(t))
  }

  /** Where a field ends: what follows cannot be part of it. */
  predicate IsFieldEnd(rest: string) {
    rest == "" || !IsDigit(rest[0])
  }

  /** A field and what follows it, within its limit: that of the record for the leading field. A lone `+`
      must be followed by something. */
  predicate IsField(t: string, rest: string, limit: u32, rec: Record) {
    && IsFieldText(t) && IsFieldEnd(rest) && !(t == "+" && rest == "")
    && FieldValue(t) <= MAX_U32
    && if limit == 0 then |t| <= rec.leadingDigits else FieldValue(t) <= limit
  }

  lemma {:induction false} NoField(rest: string)
    requires IsFieldEnd(rest) && (rest == "" || rest[0] != '+')
    ensures var r := ReadUnsigned(rest, false); r == Rejected(false) || r == Read(0, 0)
  {
    if rest != "" {
      RunEndIs(rest, 0, 0);
      assert rest[0..0] == "" && Value("") == 0;
    }
  }

  lemma {:induction false} UnsignedField(t: string, rest: string)
    requires IsFieldText(t) && IsFieldEnd(rest)
    ensures ReadUnsigned(t + rest, false)
         == if FieldValue(t) > MAX_U64 then Rejected(true)
            else if t == "+" && rest == "" then Rejected(false)
            else Read(|t|, FieldValue(t))
  {
    var s := t + rest;
    var from := if t[0] == '+' then 1 else 0;
    assert s[from..|t|] == AfterPlus(t);
    assert t[0] == s[0] && (t[0] != '+' ==> IsDigit(AfterPlus(t)[0]));
    RunEndIs(s, from, |t|);
    assert Value("") == 0;
    hide Value;
  }

  lemma {:induction false} EmptyField()
    ensures FieldValue("+") == 0
  {
  }

  /** What a field is read as, whatever the text starts with. */
  lemma {:induction false} FieldOutcome(t: string, rest: string, limit: u32, rec: Record)
    requires AllDigits(AfterPlus(t)) && IsFieldEnd(rest)
    requires t == "" ==> rest == "" || rest[0] != '+'
    ensures ReadField(t + rest, limit, rec)
         == if t == "" || (t == "+" && rest == "") then Fault(S22018)
            else if FieldValue(t) > MAX_U32 then Fault(S22015)
            else if limit == 0 && rec.leadingDigits < |t| then Fault(S22018)
            else if limit != 0 && limit < FieldValue(t) then Fault(S22015)
            else Ok((FieldValue(t), rest))
  {
    hide ReadUnsigned, DigitsValue;
    if t == "" {
      assert t + rest == rest;
      NoField(rest);
    } else {
      UnsignedField(t, rest);
      assert (t + rest)[|t|..] == rest;
      EmptyField();
    }
  }

  /** Every text is a field, possibly empty, and what follows it. */
  lemma {:induction false} FieldSplit(s: string) returns (t: string, rest: string)
    ensures s == t + rest && AllDigits(AfterPlus(t)) && IsFieldEnd(rest)
    ensures t == "" ==> rest == "" || rest[0] != '+'
  {
    if s == "" {
      t, rest := "", "";
    } else {
      var from := if s[0] == '+' then 1 else 0;
      var end := RunEnd(s, from);
      t, rest := s[..end], s[end..];
      assert AfterPlus(t) == s[from..end];
    }
  }

  /** The text is a field of this value, and the rest. */
  ghost predicate FieldAt(s: string, limit: u32, rec: Record, v: u32, rest: string) {
    exists t: string :: s == t + rest && IsField(t, rest, limit, rec) && v == FieldValue(t)
  }

  /** A field is read exactly where there is one. */
  lemma {:induction false} FieldIff(s: string, limit: u32, rec: Record, v: u32, rest: string)
    ensures ReadField(s, limit, rec) == Ok((v, rest)) <==> FieldAt(s, limit, rec, v, rest)
  {
    hide ReadField, FieldValue, IsFieldEnd;
    var t, rest' := FieldSplit(s);
    FieldOutcome(t, rest', limit, rec);
    if ReadField(s, limit, rec) == Ok((v, rest)) {
      assert s == t + rest && IsField(t, rest, limit, rec);
    }
    forall u: string | s == u + rest && IsField(u, rest, limit, rec) && v == FieldValue(u)
      ensures ReadField(s, limit, rec) == Ok((v, rest))
    {
      FieldOutcome(u, rest, limit, rec);
    }
  }

  // ---- seconds and their fraction -------------------------------------------------------------

  /** What may follow the seconds: a point, and possibly decimals, of which a `+` counts as a zero. */
  predicate IsTail(tail: string, rec: Record) {
    tail == "" || (tail[0] == '.' && (tail[1..] == "" || IsField(tail[1..], "", MAX_U32, rec)))
  }

  function TailFraction(tail: string, precision: SecondPrecision): nat {
    if |tail| <= 1 then 0 else Rescale(FieldValue(tail[1..]), |tail| - 1, precision)
  }

  lemma {:induction false} FieldFound(s: string, limit: u32, rec: Record) returns (t: string, rest: string)
    requires ReadField(s, limit, rec).Ok?
    ensures s == t + rest && IsField(t, rest, limit, rec)
    ensures ReadField(s, limit, rec) == Ok((FieldValue(t), rest))
  {
    hide IsField, FieldValue, ReadField;
    var (v, rest') := ReadField(s, limit, rec).value;
    FieldIff(s, limit, rec, v, rest');
    rest := rest';
    t :| s == t + rest && IsField(t, rest, limit, rec) && v == FieldValue(t);
  }

  lemma {:induction false} SecondFound(s: string, limit: u32, rec: Record) returns (t: string, tail: string)
    requires ReadSecond(s, limit, rec).Ok?
    ensures s == t + tail && IsField(t, tail, limit, rec) && IsTail(tail, rec)
    ensures var r := ReadSecond(s, limit, rec).value;
            r.0 == FieldValue(t) && r.1 == TailFraction(tail, rec.precision)
  {
    hide ReadField, IsField, FieldValue, Rescale;
    t, tail := FieldFound(s, limit, rec);
    if |tail| > 1 {
      var u, end := FieldFound(tail[1..], MAX_U32, rec);
      assert u + "" == u;
    }
  }

  lemma {:induction false} FieldReadAs(t: string, rest: string, limit: u32, rec: Record)
    requires IsField(t, rest, limit, rec)
    ensures FieldValue(t) <= MAX_U32 && ReadField(t + rest, limit, rec) == Ok((FieldValue(t), rest))
  {
    hide FieldValue, ReadField;
    FieldIff(t + rest, limit, rec, FieldValue(t), rest);
  }

  lemma {:induction false} SecondReadAs(t: string, tail: string, limit: u32, rec: Record)
    requires IsField(t, tail, limit, rec) && IsTail(tail, rec)
    ensures FieldValue(t) <= MAX_U32 && TailFraction(tail, rec.precision) <= MAX_U32
    ensures ReadSecond(t + tail, limit, rec) == Ok((FieldValue(t), TailFraction(tail, rec.precision)))
  {
    hide ReadField, IsField, FieldValue, Rescale;
    FieldReadAs(t, tail, limit, rec);
    if |tail| > 1 {
      FieldReadAs(tail[1..], "", MAX_U32, rec);
      assert tail[1..] + "" == tail[1..];
      FractionFits(tail[1..], rec);
    }
  }

  /** The text is seconds and their fraction. */
  ghost predicate SecondAt(s: string, limit: u32, rec: Record, second: u32, fraction: u32) {
    exists t: string, tail: string ::
      && s == t + tail && IsField(t, tail, limit, rec) && IsTail(tail, rec)
      && second == FieldValue(t) && fraction == TailFraction(tail, rec.precision)
  }

  lemma {:induction false} SecondIff(s: string, limit: u32, rec: Record, second: u32, fraction: u32)
    ensures ReadSecond(s, limit, rec) == Ok((second, fraction)) <==> SecondAt(s, limit, rec, second, fraction)
  {
    hide ReadField, IsField, FieldValue, Rescale;
    if ReadSecond(s, limit, rec) == Ok((second, fraction)) {
      var t, tail := SecondFound(s, limit, rec);
    }
    forall t: string, tail: string | s == t + tail && IsField(t, tail, limit, rec) && IsTail(tail, rec)
                                     && second == FieldValue(t) && fraction == TailFraction(tail, rec.precision)
      ensures ReadSecond(s, limit, rec) == Ok((second, fraction))
    {
      SecondReadAs(t, tail, limit, rec);
    }
  }

  // ---- a value: fields, and what separates them -----------------------------------------------

  /** Space may surround the dash, and separates days from hours; it may be missing there. */
  ghost predicate IsSeparator(c: char, gap: string) {
    if c == ' ' then AllSpace(gap)
    else if c == '-' then exists a, b :: AllSpace(a) && AllSpace(b) && gap == a + "-" + b
    else gap == [c]
  }

  /** A value as it is written. */
  datatype Written = Written(fields: seq<string>, gaps: seq<string>, tail: string)

  /** The value without its first field and separator. */
  function Rest(w: Written): (r: Written)
    requires w.fields != [] && w.gaps != []
    ensures |r.gaps| < |w.gaps|
  {
    Written(w.fields[1..], w.gaps[1..], w.tail)
  }

  function Spell(w: Written): string
    decreases |w.gaps|
  {
    if w.fields == [] then ""
    else if w.gaps == [] then w.fields[0] + w.tail
    else w.fields[0] + (w.gaps[0] + Spell(Rest(w)))
  }

  /** What is to be read: the separators, the limits of the fields, and whether seconds are the last. */
  datatype Plan = Plan(separators: string, limits: seq<u32>, seconds: bool) {
    ghost predicate Valid() {
      |limits| == |separators| + 1
    }

    function Next(): (p: Plan)
      requires Valid() && separators != ""
      ensures p.Valid() && |p.separators| < |separators|
    {
      Plan(separators[1..], limits[1..], seconds)
    }
  }

  /** Every field is one and within its limit, the separators are those of the plan, and only seconds
      have a tail. */
  ghost predicate Fulfils(w: Written, plan: Plan, rec: Record)
    requires plan.Valid()
    decreases |plan.separators|
  {
    && |w.gaps| == |plan.separators| && |w.fields| == |plan.limits|
    && (if plan.separators == "" then
          && IsField(w.fields[0], w.tail, plan.limits[0], rec)
          && if plan.seconds then IsTail(w.tail, rec) else w.tail == ""
        else
          && IsField(w.fields[0], w.gaps[0] + Spell(Rest(w)), plan.limits[0], rec)
          && IsSeparator(plan.separators[0], w.gaps[0])
          && Fulfils(Rest(w), plan.Next(), rec))
  }

  function Values(fields: seq<string>): seq<nat> {
    if fields == [] then [] else [FieldValue(fields[0])] + Values(fields[1..])
  }

  // ---- reading by plan ------------------------------------------------------------------------

  function SkipSeparator(c: char, s: string): Result<string> {
    if c == ' ' then Ok(TrimLeft(s))
    else if c == '-' then
      var s :- Skip(TrimLeft(s), c);
      Ok(TrimLeft(s))
    else Skip(s, c)
  }

  function ReadPlan(s: string, plan: Plan, rec: Record): Result<(seq<u32>, u32)>
    requires plan.Valid()
    decreases |plan.separators|
  {
    if plan.separators == "" then
      if plan.seconds then
        var (v, f) :- ReadSecond(s, plan.limits[0], rec);
        Ok(([v], f))
      else
        var v :- ReadLast(s, plan.limits[0], rec);
        Ok(([v], 0))
    else
      var (v, s) :- ReadField(s, plan.limits[0], rec);
      var s :- SkipSeparator(plan.separators[0], s);
      var (vs, f) :- ReadPlan(s, plan.Next(), rec);
      Ok(([v] + vs, f))
  }

  lemma {:induction false} TrimmedLeft(gap: string, s: string)
    requires AllSpace(gap) && StartsTight(s)
    ensures TrimLeft(gap + s) == s
  {
    if gap == "" {
      assert gap + s == s;
    } else {
      assert (gap + s)[1..] == gap[1..] + s;
      TrimmedLeft(gap[1..], s);
    }
  }

  lemma {:induction false} LeftGap(s: string) returns (gap: string)
    ensures s == gap + TrimLeft(s) && AllSpace(gap) && StartsTight(TrimLeft(s))
  {
    if s != "" && IsSpace(s[0]) {
      var more := LeftGap(s[1..]);
      gap := [s[0]] + more;
    } else {
      gap := "";
    }
  }

  lemma {:induction false} SeparatorFound(c: char, s: string) returns (gap: string)
    requires c == ' ' || c == '-' || c == ':'
    requires SkipSeparator(c, s).Ok?
    ensures IsSeparator(c, gap) && s == gap + SkipSeparator(c, s).value
  {
    hide AllSpace, TrimLeft;
    if c == ' ' {
      gap := LeftGap(s);
    } else if c == '-' {
      var a := LeftGap(s);
      var b := LeftGap(TrimLeft(s)[1..]);
      gap := a + "-" + b;
    } else {
      gap := [c];
    }
  }

  lemma {:induction false} SeparatorSkipped(c: char, gap: string, s: string)
    requires c == ' ' || c == '-' || c == ':'
    requires IsSeparator(c, gap) && StartsTight(s)
    ensures SkipSeparator(c, gap + s) == Ok(s)
  {
    hide AllSpace, TrimLeft;
    if c == ' ' {
      TrimmedLeft(gap, s);
    } else if c == '-' {
      var a, b :| AllSpace(a) && AllSpace(b) && gap == a + "-" + b;
      assert gap + s == a + ("-" + (b + s));
      TrimmedLeft(a, "-" + (b + s));
      assert ("-" + (b + s))[1..] == b + s;
      TrimmedLeft(b, s);
    } else {
      assert (gap + s)[1..] == s;
    }
  }

  predicate AreSeparators(s: string) {
    forall i :: 0 <= i < |s| ==> s[i] == ' ' || s[i] == '-' || s[i] == ':'
  }

  /** The values and the fraction a written value stands for. */
  predicate Yields(w: Written, precision: SecondPrecision, vs: seq<nat>, f: nat) {
    vs == Values(w.fields) && f == TailFraction(w.tail, precision)
  }

  lemma {:induction false} FieldStart(t: string, rest: string)
    requires IsFieldText(t)
    ensures t + rest != "" && StartsTight(t + rest)
  {
    assert (t + rest)[0] == t[0];
    if t[0] != '+' {
      assert AfterPlus(t)[0] == t[0];
    }
  }

  lemma {:induction false} StartFulfils(w: Written, plan: Plan, rec: Record)
    requires plan.Valid() && Fulfils(w, plan, rec)
    ensures w.fields != [] && IsFieldText(w.fields[0])
  {
    hide IsFieldText, IsSeparator;
  }

  lemma {:induction false} SpellStarts(w: Written, plan: Plan, rec: Record)
    requires plan.Valid() && Fulfils(w, plan, rec)
    ensures Spell(w) != "" && StartsTight(Spell(w))
  {
    hide IsFieldText, Fulfils;
    StartFulfils(w, plan, rec);
    FieldStart(w.fields[0], if w.gaps == [] then w.tail else w.gaps[0] + Spell(Rest(w)));
  }

  lemma {:induction false} OneValue(w: Written)
    requires |w.fields| == 1
    ensures Values(w.fields) == [FieldValue(w.fields[0])]
  {
    hide FieldValue;
    assert w.fields[1..] == [];
  }

  lemma {:induction false} LastReads(w: Written, plan: Plan, rec: Record)
    requires plan.Valid() && plan.separators == "" && Fulfils(w, plan, rec)
    ensures var r := ReadPlan(Spell(w), plan, rec);
            && r.Ok? && |r.value.0| == 1 && r.value.0[0] == FieldValue(w.fields[0])
            && r.value.1 == TailFraction(w.tail, rec.precision)
  {
    hide ReadField, ReadSecond, IsField, FieldValue, Rescale, IsTail;
    if plan.seconds {
      SecondReadAs(w.fields[0], w.tail, plan.limits[0], rec);
    } else {
      FieldReadAs(w.fields[0], "", plan.limits[0], rec);
    }
  }

  /** A written value is read as what it stands for. */
  lemma {:induction false} PlanReads(w: Written, plan: Plan, rec: Record)
    requires plan.Valid() && AreSeparators(plan.separators) && Fulfils(w, plan, rec)
    ensures var r := ReadPlan(Spell(w), plan, rec);
            r.Ok? && Yields(w, rec.precision, r.value.0, r.value.1)
    decreases |plan.separators|
  {
    hide ReadField, ReadSecond, IsField, FieldValue, IsSeparator, SkipSeparator, Rescale, TailFraction;
    if plan.separators == "" {
      OneValue(w);
      LastReads(w, plan, rec);
    } else {
      var rest := Rest(w);
      var text := w.gaps[0] + Spell(rest);
      FieldReadAs(w.fields[0], text, plan.limits[0], rec);
      SpellStarts(rest, plan.Next(), rec);
      SeparatorSkipped(plan.separators[0], w.gaps[0], Spell(rest));
      PlanReads(rest, plan.Next(), rec);
    }
  }

  lemma {:induction false} LastFound(s: string, plan: Plan, rec: Record) returns (w: Written)
    requires plan.Valid() && plan.separators == "" && ReadPlan(s, plan, rec).Ok?
    ensures Fulfils(w, plan, rec) && Spell(w) == s && |w.fields| == 1
    ensures var r := ReadPlan(s, plan, rec).value;
            |r.0| == 1 && r.0[0] == FieldValue(w.fields[0]) && r.1 == TailFraction(w.tail, rec.precision)
  {
    hide ReadField, ReadSecond, IsField, FieldValue, Rescale, IsTail;
    if plan.seconds {
      var t, tail := SecondFound(s, plan.limits[0], rec);
      w := Written([t], [], tail);
    } else {
      var t, rest := FieldFound(s, plan.limits[0], rec);
      w := Written([t], [], rest);
    }
  }

  /** Whatever is read is a written value. */
  lemma {:induction false} PlanFound(s: string, plan: Plan, rec: Record) returns (w: Written)
    requires plan.Valid() && AreSeparators(plan.separators) && ReadPlan(s, plan, rec).Ok?
    ensures Fulfils(w, plan, rec) && Spell(w) == s
    ensures var r := ReadPlan(s, plan, rec).value; Yields(w, rec.precision, r.0, r.1)
    decreases |plan.separators|
  {
    hide ReadField, ReadSecond, IsField, FieldValue, IsSeparator, SkipSeparator, Rescale, TailFraction, IsTail;
    if plan.separators == "" {
      w := LastFound(s, plan, rec);
      OneValue(w);
    } else {
      var t, rest := FieldFound(s, plan.limits[0], rec);
      var gap := SeparatorFound(plan.separators[0], rest);
      var more := PlanFound(SkipSeparator(plan.separators[0], rest).value, plan.Next(), rec);
      w := Written([t] + more.fields, [gap] + more.gaps, more.tail);
      assert w.fields[1..] == more.fields && w.gaps[1..] == more.gaps;
      assert Rest(w) == more;
    }
  }

  // ---- the value of each type -----------------------------------------------------------------

  /** The range of a field that is not the leading one. */
  function LimitOf(f: Field): u32 {
    match f
    case Year | Day => 0  // always leading
    case Month => 11
    case Hour => 23
    case Minute | Second => 59
  }

  function PlanOf(kind: Kind): (p: Plan)
    ensures p.Valid() && AreSeparators(p.separators)
  {
    var fields := M.FieldList(kind);
    Plan(M.Separators(kind),
         seq(|fields|, i requires 0 <= i < |fields| => if i == 0 then 0 else LimitOf(fields[i])),
         FieldsOf(kind).second)
  }

  /** The value of a field, if the type has it. */
  function At(fields: seq<Field>, vs: seq<nat>, f: Field): nat
    requires |fields| == |vs|
  {
    if |fields| > 0 && fields[0] == f then vs[0]
    else if |fields| > 1 && fields[1] == f then vs[1]
    else if |fields| > 2 && fields[2] == f then vs[2]
    else if |fields| > 3 && fields[3] == f then vs[3]
    else 0
  }

  /** The interval with these values in its fields. */
  ghost predicate IsOf(ivl: Interval, negative: bool, vs: seq<nat>, fraction: nat) {
    var fields := M.FieldList(ivl.kind);
    && ivl.negative == negative && ivl.fraction == fraction && |vs| == |fields|
    && (var f := if IsYearMonth(ivl.kind) then Year else Day; ivl.yearOrDay == At(fields, vs, f))
    && (var f := if IsYearMonth(ivl.kind) then Month else Hour; ivl.monthOrHour == At(fields, vs, f))
    && ivl.minute == At(fields, vs, Minute) && ivl.second == At(fields, vs, Second)
  }

  /** The outcome of reading by plan, as an outcome of reading a value. */
  ghost predicate Matches(r: Result<Interval>, planned: Result<(seq<u32>, u32)>, kind: Kind, negative: bool) {
    match planned
    case Fault(state) => r == Fault(state)
    case Ok((vs, f)) => r.Ok? && r.value.kind == kind && IsOf(r.value, negative, vs, f)
  }

  lemma {:induction false} PlanEnds(s: string, limit: u32, seconds: bool, rec: Record)
    ensures ReadPlan(s, Plan("", [limit], seconds), rec)
         == if seconds then
              match ReadSecond(s, limit, rec) { case Fault(state) => Fault(state) case Ok((v, f)) => Ok(([v], f)) }
            else
              match ReadLast(s, limit, rec) { case Fault(state) => Fault(state) case Ok(v) => Ok(([v], 0)) }
  {
    hide ReadSecond, ReadLast;
  }

  lemma {:induction false} PlanGoesOn(s: string, c: char, separators: string, limit: u32, limits: seq<u32>,
                                      seconds: bool, rec: Record)
    requires |limits| == |separators| + 1
    ensures ReadPlan(s, Plan([c] + separators, [limit] + limits, seconds), rec)
         == match ReadField(s, limit, rec)
            case Fault(state) => Fault(state)
            case Ok((v, rest)) =>
              match SkipSeparator(c, rest)
              case Fault(state) => Fault(state)
              case Ok(next) =>
                match ReadPlan(next, Plan(separators, limits, seconds), rec)
                case Fault(state) => Fault(state)
                case Ok((vs, f)) => Ok(([v] + vs, f))
  {
    var plan := Plan([c] + separators, [limit] + limits, seconds);
    assert plan.separators[1..] == separators && plan.limits[1..] == limits;
    assert plan.Next() == Plan(separators, limits, seconds);
    hide ReadSecond, ReadLast, ReadField, SkipSeparator;
  }

  lemma {:induction false} ThePlans()
    ensures PlanOf(YearToMonth) == Plan(['-'] + "", [0] + [11], false)
    ensures PlanOf(DayToHour) == Plan([' '] + "", [0] + [23], false)
    ensures PlanOf(HourToMinute) == Plan([':'] + "", [0] + [59], false)
    ensures PlanOf(MinuteToSecond) == Plan([':'] + "", [0] + [59], true)
    ensures PlanOf(DayToMinute) == Plan([' '] + ":", [0] + [23, 59], false)
    ensures PlanOf(HourToSecond) == Plan([':'] + ":", [0] + [59, 59], true)
    ensures PlanOf(DayToSecond) == Plan([' '] + "::", [0] + [23, 59, 59], true)
  {
  }

  lemma {:induction false} SingleMatches(f: Field, negative: bool, s: string, rec: Record)
    ensures Matches(ReadValue(Single(f), negative, s, rec), ReadPlan(s, PlanOf(Single(f)), rec), Single(f), negative)
  {
    assert PlanOf(Single(f)) == Plan("", [0], f == Second);
    PlanEnds(s, 0, f == Second, rec);
    hide ReadSecond, ReadLast, ReadPlan, PlanOf;
  }

  lemma {:induction false} YearToMonthMatches(negative: bool, s: string, rec: Record)
    ensures Matches(ReadValue(YearToMonth, negative, s, rec), ReadPlan(s, PlanOf(YearToMonth), rec), YearToMonth,
                    negative)
  {
    hide ReadField, ReadLast, ReadPlan, PlanOf, TrimLeft;
    ThePlans();
    PlanGoesOn(s, '-', "", 0, [11], false, rec);
    var year := ReadField(s, 0, rec);
    if year.Ok? && SkipSeparator('-', year.value.1).Ok? {
      PlanEnds(SkipSeparator('-', year.value.1).value, 11, false, rec);
    }
  }

  lemma {:induction false} DayToHourMatches(negative: bool, s: string, rec: Record)
    ensures Matches(ReadValue(DayToHour, negative, s, rec), ReadPlan(s, PlanOf(DayToHour), rec), DayToHour, negative)
  {
    hide ReadField, ReadLast, ReadPlan, PlanOf, TrimLeft;
    ThePlans();
    PlanGoesOn(s, ' ', "", 0, [23], false, rec);
    var day := ReadField(s, 0, rec);
    if day.Ok? {
      PlanEnds(TrimLeft(day.value.1), 23, false, rec);
    }
  }

  lemma {:induction false} HourToMinuteMatches(negative: bool, s: string, rec: Record)
    ensures Matches(ReadValue(HourToMinute, negative, s, rec), ReadPlan(s, PlanOf(HourToMinute), rec), HourToMinute,
                    negative)
  {
    hide ReadField, ReadLast, ReadPlan, PlanOf, Skip;
    ThePlans();
    PlanGoesOn(s, ':', "", 0, [59], false, rec);
    var hour := ReadField(s, 0, rec);
    if hour.Ok? && Skip(hour.value.1, ':').Ok? {
      PlanEnds(Skip(hour.value.1, ':').value, 59, false, rec);
    }
  }

  lemma {:induction false} MinuteToSecondMatches(negative: bool, s: string, rec: Record)
    ensures Matches(ReadValue(MinuteToSecond, negative, s, rec), ReadPlan(s, PlanOf(MinuteToSecond), rec),
                    MinuteToSecond, negative)
  {
    hide ReadField, ReadSecond, ReadPlan, PlanOf, Skip;
    ThePlans();
    PlanGoesOn(s, ':', "", 0, [59], true, rec);
    var minute := ReadField(s, 0, rec);
    if minute.Ok? && Skip(minute.value.1, ':').Ok? {
      PlanEnds(Skip(minute.value.1, ':').value, 59, true, rec);
    }
  }

  /** Minutes and then seconds, after what came before. */
  lemma {:induction false} MinutePlan(s: string, limit: u32, seconds: bool, rec: Record)
    ensures ReadPlan(s, Plan(":", [limit, 59], seconds), rec)
         == match ReadField(s, limit, rec)
            case Fault(state) => Fault(state)
            case Ok((v, rest)) =>
              match Skip(rest, ':')
              case Fault(state) => Fault(state)
              case Ok(next) =>
                if seconds then
                  match ReadSecond(next, 59, rec) { case Fault(state) => Fault(state)
                                                    case Ok((w, f)) => Ok(([v, w], f)) }
                else
                  match ReadLast(next, 59, rec) { case Fault(state) => Fault(state) case Ok(w) => Ok(([v, w], 0)) }
  {
    assert ":" == [':'] + "" && [limit, 59] == [limit] + [59];
    PlanGoesOn(s, ':', "", limit, [59], seconds, rec);
    hide ReadField, ReadSecond, ReadLast, ReadPlan, Skip;
    var first := ReadField(s, limit, rec);
    if first.Ok? && Skip(first.value.1, ':').Ok? {
      var next := Skip(first.value.1, ':').value;
      PlanEnds(next, 59, seconds, rec);
      hide SkipSeparator;
      if seconds && ReadSecond(next, 59, rec).Ok? {
        var second := ReadSecond(next, 59, rec).value.0;
        assert [first.value.0] + [second] == [first.value.0, second];
      } else if !seconds && ReadLast(next, 59, rec).Ok? {
        assert [first.value.0] + [ReadLast(next, 59, rec).value] == [first.value.0, ReadLast(next, 59, rec).value];
      }
    }
  }

  lemma {:induction false} DayToMinuteMatches(negative: bool, s: string, rec: Record)
    ensures Matches(ReadValue(DayToMinute, negative, s, rec), ReadPlan(s, PlanOf(DayToMinute), rec), DayToMinute,
                    negative)
  {
    hide ReadField, ReadLast, ReadPlan, PlanOf, TrimLeft, Skip;
    ThePlans();
    PlanGoesOn(s, ' ', ":", 0, [23, 59], false, rec);
    var day := ReadField(s, 0, rec);
    if day.Ok? {
      MinutePlan(TrimLeft(day.value.1), 23, false, rec);
    }
  }

  lemma {:induction false} HourToSecondMatches(negative: bool, s: string, rec: Record)
    ensures Matches(ReadValue(HourToSecond, negative, s, rec), ReadPlan(s, PlanOf(HourToSecond), rec), HourToSecond,
                    negative)
  {
    hide ReadField, ReadSecond, ReadPlan, PlanOf, Skip;
    ThePlans();
    PlanGoesOn(s, ':', ":", 0, [59, 59], true, rec);
    var hour := ReadField(s, 0, rec);
    if hour.Ok? && Skip(hour.value.1, ':').Ok? {
      MinutePlan(Skip(hour.value.1, ':').value, 59, true, rec);
    }
  }

  lemma {:induction false} DayToSecondMatches(negative: bool, s: string, rec: Record)
    ensures Matches(ReadValue(DayToSecond, negative, s, rec), ReadPlan(s, PlanOf(DayToSecond), rec), DayToSecond,
                    negative)
  {
    hide ReadField, ReadSecond, ReadPlan, PlanOf, TrimLeft, Skip;
    ThePlans();
    PlanGoesOn(s, ' ', "::", 0, [23, 59, 59], true, rec);
    var day := ReadField(s, 0, rec);
    if day.Ok? {
      var u := TrimLeft(day.value.1);
      assert "::" == [':'] + ":" && [23, 59, 59] == [23] + [59, 59];
      PlanGoesOn(u, ':', ":", 23, [59, 59], true, rec);
      var hour := ReadField(u, 23, rec);
      if hour.Ok? && Skip(hour.value.1, ':').Ok? {
        MinutePlan(Skip(hour.value.1, ':').value, 59, true, rec);
      }
    }
  }

  lemma {:induction false} ValueMatches(kind: Kind, negative: bool, s: string, rec: Record)
    ensures Matches(ReadValue(kind, negative, s, rec), ReadPlan(s, PlanOf(kind), rec), kind, negative)
  {
    hide Matches, ReadValue, ReadPlan, PlanOf;
    match kind
    case Single(f) => SingleMatches(f, negative, s, rec);
    case YearToMonth => YearToMonthMatches(negative, s, rec);
    case DayToHour => DayToHourMatches(negative, s, rec);
    case DayToMinute => DayToMinuteMatches(negative, s, rec);
    case DayToSecond => DayToSecondMatches(negative, s, rec);
    case HourToMinute => HourToMinuteMatches(negative, s, rec);
    case HourToSecond => HourToSecondMatches(negative, s, rec);
    case MinuteToSecond => MinuteToSecondMatches(negative, s, rec);
  }

  /** A text that is a value of the interval's type, and stands for that interval. */
  ghost predicate IsValue(w: Written, s: string, negative: bool, ivl: Interval, rec: Record) {
    && Fulfils(w, PlanOf(ivl.kind), rec) && Spell(w) == s
    && IsOf(ivl, negative, Values(w.fields), TailFraction(w.tail, rec.precision))
  }

  ghost predicate ValueAt(s: string, negative: bool, ivl: Interval, rec: Record) {
    exists w: Written :: IsValue(w, s, negative, ivl, rec)
  }

  lemma {:induction false} IsOfIsUnique(a: Interval, b: Interval, negative: bool, vs: seq<nat>, f: nat)
    requires a.kind == b.kind && IsOf(a, negative, vs, f) && IsOf(b, negative, vs, f)
    ensures a == b
  {
    hide At, IsYearMonth;
  }

  /** The value parser reads exactly the values there are, as the intervals they stand for. */
  lemma {:induction false} ValueIff(kind: Kind, negative: bool, s: string, rec: Record, ivl: Interval)
    ensures ReadValue(kind, negative, s, rec) == Ok(ivl)
       <==> ivl.kind == kind && ValueAt(s, negative, ivl, rec)
  {
    hide ReadValue, ReadPlan, PlanOf, Fulfils, Spell, IsOf, Values, TailFraction;
    ValueMatches(kind, negative, s, rec);
    if ReadValue(kind, negative, s, rec) == Ok(ivl) {
      var w := PlanFound(s, PlanOf(kind), rec);
      assert IsValue(w, s, negative, ivl, rec);
    }
    forall w: Written | ivl.kind == kind && IsValue(w, s, negative, ivl, rec)
      ensures ReadValue(kind, negative, s, rec) == Ok(ivl)
    {
      PlanReads(w, PlanOf(kind), rec);
      IsOfIsUnique(ReadValue(kind, negative, s, rec).value, ivl, negative, Values(w.fields),
                   TailFraction(w.tail, rec.precision));
    }
  }

  // ---- what is read is a proper interval ------------------------------------------------------

  function Leading(ivl: Interval): u32 {
    match ivl.kind
    case Single(Year) | Single(Day) | YearToMonth | DayToHour | DayToMinute | DayToSecond => ivl.yearOrDay
    case Single(Month) | Single(Hour) | HourToMinute | HourToSecond => ivl.monthOrHour
    case Single(Minute) | MinuteToSecond => ivl.minute
    case Single(Second) => ivl.second
  }

  /** Whether a leading field fits the record's digits. */
  predicate Fits(n: nat, rec: Record) {
    |Print(n)| <= rec.leadingDigits
  }

  lemma {:induction false} FieldBound(t: string)
    requires IsFieldText(t)
    ensures FieldValue(t) < Pow10(|t|) && |Print(FieldValue(t))| <= |t|
  {
    ValueBound(AfterPlus(t));
    Pow10Monotone(|AfterPlus(t)|, |t|);
    hide Pow10, Print, Value;
    PrintLength(FieldValue(t), |t|);
  }

  lemma {:induction false} TailFits(tail: string, rec: Record)
    requires IsTail(tail, rec)
    ensures TailFraction(tail, rec.precision) < Pow10(rec.precision)
  {
    if |tail| > 1 {
      FieldBound(tail[1..]);
      RescaledFits(FieldValue(tail[1..]), |tail| - 1, rec.precision);
    }
  }

  lemma {:induction false} FirstWithin(w: Written, plan: Plan, rec: Record)
    requires plan.Valid() && Fulfils(w, plan, rec)
    ensures w.fields != [] && IsFieldText(w.fields[0])
    ensures if plan.limits[0] == 0 then |w.fields[0]| <= rec.leadingDigits
            else FieldValue(w.fields[0]) <= plan.limits[0]
    ensures |Print(FieldValue(w.fields[0]))| <= |w.fields[0]|
  {
    hide FieldValue, Print, IsTail, IsFieldText, IsSeparator;
    FieldBound(w.fields[0]);
  }

  lemma {:induction false} LastTail(w: Written, plan: Plan, rec: Record)
    requires plan.Valid() && Fulfils(w, plan, rec) && plan.separators == ""
    ensures TailFraction(w.tail, rec.precision) < Pow10(rec.precision)
    ensures !plan.seconds ==> TailFraction(w.tail, rec.precision) == 0
  {
    hide IsField, IsTail, Pow10;
    if plan.seconds {
      TailFits(w.tail, rec);
    }
  }

  /** The fields of a written value are within their limits, and the leading one within its digits. */
  lemma {:induction false} WithinLimits(w: Written, plan: Plan, rec: Record)
    requires plan.Valid() && Fulfils(w, plan, rec)
    ensures |Values(w.fields)| == |plan.limits|
    ensures forall i :: 0 <= i < |plan.limits| && plan.limits[i] != 0 ==> Values(w.fields)[i] <= plan.limits[i]
    ensures plan.limits[0] == 0 ==> |Print(Values(w.fields)[0])| <= rec.leadingDigits
    ensures TailFraction(w.tail, rec.precision) < Pow10(rec.precision)
    ensures !plan.seconds ==> TailFraction(w.tail, rec.precision) == 0
    decreases |plan.separators|
  {
    hide FieldValue, Print, TailFraction, IsTail, IsFieldText, Pow10;
    FirstWithin(w, plan, rec);
    if plan.separators == "" {
      OneValue(w);
      LastTail(w, plan, rec);
    } else {
      WithinLimits(Rest(w), plan.Next(), rec);
      assert Values(w.fields) == [FieldValue(w.fields[0])] + Values(w.fields[1..]);
      forall i | 0 < i < |plan.limits| && plan.limits[i] != 0
        ensures Values(w.fields)[i] <= plan.limits[i]
      {
        assert Values(w.fields)[i] == Values(w.fields[1..])[i - 1] && plan.limits[i] == plan.Next().limits[i - 1];
      }
    }
  }

  function WeightedSum(vs: seq<nat>, fields: seq<Field>, scale: Scale): nat
    requires |vs| == |fields|
  {
    if vs == [] then 0 else Times(vs[0], Weight(scale, fields[0])) + WeightedSum(vs[1..], fields[1..], scale)
  }

  /** The limits of a type, applied to values in its fields, are those of a proper interval. */
  lemma {:induction false} LimitsAreProper(ivl: Interval, negative: bool, vs: seq<nat>, f: nat,
                                           precision: SecondPrecision)
    requires IsOf(ivl, negative, vs, f) && f < Pow10(precision) && (!FieldsOf(ivl.kind).second ==> f == 0)
    requires var limits := PlanOf(ivl.kind).limits;
             |vs| == |limits| && forall i :: 0 <= i < |vs| && limits[i] != 0 ==> vs[i] <= limits[i]
    ensures IsProper(ivl, precision) && Leading(ivl) == vs[0]
  {
    hide Pow10;
  }

  /** What is read is a proper interval whose leading field fits the record's digits. */
  lemma {:induction false} ValueIsProper(kind: Kind, negative: bool, s: string, rec: Record)
    requires ReadValue(kind, negative, s, rec).Ok?
    ensures var ivl := ReadValue(kind, negative, s, rec).value;
            ivl.kind == kind && ivl.negative == negative && IsProper(ivl, rec.precision) && Fits(Leading(ivl), rec)
  {
    var ivl := ReadValue(kind, negative, s, rec).value;
    hide ReadValue, Fulfils, Spell, Values, TailFraction, Pow10, Print, Leading, IsProper, At;
    ValueIff(kind, negative, s, rec, ivl);
    var w: Written :| IsValue(w, s, negative, ivl, rec);
    WithinLimits(w, PlanOf(kind), rec);
    LimitsAreProper(ivl, negative, Values(w.fields), TailFraction(w.tail, rec.precision), rec.precision);
  }

  // ---- the amount a written value denotes -----------------------------------------------------

  function Term(vs: seq<nat>, fields: seq<Field>, scale: Scale, i: nat): nat
    requires |vs| == |fields|
  {
    if i < |vs| then Times(vs[i], Weight(scale, fields[i])) else 0
  }

  lemma {:induction false} SumOfTerms(vs: seq<nat>, fields: seq<Field>, scale: Scale)
    requires |vs| == |fields| <= 4
    ensures WeightedSum(vs, fields, scale)
         == Term(vs, fields, scale, 0) + Term(vs, fields, scale, 1) + Term(vs, fields, scale, 2)
            + Term(vs, fields, scale, 3)
  {
    hide Times, Weight;
    if vs != [] {
      SumOfTerms(vs[1..], fields[1..], scale);
    }
  }

  lemma {:induction false} TermsOfMonths(ivl: Interval, negative: bool, vs: seq<nat>, f: nat)
    requires IsOf(ivl, negative, vs, f) && IsYearMonth(ivl.kind)
    ensures Magnitude(ivl) == WeightedSum(vs, M.FieldList(ivl.kind), InMonths)
  {
    SumOfTerms(vs, M.FieldList(ivl.kind), InMonths);
    TimesConstants(vs[0]);
    if |vs| > 1 {
      TimesConstants(vs[1]);
    }
    hide Times, WeightedSum;
  }

  lemma {:induction false} ZeroTimes(n: nat)
    ensures Times(0, n) == 0
  {
  }

  lemma {:induction false} AtTerm(vs: seq<nat>, kind: Kind, f: Field)
    requires |vs| == |M.FieldList(kind)| && !IsYearMonth(kind)
    ensures Times(At(M.FieldList(kind), vs, f), Weight(InSeconds, f))
         == (if M.FieldList(kind)[0] == f then Term(vs, M.FieldList(kind), InSeconds, 0) else 0)
            + (if |vs| > 1 && M.FieldList(kind)[1] == f then Term(vs, M.FieldList(kind), InSeconds, 1) else 0)
            + (if |vs| > 2 && M.FieldList(kind)[2] == f then Term(vs, M.FieldList(kind), InSeconds, 2) else 0)
            + (if |vs| > 3 && M.FieldList(kind)[3] == f then Term(vs, M.FieldList(kind), InSeconds, 3) else 0)
  {
    hide Weight;
    ZeroTimes(Weight(InSeconds, f));
    hide Times;
  }

  lemma {:induction false} MagnitudeByWeight(ivl: Interval)
    requires !IsYearMonth(ivl.kind)
    ensures Magnitude(ivl)
         == Times(ivl.yearOrDay, Weight(InSeconds, Day)) + Times(ivl.monthOrHour, Weight(InSeconds, Hour))
            + Times(ivl.minute, Weight(InSeconds, Minute)) + Times(ivl.second, Weight(InSeconds, Second))
  {
    TimesConstants(ivl.yearOrDay);
    TimesConstants(ivl.monthOrHour);
    TimesConstants(ivl.minute);
    TimesConstants(ivl.second);
    hide Times;
  }

  lemma {:induction false} NoMoreTerms(vs: seq<nat>, fields: seq<Field>, scale: Scale)
    requires |vs| == |fields|
    ensures |vs| <= 1 ==> Term(vs, fields, scale, 1) == 0
    ensures |vs| <= 2 ==> Term(vs, fields, scale, 2) == 0
    ensures |vs| <= 3 ==> Term(vs, fields, scale, 3) == 0
  {
  }

  lemma {:induction false} TermsOfSeconds(ivl: Interval, negative: bool, vs: seq<nat>, f: nat)
    requires IsOf(ivl, negative, vs, f) && !IsYearMonth(ivl.kind)
    ensures Magnitude(ivl) == WeightedSum(vs, M.FieldList(ivl.kind), InSeconds)
  {
    hide Times, WeightedSum, At, Term, Weight;
    SumOfTerms(vs, M.FieldList(ivl.kind), InSeconds);
    NoMoreTerms(vs, M.FieldList(ivl.kind), InSeconds);
    MagnitudeByWeight(ivl);
    AtTerm(vs, ivl.kind, Day);
    AtTerm(vs, ivl.kind, Hour);
    AtTerm(vs, ivl.kind, Minute);
    AtTerm(vs, ivl.kind, Second);
  }

  /** A value denotes the sum of its fields, each by its weight. */
  lemma {:induction false} ValueIsSum(w: Written, s: string, negative: bool, ivl: Interval, rec: Record)
    requires IsValue(w, s, negative, ivl, rec)
    ensures |Values(w.fields)| == |M.FieldList(ivl.kind)|
    ensures Magnitude(ivl) == WeightedSum(Values(w.fields), M.FieldList(ivl.kind), ScaleOf(ivl.kind))
  {
    hide Fulfils, Spell, Values, Magnitude, WeightedSum, At;
    var f := TailFraction(w.tail, rec.precision);
    if IsYearMonth(ivl.kind) {
      TermsOfMonths(ivl, negative, Values(w.fields), f);
    } else {
      TermsOfSeconds(ivl, negative, Values(w.fields), f);
    }
  }

  // ---- the qualifier --------------------------------------------------------------------------

  /** The text `t`, space that may be missing, and a word in any case; something is before the word. */
  predicate IsTaken(s: string, word: string, t: string, gap: string, spelled: string) {
    s == t + gap + spelled && IsWordIn(spelled, word) && AllSpace(gap) && EndsTight(t) && t + gap != ""
  }

  ghost predicate Takes(s: string, word: string, t: string) {
    exists gap: string, spelled: string :: IsTaken(s, word, t, gap, spelled)
  }

  lemma {:induction false} TrimmedRight(t: string, gap: string)
    requires AllSpace(gap) && EndsTight(t)
    ensures TrimRight(t + gap) == t
  {
    if gap == "" {
      assert t + gap == t;
    } else {
      var s := t + gap;
      assert s[..|s| - 1] == t + gap[..|gap| - 1];
      TrimmedRight(t, gap[..|gap| - 1]);
    }
  }

  lemma {:induction false} RightGap(s: string) returns (gap: string)
    ensures s == TrimRight(s) + gap && AllSpace(gap) && EndsTight(TrimRight(s))
  {
    if s != "" && IsSpace(s[|s| - 1]) {
      var less := RightGap(s[..|s| - 1]);
      gap := less + [s[|s| - 1]];
    } else {
      gap := "";
    }
  }

  /** A word is taken off exactly where there is one. */
  lemma {:induction false} WithoutIff(s: string, word: string, t: string)
    ensures Without(s, word) == Ok(t) <==> Takes(s, word, t)
  {
    hide AllSpace, EndsTight, TrimRight, LowerAll, IsWordIn;
    if Without(s, word) == Ok(t) {
      var front, spelled := s[..|s| - |word|], s[|s| - |word|..];
      InAnyCase(spelled, word);
      var gap := RightGap(front);
      assert IsTaken(s, word, t, gap, spelled);
    }
    forall gap: string, spelled: string | IsTaken(s, word, t, gap, spelled)
      ensures Without(s, word) == Ok(t)
    {
      InAnyCase(spelled, word);
      assert |LowerAll(spelled)| == |spelled|;
      assert |spelled| == |word| && s[|s| - |word|..] == spelled && s[..|s| - |word|] == t + gap;
      TrimmedRight(t, gap);
    }
  }

  /** The text ends in the words, each taken off in turn. */
  ghost predicate EndsInWords(s: string, words: seq<string>, rest: string)
    decreases |words|
  {
    if words == [] then s == rest
    else
      var word, others := words[|words| - 1], words[..|words| - 1];
      exists t: string :: Takes(s, word, t) && EndsInWords(t, others, rest)
  }

  function Peel(s: string, words: seq<string>): Result<string>
    decreases |words|
  {
    if words == [] then Ok(s)
    else
      var s :- Without(s, words[|words| - 1]);
      Peel(s, words[..|words| - 1])
  }

  lemma {:induction false} PeelIff(s: string, words: seq<string>, rest: string)
    ensures Peel(s, words) == Ok(rest) <==> EndsInWords(s, words, rest)
    decreases |words|
  {
    hide Without, Takes;
    if words != [] {
      var word, others := words[|words| - 1], words[..|words| - 1];
      var r := Without(s, word);
      if r.Ok? {
        WithoutIff(s, word, r.value);
        PeelIff(r.value, others, rest);
      }
      forall t: string | Takes(s, word, t) && EndsInWords(t, others, rest)
        ensures Peel(s, words) == Ok(rest)
      {
        WithoutIff(s, word, t);
        PeelIff(t, others, rest);
      }
    }
  }

  function NameOf(f: Field): string {
    match f
    case Year => "year"
    case Month => "month"
    case Day => "day"
    case Hour => "hour"
    case Minute => "minute"
    case Second => "second"
  }

  /** The words of a type's qualifier: its first field and, of several, `to` and the last. */
  function QualifierWords(kind: Kind): seq<string> {
    var fields := M.FieldList(kind);
    if |fields| == 1 then [NameOf(fields[0])] else [NameOf(fields[0]), "to", NameOf(fields[|fields| - 1])]
  }

  /** A quote, a point or a digit is the last of a value. */
  predicate IsAfterValue(s: string) {
    s != "" && var c := s[|s| - 1]; c == '\'' || c == '.' || '0' <= c <= '9'
  }

  /** The types whose one word could also end a longer qualifier: a value must be before it. */
  predicate NeedsValue(kind: Kind) {
    kind.Single? && kind.field != Year && kind.field != Day
  }

  /** The qualifiers: those of SQL, and besides them MONTH qualifiers followed by TO MINUTE. */
  ghost predicate Qualifies(s: string, kind: Kind, rest: string) {
    || (EndsInWords(s, QualifierWords(kind), rest) && (NeedsValue(kind) ==> IsAfterValue(rest)))
    || (kind == Single(Month) && EndsInWords(s, ["month", "to", "minute"], rest) && IsAfterValue(rest))
    || (kind == YearToMonth && EndsInWords(s, ["year", "to", "month", "to", "minute"], rest))
  }

  lemma {:induction false} WithoutEnds(s: string, word: string)
    requires Without(s, word).Ok? && |word| >= 2
    ensures |s| > |word| && LastLetter(s) == word[|word| - 1] && Lower(s[|s| - 2]) == word[|word| - 2]
  {
    var spelled := s[|s| - |word|..];
    assert LowerAll(spelled)[|word| - 1] == Lower(spelled[|word| - 1]);
    assert LowerAll(spelled)[|word| - 2] == Lower(spelled[|word| - 2]);
  }

  /** After TO there is no value. */
  lemma {:induction false} ToIsNoValue(s: string)
    requires Without(s, "to").Ok?
    ensures !EndsValue(s)
  {
    WithoutEnds(s, "to");
  }

  lemma {:induction false} PeelOne(s: string, a: string)
    ensures Peel(s, [a]) == Without(s, a)
  {
    hide Without;
    assert [a][..0] == [];
  }

  lemma {:induction false} PeelThree(s: string, a: string, b: string, c: string)
    ensures Peel(s, [a, b, c])
         == match Without(s, c)
            case Fault(state) => Fault(state)
            case Ok(t) =>
              match Without(t, b)
              case Fault(state) => Fault(state)
              case Ok(u) => Without(u, a)
  {
    hide Without;
    assert [a, b, c][..2] == [a, b] && [a, b][..1] == [a];
    if Without(s, c).Ok? {
      var t := Without(s, c).value;
      assert Peel(s, [a, b, c]) == Peel(t, [a, b]);
      if Without(t, b).Ok? {
        PeelOne(Without(t, b).value, a);
      }
    }
  }

  lemma {:induction false} PeelFive(s: string, a: string, b: string, c: string, d: string, e: string)
    ensures Peel(s, [a, b, c, d, e])
         == match Without(s, e)
            case Fault(state) => Fault(state)
            case Ok(t) =>
              match Without(t, d)
              case Fault(state) => Fault(state)
              case Ok(u) => Peel(u, [a, b, c])
  {
    hide Without;
    assert [a, b, c, d, e][..4] == [a, b, c, d] && [a, b, c, d][..3] == [a, b, c];
    if Without(s, e).Ok? {
      var t := Without(s, e).value;
      assert Peel(s, [a, b, c, d, e]) == Peel(t, [a, b, c, d]);
    }
  }

  /** The qualifiers of one kind, by what is left when their words are taken off. */
  predicate Peels(s: string, kind: Kind, rest: string) {
    || (Peel(s, QualifierWords(kind)) == Ok(rest) && (NeedsValue(kind) ==> EndsValue(rest)))
    || (kind == Single(Month) && Peel(s, ["month", "to", "minute"]) == Ok(rest) && EndsValue(rest))
    || (kind == YearToMonth && Peel(s, ["year", "to", "month", "to", "minute"]) == Ok(rest))
  }

  lemma {:induction false} EndsAfterValue(s: string)
    ensures EndsValue(s) <==> IsAfterValue(s)
  {
  }

  lemma {:induction false} PeelsIff(s: string, kind: Kind, rest: string)
    ensures Peels(s, kind, rest) <==> Qualifies(s, kind, rest)
  {
    hide Peel, EndsInWords, EndsValue, IsAfterValue, QualifierWords, NeedsValue;
    EndsAfterValue(rest);
    PeelIff(s, QualifierWords(kind), rest);
    PeelIff(s, ["month", "to", "minute"], rest);
    PeelIff(s, ["year", "to", "month", "to", "minute"], rest);
  }

  /** What the last word tells of the text. */
  lemma {:induction false} WordsEnd(s: string)
    ensures forall f :: Without(s, NameOf(f)).Ok? ==>
              |s| > 3 && LastLetter(s) == NameOf(f)[|NameOf(f)| - 1] && Lower(s[|s| - 2]) == NameOf(f)[|NameOf(f)| - 2]
    ensures Without(s, "to").Ok? ==> !EndsValue(s) && LastLetter(s) == 'o'
  {
    hide Without, EndsValue, LastLetter, Lower;
    forall f | Without(s, NameOf(f)).Ok?
      ensures |s| > 3 && LastLetter(s) == NameOf(f)[|NameOf(f)| - 1] && Lower(s[|s| - 2]) == NameOf(f)[|NameOf(f)| - 2]
    {
      WithoutEnds(s, NameOf(f));
    }
    if Without(s, "to").Ok? {
      ToIsNoValue(s);
      WithoutEnds(s, "to");
    }
  }

  lemma {:induction false} YearOrDayReads(s: string, kind: Kind, rest: string)
    requires kind == Single(Year) || kind == Single(Day)
    ensures ReadQualifier(s) == Ok((kind, rest)) <==> Peels(s, kind, rest)
  {
    hide Without, EndsValue, LastLetter, Lower, Peel;
    var word := NameOf(kind.field);
    PeelOne(s, word);
    if Without(s, word).Ok? {
      WithoutEnds(s, word);
    }
  }

  lemma {:induction false} HourReads(s: string, kind: Kind, rest: string)
    requires kind == Single(Hour) || kind == DayToHour
    ensures ReadQualifier(s) == Ok((kind, rest)) <==> Peels(s, kind, rest)
  {
    hide Without, EndsValue, LastLetter, Lower, Peel;
    PeelOne(s, "hour");
    PeelThree(s, "day", "to", "hour");
    if Without(s, "hour").Ok? {
      WithoutEnds(s, "hour");
      var t := Without(s, "hour").value;
      if Without(t, "to").Ok? {
        ToIsNoValue(t);
      }
    }
  }

  /** The month qualifiers, without what may follow them. */
  lemma {:induction false} MonthReads(s: string, kind: Kind, rest: string)
    requires kind == Single(Month) || kind == YearToMonth
    ensures MonthQualifier(s) == Ok((kind, rest))
       <==> Peel(s, QualifierWords(kind)) == Ok(rest) && (NeedsValue(kind) ==> EndsValue(rest))
  {
    hide Without, EndsValue, Peel;
    PeelOne(s, "month");
    PeelThree(s, "year", "to", "month");
    if Without(s, "month").Ok? && Without(Without(s, "month").value, "to").Ok? {
      ToIsNoValue(Without(s, "month").value);
    }
  }

  lemma {:induction false} MonthQualifierKinds(s: string)
    ensures var r := MonthQualifier(s);
            r.Ok? ==> (r.value.0 == Single(Month) || r.value.0 == YearToMonth) && Without(s, "month").Ok?
  {
    hide Without, EndsValue;
  }

  /** The qualifiers that end in MINUTE. */
  lemma {:induction false} EndsInMinute(s: string)
    requires Without(s, "minute").Ok?
    ensures var t := Without(s, "minute").value;
            ReadQualifier(s)
            == if EndsValue(t) then Ok((Single(Minute), t))
               else
                 match Without(t, "to")
                 case Fault(state) => Fault(state)
                 case Ok(u) =>
                   if LastLetter(u) == 'y' then
                     match Without(u, "day") { case Fault(state) => Fault(state) case Ok(v) => Ok((DayToMinute, v)) }
                   else if LastLetter(u) == 'r' then
                     match Without(u, "hour") { case Fault(state) => Fault(state) case Ok(v) => Ok((HourToMinute, v)) }
                   else MonthQualifier(u)
  {
    WithoutEnds(s, "minute");
    hide Without, EndsValue, LastLetter, Lower, MonthQualifier;
  }

  lemma {:induction false} EndsInMonth(s: string)
    requires Without(s, "month").Ok?
    ensures ReadQualifier(s) == MonthQualifier(s)
  {
    WithoutEnds(s, "month");
    hide Without, EndsValue, LastLetter, Lower, MonthQualifier;
  }

  /** The last word of a qualifier that was read. */
  lemma {:induction false} LastWord(s: string)
    requires ReadQualifier(s).Ok?
    ensures var kind := ReadQualifier(s).value.0;
            match kind
            case YearToMonth => Without(s, "month").Ok? || Without(s, "minute").Ok?
            case Single(Month) => Without(s, "month").Ok? || Without(s, "minute").Ok?
            case Single(f) => Without(s, NameOf(f)).Ok?
            case DayToHour => Without(s, "hour").Ok?
            case DayToMinute | HourToMinute => Without(s, "minute").Ok?
            case _ => Without(s, "second").Ok?
  {
    hide Without, EndsValue, LastLetter, Lower, MonthQualifier;
    if LastLetter(s) == 'h' {
      MonthQualifierKinds(s);
    } else if LastLetter(s) == 'e' && Without(s, "minute").Ok? {
      var t := Without(s, "minute").value;
      if Without(t, "to").Ok? {
        MonthQualifierKinds(Without(t, "to").value);
      }
    }
  }

  lemma {:induction false} MinuteReads(s: string, kind: Kind, rest: string)
    requires kind == Single(Minute) || kind == DayToMinute || kind == HourToMinute
    ensures ReadQualifier(s) == Ok((kind, rest)) <==> Peels(s, kind, rest)
  {
    hide Without, EndsValue, LastLetter, Lower, Peel, MonthQualifier, ReadQualifier;
    PeelOne(s, "minute");
    PeelThree(s, "day", "to", "minute");
    PeelThree(s, "hour", "to", "minute");
    if ReadQualifier(s).Ok? {
      LastWord(s);
    }
    if Without(s, "minute").Ok? {
      EndsInMinute(s);
      var t := Without(s, "minute").value;
      if Without(t, "to").Ok? {
        ToIsNoValue(t);
        var u := Without(t, "to").value;
        MonthQualifierKinds(u);
        WordsEnd(u);
        assert NameOf(Day) == "day" && NameOf(Hour) == "hour";
      }
    }
  }

  lemma {:induction false} MonthAfterTo(u: string, kind: Kind, rest: string)
    requires kind == Single(Month) || kind == YearToMonth
    ensures MonthQualifier(u) == Ok((kind, rest))
       <==> if kind == Single(Month) then Without(u, "month") == Ok(rest) && EndsValue(rest)
            else Peel(u, ["year", "to", "month"]) == Ok(rest)
    ensures MonthQualifier(u).Ok? ==> LastLetter(u) == 'h'
    ensures Peel(u, ["year", "to", "month"]).Ok? || Without(u, "month").Ok? ==> LastLetter(u) == 'h'
  {
    hide Without, EndsValue, LastLetter, Lower, Peel, MonthQualifier;
    MonthReads(u, kind, rest);
    MonthQualifierKinds(u);
    PeelOne(u, "month");
    PeelThree(u, "year", "to", "month");
    WordsEnd(u);
    assert NameOf(Month) == "month";
  }

  lemma {:induction false} MonthKindReads(s: string, kind: Kind, rest: string)
    requires kind == Single(Month) || kind == YearToMonth
    ensures ReadQualifier(s) == Ok((kind, rest)) <==> Peels(s, kind, rest)
  {
    hide Without, EndsValue, LastLetter, Lower, Peel, MonthQualifier, ReadQualifier, NeedsValue;
    MonthReads(s, kind, rest);
    PeelThree(s, "month", "to", "minute");
    PeelFive(s, "year", "to", "month", "to", "minute");
    PeelOne(s, "month");
    PeelThree(s, "year", "to", "month");
    if ReadQualifier(s).Ok? {
      LastWord(s);
    }
    WordsEnd(s);
    assert NameOf(Month) == "month" && NameOf(Minute) == "minute";
    if Without(s, "month").Ok? {
      EndsInMonth(s);
    } else if Without(s, "minute").Ok? {
      EndsInMinute(s);
      var t := Without(s, "minute").value;
      if Without(t, "to").Ok? {
        ToIsNoValue(t);
        MonthAfterTo(Without(t, "to").value, kind, rest);
      }
    }
  }

  lemma {:induction false} EndsInSecond(s: string)
    requires Without(s, "second").Ok?
    ensures var t := Without(s, "second").value;
            ReadQualifier(s)
            == if EndsValue(t) then Ok((Single(Second), t))
               else
                 match Without(t, "to")
                 case Fault(state) => Fault(state)
                 case Ok(u) =>
                   if LastLetter(u) == 'y' then
                     match Without(u, "day") { case Fault(state) => Fault(state) case Ok(v) => Ok((DayToSecond, v)) }
                   else if LastLetter(u) == 'r' then
                     match Without(u, "hour") { case Fault(state) => Fault(state) case Ok(v) => Ok((HourToSecond, v)) }
                   else if LastLetter(u) == 'e' then
                     match Without(u, "minute") { case Fault(state) => Fault(state)
                                                  case Ok(v) => Ok((MinuteToSecond, v)) }
                   else Fault(S22018)
  {
    WithoutEnds(s, "second");
    hide Without, EndsValue, LastLetter, Lower, MonthQualifier;
  }

  lemma {:induction false} SecondKindReads(s: string, kind: Kind, rest: string)
    requires kind == Single(Second) || kind == DayToSecond || kind == HourToSecond || kind == MinuteToSecond
    ensures ReadQualifier(s) == Ok((kind, rest)) <==> Peels(s, kind, rest)
  {
    hide Without, EndsValue, LastLetter, Lower, Peel, MonthQualifier, ReadQualifier;
    PeelOne(s, "second");
    PeelThree(s, "day", "to", "second");
    PeelThree(s, "hour", "to", "second");
    PeelThree(s, "minute", "to", "second");
    if ReadQualifier(s).Ok? {
      LastWord(s);
    }
    if Without(s, "second").Ok? {
      EndsInSecond(s);
      var t := Without(s, "second").value;
      if Without(t, "to").Ok? {
        ToIsNoValue(t);
        WordsEnd(Without(t, "to").value);
        assert NameOf(Day) == "day" && NameOf(Hour) == "hour" && NameOf(Minute) == "minute";
      }
    }
  }

  /** The qualifier parser reads exactly the qualifiers there are: a type, and the text before it. */
  lemma {:induction false} QualifierIff(s: string, kind: Kind, rest: string)
    ensures ReadQualifier(s) == Ok((kind, rest)) <==> Qualifies(s, kind, rest)
  {
    hide ReadQualifier, Qualifies, Peels;
    PeelsIff(s, kind, rest);
    match kind
    case Single(f) =>
      match f {
        case Year => YearOrDayReads(s, kind, rest);
        case Day => YearOrDayReads(s, kind, rest);
        case Month => MonthKindReads(s, kind, rest);
        case Hour => HourReads(s, kind, rest);
        case Minute => MinuteReads(s, kind, rest);
        case Second => SecondKindReads(s, kind, rest);
      }
    case YearToMonth => MonthKindReads(s, kind, rest);
    case DayToHour => HourReads(s, kind, rest);
    case DayToMinute => MinuteReads(s, kind, rest);
    case HourToMinute => MinuteReads(s, kind, rest);
    case DayToSecond => SecondKindReads(s, kind, rest);
    case HourToSecond => SecondKindReads(s, kind, rest);
    case MinuteToSecond => SecondKindReads(s, kind, rest);
  }

  // ---- the literal ----------------------------------------------------------------------------

  /** Braces around a text, with space within them; or the text itself. */
  ghost predicate IsBraced(s: string, text: string) {
    if s != "" && s[0] == '{' && s[|s| - 1] == '}' then
      exists a, b :: AllSpace(a) && AllSpace(b) && s == "{" + a + text + b + "}" && StartsTight(text) && EndsTight(text)
    else s == text
  }

  /** The keyword in any case, space that may be missing, and the rest. */
  ghost predicate IsKeyworded(text: string, rest: string) {
    exists spelled: string, gap: string ::
      text == spelled + gap + rest && IsWordIn(spelled, "interval") && AllSpace(gap) && StartsTight(rest)
  }

  /** A sign and space after it, either of which may be missing, and a value, in single quotes or not. A `+`
      that could be the sign is. */
  predicate IsSigned(body: string, sign: string, gap: string, quote: string, value: string) {
    && body == sign + gap + (quote + value + quote) && AllSpace(gap)
    && (sign == "" || sign == "+" || sign == "-") && (quote == "" || quote == "'")
    && (sign == "" ==> gap == "" && (quote == "" && value != "" ==> value[0] != '+'))
  }

  ghost predicate IsSignedValue(body: string, negative: bool, value: string) {
    exists sign: string, gap: string, quote: string ::
      IsSigned(body, sign, gap, quote, value) && negative == (sign == "-")
  }

  /** The text within the braces, the rest after the keyword, what is before the qualifier, and the value. */
  ghost predicate IsMadeOf(s: string, text: string, rest: string, body: string, value: string, ivl: Interval,
                           rec: Record) {
    && IsBraced(s, text) && IsKeyworded(text, rest) && Qualifies(rest, ivl.kind, body)
    && IsSignedValue(body, ivl.negative, value) && ValueAt(value, ivl.negative, ivl, rec)
  }

  /** An interval literal, of at least 12 characters. */
  ghost predicate IsLiteral(s: string, ivl: Interval, rec: Record) {
    && |s| >= 12
    && exists text: string, rest: string, body: string, value: string :: IsMadeOf(s, text, rest, body, value, ivl, rec)
  }

  lemma {:induction false} StaysTight(s: string)
    requires StartsTight(s)
    ensures StartsTight(TrimRight(s))
  {
    hide IsWhite;
    var gap := RightGap(s);
    hide TrimRight;
    assert TrimRight(s) != "" ==> TrimRight(s)[0] == s[0];
  }

  lemma {:induction false} TrimmedBoth(a: string, text: string, b: string)
    requires AllSpace(a) && AllSpace(b) && StartsTight(text) && EndsTight(text)
    ensures TrimRight(TrimLeft(a + text + b)) == text
  {
    hide TrimLeft, TrimRight, IsWhite;
    if text == "" {
      var s := a + text + b;
      assert s + "" == s && "" + "" == "";
      TrimmedLeft(s, "");
      TrimmedRight("", "");
    } else {
      assert a + text + b == a + (text + b);
      TrimmedLeft(a, text + b);
      TrimmedRight(text, b);
    }
  }

  lemma {:induction false} UnbracedIff(s: string, text: string)
    ensures Unbraced(s) == text <==> IsBraced(s, text)
  {
    hide AllSpace, StartsTight, EndsTight, TrimLeft, TrimRight;
    if s != "" && s[0] == '{' && s[|s| - 1] == '}' {
      var inner := s[1..|s| - 1];
      var a := LeftGap(inner);
      var b := RightGap(TrimLeft(inner));
      StaysTight(TrimLeft(inner));
      assert s == "{" + a + TrimRight(TrimLeft(inner)) + b + "}";
      forall c, d | AllSpace(c) && AllSpace(d) && s == "{" + c + text + d + "}" && StartsTight(text) && EndsTight(text)
        ensures Unbraced(s) == text
      {
        assert inner == c + text + d;
        TrimmedBoth(c, text, d);
      }
    }
  }

  predicate HasKeyword(s: string) {
    |s| > |INTERVAL| && LowerAll(s[..|INTERVAL|]) == INTERVAL
  }

  lemma {:induction false} KeywordIff(text: string, rest: string)
    requires rest != ""
    ensures IsKeyworded(text, rest) <==> HasKeyword(text) && TrimLeft(text[|INTERVAL|..]) == rest
  {
    hide AllSpace, StartsTight, TrimLeft, LowerAll, IsWordIn;
    if HasKeyword(text) {
      var spelled, after := text[..|INTERVAL|], text[|INTERVAL|..];
      InAnyCase(spelled, INTERVAL);
      var gap := LeftGap(after);
      assert text == spelled + gap + TrimLeft(after);
    }
    forall spelled: string, gap: string | text == spelled + gap + rest && IsWordIn(spelled, "interval") && AllSpace(gap)
                                          && StartsTight(rest)
      ensures HasKeyword(text) && TrimLeft(text[|INTERVAL|..]) == rest
    {
      InAnyCase(spelled, INTERVAL);
      assert |LowerAll(spelled)| == |spelled|;
      assert text[..|INTERVAL|] == spelled && text[|INTERVAL|..] == gap + rest;
      TrimmedLeft(gap, rest);
    }
  }

  predicate NegativeIn(body: string) {
    body != "" && body[0] == '-'
  }

  /** The value, without its sign and its quotes. */
  function ValueIn(body: string): string {
    Unquoted(if IsSignChar(body) then TrimLeft(body[1..]) else body)
  }

  lemma {:induction false} SpellsFirst(w: Written)
    requires w.fields != [] && IsFieldText(w.fields[0])
    ensures Spell(w) != "" && (Spell(w)[0] == '+' || IsDigit(Spell(w)[0]))
  {
    var t := w.fields[0];
    assert Spell(w)[0] == t[0];
    if t[0] != '+' {
      assert AfterPlus(t)[0] == t[0];
    }
  }

  /** A value starts with a digit, or a `+`. */
  lemma {:induction false} ValueStarts(s: string, negative: bool, ivl: Interval, rec: Record)
    requires ValueAt(s, negative, ivl, rec)
    ensures s != "" && (s[0] == '+' || IsDigit(s[0]))
  {
    hide Fulfils, Spell, IsOf, Values, TailFraction, PlanOf, IsFieldText;
    var w: Written :| IsValue(w, s, negative, ivl, rec);
    StartFulfils(w, PlanOf(ivl.kind), rec);
    SpellsFirst(w);
  }

  /** Quotes around a value, or none, and nothing else. */
  lemma {:induction false} UnquotedIs(quote: string, value: string)
    requires value != "" && value[0] != '\'' && (quote == "" || quote == "'")
    ensures Unquoted(quote + value + quote) == value
  {
    var s := quote + value + quote;
    if quote == "" {
      assert s == value;
    } else {
      assert s[1..|s| - 1] == value;
    }
  }

  lemma {:induction false} QuotedAs(s: string) returns (quote: string)
    requires Unquoted(s) != ""
    ensures (quote == "" || quote == "'") && s == quote + Unquoted(s) + quote
  {
    quote := if s[0] == '\'' && s[|s| - 1] == '\'' then "'" else "";
  }

  /** What the parser takes for the sign, and for the value. */
  lemma {:induction false} SignTaken(body: string, sign: string, gap: string, quote: string, value: string)
    requires IsSigned(body, sign, gap, quote, value) && value != "" && (value[0] == '+' || IsDigit(value[0]))
    ensures NegativeIn(body) == (sign == "-") && ValueIn(body) == value
  {
    hide AllSpace, TrimLeft, Unquoted;
    var quoted := quote + value + quote;
    UnquotedIs(quote, value);
    assert quoted[0] == if quote == "" then value[0] else '\'';
    if sign == "" {
      assert body == quoted;
    } else {
      assert body == sign + (gap + quoted);
      assert body[0] == sign[0] && body[1..] == gap + quoted;
      assert StartsTight(quoted);
      TrimmedLeft(gap, quoted);
    }
  }

  lemma {:induction false} NoSpace()
    ensures AllSpace("")
  {
  }

  lemma {:induction false} SignFound(body: string)
    requires ValueIn(body) != "" && (ValueIn(body)[0] == '+' || IsDigit(ValueIn(body)[0]))
    ensures IsSignedValue(body, NegativeIn(body), ValueIn(body))
  {
    hide AllSpace, StartsTight, TrimLeft, Unquoted;
    var value := ValueIn(body);
    if IsSignChar(body) {
      var sign, after := body[..1], body[1..];
      var gap := LeftGap(after);
      var quote := QuotedAs(TrimLeft(after));
      assert body == sign + after;
      assert sign + (gap + TrimLeft(after)) == sign + gap + TrimLeft(after);
      assert IsSigned(body, sign, gap, quote, value);
    } else {
      var quote := QuotedAs(body);
      NoSpace();
      assert "" + "" + body == body;
      assert quote == "" ==> quote + value + quote == value;
      assert IsSigned(body, "", "", quote, value);
    }
  }

  lemma {:induction false} SignIff(body: string, value: string, ivl: Interval, rec: Record)
    requires ValueAt(value, ivl.negative, ivl, rec)
    ensures IsSignedValue(body, ivl.negative, value) <==> ivl.negative == NegativeIn(body) && value == ValueIn(body)
  {
    hide ValueAt, IsSigned, NegativeIn, ValueIn;
    ValueStarts(value, ivl.negative, ivl, rec);
    if ivl.negative == NegativeIn(body) && value == ValueIn(body) {
      SignFound(body);
    }
    forall sign: string, gap: string, quote: string | IsSigned(body, sign, gap, quote, value)
      ensures NegativeIn(body) == (sign == "-") && ValueIn(body) == value
    {
      SignTaken(body, sign, gap, quote, value);
    }
  }

  lemma {:induction false} LiteralIsBody(s: string, rec: Record)
    requires |s| >= |INTERVAL| + 4 && HasKeyword(Unbraced(s))
    ensures ReadLiteral(s, rec)
         == match ReadQualifier(TrimLeft(Unbraced(s)[|INTERVAL|..]))
            case Fault(state) => Fault(state)
            case Ok((kind, body)) => ReadValue(kind, NegativeIn(body), ValueIn(body), rec)
  {
    hide ReadQualifier, ReadValue, TrimLeft, Unquoted, Unbraced, LowerAll;
  }

  lemma {:induction false} NoLiteral(s: string, rec: Record)
    requires |s| < |INTERVAL| + 4 || !HasKeyword(Unbraced(s))
    ensures ReadLiteral(s, rec) == Fault(S22018)
  {
    hide ReadQualifier, ReadSignedValue, TrimLeft, Unbraced, LowerAll;
  }

  lemma {:induction false} KeywordRoom(s: string)
    requires HasKeyword(s)
    ensures |s| > |INTERVAL|
  {
  }

  lemma {:induction false} QualifierIsThere(s: string)
    requires ReadQualifier(s).Ok?
    ensures s != ""
  {
  }

  /** Whatever is read is a literal. */
  lemma {:induction false} LiteralFound(s: string, rec: Record, ivl: Interval)
    requires ReadLiteral(s, rec) == Ok(ivl)
    ensures IsLiteral(s, ivl, rec)
  {
    hide ReadLiteral, ReadQualifier, ReadValue, TrimLeft, Unbraced, NegativeIn, ValueIn, ValueAt, Qualifies, HasKeyword,
         IsBraced, IsKeyworded, IsSignedValue;
    if |s| >= |INTERVAL| + 4 && HasKeyword(Unbraced(s)) {
      KeywordRoom(Unbraced(s));
      LiteralIsBody(s, rec);
      var text := Unbraced(s);
      var rest := TrimLeft(text[|INTERVAL|..]);
      var (kind, body) := ReadQualifier(rest).value;
      var value := ValueIn(body);
      ValueIff(kind, NegativeIn(body), value, rec, ivl);
      ValueIsProper(kind, NegativeIn(body), value, rec);
      QualifierIff(rest, kind, body);
      QualifierIsThere(rest);
      UnbracedIff(s, text);
      KeywordIff(text, rest);
      SignIff(body, value, ivl, rec);
      assert IsMadeOf(s, text, rest, body, value, ivl, rec);
    } else {
      NoLiteral(s, rec);
    }
  }

  /** Every literal is read. */
  lemma {:induction false} LiteralReadAs(s: string, text: string, rest: string, body: string, value: string,
                                         ivl: Interval, rec: Record)
    requires |s| >= 12 && IsMadeOf(s, text, rest, body, value, ivl, rec)
    ensures ReadLiteral(s, rec) == Ok(ivl)
  {
    hide ReadLiteral, ReadQualifier, ReadValue, TrimLeft, Unbraced, NegativeIn, ValueIn, ValueAt, Qualifies, HasKeyword,
         IsBraced, IsKeyworded, IsSignedValue;
    UnbracedIff(s, text);
    QualifierIff(rest, ivl.kind, body);
    QualifierIsThere(rest);
    KeywordIff(text, rest);
    KeywordRoom(text);
    SignIff(body, value, ivl, rec);
    LiteralIsBody(s, rec);
    ValueIff(ivl.kind, ivl.negative, value, rec, ivl);
  }

  /** The literal parser reads exactly the literals there are, as the intervals they stand for. */
  lemma {:induction false} LiteralIff(s: string, rec: Record, ivl: Interval)
    ensures ReadLiteral(s, rec) == Ok(ivl) <==> IsLiteral(s, ivl, rec)
  {
    hide ReadLiteral, IsMadeOf;
    if ReadLiteral(s, rec) == Ok(ivl) {
      LiteralFound(s, rec, ivl);
    }
    if IsLiteral(s, ivl, rec) {
      var text: string, rest: string, body: string, value: string :| IsMadeOf(s, text, rest, body, value, ivl, rec);
      LiteralReadAs(s, text, rest, body, value, ivl, rec);
    }
  }

  /** Whatever is read is a proper interval whose leading field has no more digits than the record asks. */
  lemma {:induction false} LiteralIsProper(s: string, rec: Record)
    requires ReadLiteral(s, rec).Ok?
    ensures var ivl := ReadLiteral(s, rec).value;
            IsProper(ivl, rec.precision) && Fits(Leading(ivl), rec)
  {
    hide ReadLiteral, ReadQualifier, ReadValue, TrimLeft, Unbraced, LowerAll, NegativeIn, ValueIn, HasKeyword, IsProper,
         Fits, Leading;
    if |s| >= |INTERVAL| + 4 && HasKeyword(Unbraced(s)) {
      KeywordRoom(Unbraced(s));
      LiteralIsBody(s, rec);
      var (kind, body) := ReadQualifier(TrimLeft(Unbraced(s)[|INTERVAL|..])).value;
      ValueIsProper(kind, NegativeIn(body), ValueIn(body), rec);
    } else {
      NoLiteral(s, rec);
    }
  }

  // ---- of whatever is read, all at once -------------------------------------------------------

  lemma {:induction false} FieldsAre(s: string, limit: u32, rec: Record)
    ensures match ReadField(s, limit, rec)
            case Ok((v, rest)) => FieldAt(s, limit, rec, v, rest)
            case Fault(_) => forall v: u32, rest: string :: !FieldAt(s, limit, rec, v, rest)
  {
    hide ReadField, FieldAt;
    forall v: u32, rest: string
      ensures ReadField(s, limit, rec) == Ok((v, rest)) <==> FieldAt(s, limit, rec, v, rest)
    {
      FieldIff(s, limit, rec, v, rest);
    }
  }

  lemma {:induction false} SecondsAre(s: string, limit: u32, rec: Record)
    ensures forall second: u32, fraction: u32 ::
              ReadSecond(s, limit, rec) == Ok((second, fraction)) <==> SecondAt(s, limit, rec, second, fraction)
  {
    hide ReadSecond, SecondAt;
    forall second: u32, fraction: u32
      ensures ReadSecond(s, limit, rec) == Ok((second, fraction)) <==> SecondAt(s, limit, rec, second, fraction)
    {
      SecondIff(s, limit, rec, second, fraction);
    }
  }

  lemma {:induction false} ValuesAre(kind: Kind, negative: bool, s: string, rec: Record)
    ensures forall ivl: Interval ::
              ReadValue(kind, negative, s, rec) == Ok(ivl) <==> ivl.kind == kind && ValueAt(s, negative, ivl, rec)
  {
    hide ReadValue, ValueAt;
    forall ivl: Interval
      ensures ReadValue(kind, negative, s, rec) == Ok(ivl) <==> ivl.kind == kind && ValueAt(s, negative, ivl, rec)
    {
      ValueIff(kind, negative, s, rec, ivl);
    }
  }

  lemma {:induction false} WordsAre(s: string, word: string)
    ensures match Without(s, word)
            case Ok(t) => Takes(s, word, t)
            case Fault(_) => forall t: string :: !Takes(s, word, t)
  {
    hide Without, Takes;
    forall t: string
      ensures Without(s, word) == Ok(t) <==> Takes(s, word, t)
    {
      WithoutIff(s, word, t);
    }
  }

  lemma {:induction false} QualifiersAre(s: string)
    ensures match ReadQualifier(s)
            case Ok((kind, rest)) => Qualifies(s, kind, rest)
            case Fault(_) => forall kind: Kind, rest: string :: !Qualifies(s, kind, rest)
  {
    hide ReadQualifier, Qualifies;
    forall kind: Kind, rest: string
      ensures ReadQualifier(s) == Ok((kind, rest)) <==> Qualifies(s, kind, rest)
    {
      QualifierIff(s, kind, rest);
    }
  }

  lemma {:induction false} LiteralsAre(s: string, rec: Record)
    ensures forall ivl: Interval :: ReadLiteral(s, rec) == Ok(ivl) <==> IsLiteral(s, ivl, rec)
  {
    hide ReadLiteral, IsLiteral;
    forall ivl: Interval
      ensures ReadLiteral(s, rec) == Ok(ivl) <==> IsLiteral(s, ivl, rec)
    {
      LiteralIff(s, rec, ivl);
    }
  }
}
