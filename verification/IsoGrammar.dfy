/** The texts the ISO 8601 parser accepts, as sequences of items, and how each of them is scanned. */
module IsoGrammar {
  import opened Decimals
  import opened Integers
  import opened Intervals
  import opened IsoNumbers
  import opened IsoParser
  import opened Wrappers

  /** A number and the designator that closes it. */
  datatype Item = Item(number: string, unit: char)

  /** `P`, the date items, and possibly `T` and the time items; `p` and `t` are the letters used. */
  datatype Duration = Duration(p: char, date: seq<Item>, hasTime: bool, t: char, time: seq<Item>)

  function RenderItems(items: seq<Item>): string {
    if items == [] then "" else items[0].number + [items[0].unit] + RenderItems(items[1..])
  }

  function Render(d: Duration): string {
    [d.p] + RenderItems(d.date) + (if d.hasTime then [d.t] + RenderItems(d.time) else "")
  }

  /** The number of an item, as its designator delimits it. */
  function TokenOf(item: Item, precision: SecondPrecision): Token {
    if item.number == "" || !StartsNumber(item.number[0]) || StartsNumber(item.unit) then NoNumber
    else
      var t := ReadToken(item.number + [item.unit], precision);
      if t.Number? && t.length == |item.number| then t else NoNumber
  }

  function ReadItem(st: State, item: Item, precision: SecondPrecision): Option<State> {
    var t := TokenOf(item, precision);
    if t.NoNumber? then None
    else match TakeNumber(st, t)
         case None => None
         case Some(next) => TakeLetter(next, item.unit)
  }

  function ReadItems(items: seq<Item>, st: State, precision: SecondPrecision): Option<State> {
    if items == [] then Some(st)
    else match ReadItem(st, items[0], precision)
         case None => None
         case Some(next) => ReadItems(items[1..], next, precision)
  }

  /** What the scanner makes of a duration, item by item: the fields it sets, or nothing. */
  function Meaning(d: Duration, precision: SecondPrecision): Option<State> {
    if Fold(d.p) != 'p' then None
    else match ReadItems(d.date, START.(mode := Period), precision)
         case None => None
         case Some(st) =>
           if !d.hasTime then Some(st)
           else if Fold(d.t) != 't' then None
           else ReadItems(d.time, st.(mode := Time), precision)
  }

  // ---- a number token does not depend on what follows its designator -------------------------

  lemma {:induction false} RunEndIsLocal(a: string, rest: string, from: nat)
    requires from < |a| && !IsDigit(a[|a| - 1])
    ensures RunEnd(a + rest, from) == RunEnd(a, from) < |a|
  {
    var end := RunEnd(a, from);
    var s := a + rest;
    assert forall k | from <= k < end :: IsDigit(a[k]) by {
      assert forall k | from <= k < end :: a[k] == a[from..end][k - from];
    }
    assert s[from..end] == a[from..end];
    RunEndIs(s, from, end);
  }

  lemma {:induction false} UnsignedIsLocal(a: string, rest: string)
    requires a != "" && IsDelimiter(a[|a| - 1])
    ensures ReadUnsigned(a + rest, false) == ReadUnsigned(a, false)
    ensures ReadUnsigned(a, false).Read? ==> ReadUnsigned(a, false).count < |a|
  {
    var from := if a[0] == '+' then 1 else 0;
    RunEndIsLocal(a, rest, from);
    assert (a + rest)[0] == a[0];
    assert (a + rest)[from..RunEnd(a, from)] == a[from..RunEnd(a, from)];
  }

  lemma {:induction false} SignedIsLocal(a: string, rest: string)
    requires a != "" && IsDelimiter(a[|a| - 1])
    ensures ReadSigned(a + rest, false) == ReadSigned(a, false)
    ensures ReadSigned(a, false).Read? ==> ReadSigned(a, false).count < |a|
  {
    hide ReadUnsigned;
    var i := if a[0] == '-' || a[0] == '+' then 1 else 0;
    assert (a + rest)[i..] == a[i..] + rest;
    UnsignedIsLocal(a[i..], rest);
  }

  lemma {:induction false} TokenIsLocal(a: string, rest: string, precision: SecondPrecision)
    requires a != "" && IsDelimiter(a[|a| - 1])
    ensures ReadToken(a + rest, precision) == ReadToken(a, precision)
  {
    hide ReadUnsigned, ReadSigned, Rescale;
    SignedIsLocal(a, rest);
    match ReadSigned(a, false)
    case Rejected(_) =>
    case Read(digits, _) =>
      if a[digits] == '.' {
        assert (a + rest)[digits + 1..] == a[digits + 1..] + rest;
        UnsignedIsLocal(a[digits + 1..], rest);
      }
  }

  /** Designators are delimiters. */
  lemma {:induction false} DesignatorDelimits(st: State, c: char)
    requires TakeLetter(st, c).Some?
    ensures IsDelimiter(c)
  {
  }

  // ---- from the grammar to the scan ----------------------------------------------------------

  predicate BetweenItems(st: State) {
    st.mode == Period || st.mode == Time
  }

  lemma {:induction false} NumberTurn(s: string, st: State, precision: SecondPrecision)
    requires s != "" && StartsNumber(s[0]) && BetweenItems(st)
    ensures var t := ReadToken(s, precision);
            Run(s, st, precision)
            == if t.NoNumber? || TakeNumber(st, t).None? then None
               else Run(s[t.length..], TakeNumber(st, t).value, precision)
  {
    hide ReadToken, TakeNumber, TakeLetter, StartsNumber;
  }

  lemma {:induction false} LetterTurn(s: string, st: State, precision: SecondPrecision)
    requires s != "" && !StartsNumber(s[0])
    ensures Run(s, st, precision)
         == if TakeLetter(st, s[0]).None? then None else Run(s[1..], TakeLetter(st, s[0]).value, precision)
  {
    hide ReadToken, TakeNumber, TakeLetter, StartsNumber;
  }

  lemma {:induction false} ItemKeepsHalf(item: Item, st: State, precision: SecondPrecision)
    requires BetweenItems(st) && ReadItem(st, item, precision).Some?
    ensures ReadItem(st, item, precision).value.mode == st.mode
  {
    hide TokenOf;
  }

  /** Scanning a well-formed item reads just that item. */
  lemma {:induction false} ScanItem(item: Item, rest: string, st: State, precision: SecondPrecision)
    requires BetweenItems(st) && ReadItem(st, item, precision).Some?
    ensures ReadItem(st, item, precision).value.mode == st.mode
    ensures Run(item.number + [item.unit] + rest, st, precision)
         == Run(rest, ReadItem(st, item, precision).value, precision)
  {
    ItemKeepsHalf(item, st, precision);
    var t := TokenOf(item, precision);
    var next := TakeNumber(st, t).value;
    var head := item.number + [item.unit];
    DesignatorDelimits(next, item.unit);
    hide Run, ReadToken, TakeLetter, TakeNumber, StartsNumber;
    TokenIsLocal(head, rest, precision);
    var s := head + rest;
    assert s[0] == item.number[0];
    NumberTurn(s, st, precision);
    assert s[t.length..] == [item.unit] + rest;
    LetterTurn([item.unit] + rest, next, precision);
    assert ([item.unit] + rest)[1..] == rest;
  }

  lemma {:induction false} ScanItems(items: seq<Item>, rest: string, st: State, precision: SecondPrecision)
    requires BetweenItems(st) && ReadItems(items, st, precision).Some?
    ensures ReadItems(items, st, precision).value.mode == st.mode
    ensures Run(RenderItems(items) + rest, st, precision)
         == Run(rest, ReadItems(items, st, precision).value, precision)
  {
    hide ReadItem, Run;
    if items == [] {
      assert RenderItems(items) + rest == rest;
    } else {
      var item, tail := items[0], RenderItems(items[1..]) + rest;
      assert RenderItems(items) + rest == item.number + [item.unit] + tail;
      ScanItem(item, tail, st, precision);
      ScanItems(items[1..], rest, ReadItem(st, item, precision).value, precision);
    }
  }

  lemma {:induction false} ScanMark(c: char, rest: string, st: State, precision: SecondPrecision)
    requires (Fold(c) == 'p' && st.mode == Uninited) || (Fold(c) == 't' && st.mode == Period)
    ensures Run([c] + rest, st, precision)
         == Run(rest, st.(mode := if Fold(c) == 'p' then Period else Time), precision)
  {
    assert ([c] + rest)[1..] == rest;
  }

  lemma {:induction false} ScanNothing(st: State, precision: SecondPrecision)
    ensures Run("", st, precision) == Some(st)
  {
  }

  /** Every well-formed duration is accepted, and read as what it means. */
  lemma {:induction false} ScanDuration(d: Duration, precision: SecondPrecision)
    requires Meaning(d, precision).Some?
    ensures Run(Render(d), START, precision) == Meaning(d, precision)
    ensures BetweenItems(Meaning(d, precision).value)
  {
    hide Run, ReadItems;
    var tail := if d.hasTime then [d.t] + RenderItems(d.time) else "";
    assert Render(d) == [d.p] + (RenderItems(d.date) + tail);
    ScanMark(d.p, RenderItems(d.date) + tail, START, precision);
    var begun := START.(mode := Period);
    ScanItems(d.date, tail, begun, precision);
    var st := ReadItems(d.date, begun, precision).value;
    if d.hasTime {
      ScanMark(d.t, RenderItems(d.time), st, precision);
      ScanItems(d.time, "", st.(mode := Time), precision);
      assert RenderItems(d.time) + "" == RenderItems(d.time);
      ScanNothing(Meaning(d, precision).value, precision);
    } else {
      ScanNothing(st, precision);
    }
  }

  // ---- from the scan to the grammar ----------------------------------------------------------

  lemma {:induction false} TakenMode(st: State, t: Token)
    requires t.Number? && TakeNumber(st, t).Some?
    ensures TakeNumber(st, t).value.mode == AfterNumber
  {
  }

  /** After a number only its designator can come. */
  lemma {:induction false} ClosedNumber(s: string, next: State, n: nat, precision: SecondPrecision)
    requires n <= |s| && s != "" && StartsNumber(s[0]) && next.mode == AfterNumber
    requires var r := Run(s[n..], next, precision); r.Some? && BetweenItems(r.value)
    ensures 0 < n < |s| && !StartsNumber(s[n]) && TakeLetter(next, s[n]).Some?
  {
    hide TakeLetter, ReadToken, StartsNumber;
    assert s[n..] != "";
    assert s[n..][0] == s[n];
  }

  /** A number in an accepted text is closed by a designator, and the two are an item. */
  lemma {:induction false} FirstItem(s: string, st: State, precision: SecondPrecision) returns (item: Item)
    requires BetweenItems(st) && s != "" && StartsNumber(s[0])
    requires var r := Run(s, st, precision); r.Some? && BetweenItems(r.value)
    ensures |item.number| + 1 <= |s| && s == item.number + [item.unit] + s[|item.number| + 1..]
    ensures ReadItem(st, item, precision).Some?
  {
    hide Run, ReadToken, TakeLetter, TakeNumber, StartsNumber, IsDelimiter;
    NumberTurn(s, st, precision);
    var t := ReadToken(s, precision);
    var n := t.length;
    var next := TakeNumber(st, t).value;
    TakenMode(st, t);
    ClosedNumber(s, next, n, precision);
    item := Item(s[..n], s[n]);
    var head := item.number + [item.unit];
    assert s == head + s[n + 1..];
    DesignatorDelimits(next, item.unit);
    TokenIsLocal(head, s[n + 1..], precision);
    assert item.number[0] == s[0];
  }

  /** The items up to the end of the text or the time mark. */
  lemma {:induction false} LeadingItems(s: string, st: State, precision: SecondPrecision)
    returns (items: seq<Item>, rest: string)
    requires BetweenItems(st)
    requires var r := Run(s, st, precision); r.Some? && BetweenItems(r.value)
    ensures s == RenderItems(items) + rest
    ensures var r := ReadItems(items, st, precision);
            r.Some? && r.value.mode == st.mode && Run(rest, r.value, precision) == Run(s, st, precision)
    ensures rest == "" || !StartsNumber(rest[0])
    decreases |s|
  {
    hide StartsNumber, Run, ReadItem;
    if s == "" || !StartsNumber(s[0]) {
      items, rest := [], s;
      assert s == RenderItems(items) + rest;
    } else {
      var item := FirstItem(s, st, precision);
      var next := ReadItem(st, item, precision).value;
      ScanItem(item, s[|item.number| + 1..], st, precision);
      var more;
      more, rest := LeadingItems(s[|item.number| + 1..], next, precision);
      items := [item] + more;
      assert items[1..] == more;
      assert s == RenderItems(items) + rest;
    }
  }

  /** Between items only the time mark can come, and only once. */
  lemma {:induction false} OnlyTimeMark(s: string, st: State, precision: SecondPrecision)
    requires BetweenItems(st) && s != "" && !StartsNumber(s[0])
    requires Run(s, st, precision).Some?
    ensures st.mode == Period && Fold(s[0]) == 't'
    ensures Run(s, st, precision) == Run(s[1..], st.(mode := Time), precision)
  {
  }

  /** A half of the text, from between two items to its very end. */
  lemma {:induction false} LastItems(s: string, st: State, precision: SecondPrecision) returns (items: seq<Item>)
    requires st.mode == Time
    requires var r := Run(s, st, precision); r.Some? && BetweenItems(r.value)
    ensures s == RenderItems(items) && ReadItems(items, st, precision) == Run(s, st, precision)
  {
    hide Run, ReadItems, StartsNumber, RenderItems;
    var rest;
    items, rest := LeadingItems(s, st, precision);
    var last := ReadItems(items, st, precision).value;
    if rest != "" {
      OnlyTimeMark(rest, last, precision);
    }
    ScanNothing(last, precision);
    assert RenderItems(items) + "" == RenderItems(items);
  }

  lemma {:induction false} WithoutTime(p: char, date: seq<Item>, precision: SecondPrecision) returns (d: Duration)
    requires Fold(p) == 'p' && ReadItems(date, START.(mode := Period), precision).Some?
    ensures Render(d) == [p] + (RenderItems(date) + "")
    ensures Meaning(d, precision) == Run("", ReadItems(date, START.(mode := Period), precision).value, precision)
  {
    hide ReadItems, Fold, RenderItems;
    d := Duration(p, date, false, 't', []);
  }

  lemma {:induction false} WithTime(p: char, date: seq<Item>, rest: string, precision: SecondPrecision)
    returns (d: Duration)
    requires Fold(p) == 'p' && rest != "" && !StartsNumber(rest[0])
    requires var st := ReadItems(date, START.(mode := Period), precision);
             && st.Some? && st.value.mode == Period
             && var r := Run(rest, st.value, precision);
                r.Some? && BetweenItems(r.value)
    ensures Render(d) == [p] + (RenderItems(date) + rest)
    ensures Meaning(d, precision) == Run(rest, ReadItems(date, START.(mode := Period), precision).value, precision)
  {
    hide ReadItems, Fold, RenderItems, Run, StartsNumber;
    var st := ReadItems(date, START.(mode := Period), precision).value;
    OnlyTimeMark(rest, st, precision);
    var time := LastItems(rest[1..], st.(mode := Time), precision);
    d := Duration(p, date, true, rest[0], time);
    assert rest == [rest[0]] + RenderItems(time);
  }

  lemma {:induction false} Opening(text: string, precision: SecondPrecision)
    requires var r := Run(text, START, precision); r.Some? && BetweenItems(r.value)
    ensures text != "" && Fold(text[0]) == 'p'
    ensures Run(text, START, precision) == Run(text[1..], START.(mode := Period), precision)
    ensures BetweenItems(START.(mode := Period))
  {
  }

  /** Every accepted text is a well-formed duration, read as what it means. */
  lemma {:induction false} Parse(text: string, precision: SecondPrecision) returns (d: Duration)
    requires var r := Run(text, START, precision); r.Some? && BetweenItems(r.value)
    ensures Render(d) == text && Meaning(d, precision) == Run(text, START, precision)
  {
    hide *;
    Opening(text, precision);
    var date, rest := LeadingItems(text[1..], START.(mode := Period), precision);
    assert text == [text[0]] + (RenderItems(date) + rest);
    if rest == "" {
      d := WithoutTime(text[0], date, precision);
    } else {
      d := WithTime(text[0], date, rest, precision);
    }
  }
}
