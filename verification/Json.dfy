/** JSON texts (RFC 8259), but for numbers with a sign, a fraction or an exponent. */
module Json {
  import opened Decimals
  import opened JsonText

  datatype JsonValue =
    | Null
    | Bool(truth: bool)
    | Number(digits: string)
    | Str(codes: seq<int>)
    | Arr(items: seq<JsonValue>)
    | Obj(members: seq<Member>)

  datatype Member = Member(name: seq<int>, value: JsonValue)

  datatype Read<T> = Bad | Good(value: T, rest: string)

  // ---- reading ------------------------------------------------------------------------------------

  function SkipSpace(t: string): (u: string)
    ensures |u| <= |t|
  {
    if t != "" && (t[0] == ' ' || t[0] == '\t' || t[0] == '\n' || t[0] == '\r') then SkipSpace(t[1..]) else t
  }

  function DigitsEnd(t: string): (n: nat)
    ensures n <= |t|
  {
    if t != "" && IsDigit(t[0]) then 1 + DigitsEnd(t[1..]) else 0
  }

  /** The items of an array from one on, up to its closing bracket. */
  function ReadItems(t: string): (r: Read<seq<JsonValue>>)
    ensures r.Good? ==> |r.rest| < |t|
    decreases |t|, 1
  {
    match ReadValue(t)
    case Bad => Bad
    case Good(value, u) =>
      var u := SkipSpace(u);
      if u == "" then Bad
      else if u[0] == ']' then Good([value], u[1..])
      else if u[0] != ',' then Bad
      else
        match ReadItems(u[1..])
        case Bad => Bad
        case Good(items, rest) => Good([value] + items, rest)
  }

  /** A value, and what follows it. */
  function ReadValue(t: string): (r: Read<JsonValue>)
    ensures r.Good? ==> |r.rest| < |t|
    decreases |t|, 0
  {
    var t := SkipSpace(t);
    if t == "" then Bad
    else if t[0] == '{' then
      var u := SkipSpace(t[1..]);
      if u != "" && u[0] == '}' then Good(Obj([]), u[1..])
      else
        match ReadMembers(t[1..])
        case Bad => Bad
        case Good(members, rest) => Good(Obj(members), rest)
    else if t[0] == '[' then
      var u := SkipSpace(t[1..]);
      if u != "" && u[0] == ']' then Good(Arr([]), u[1..])
      else
        match ReadItems(t[1..])
        case Bad => Bad
        case Good(items, rest) => Good(Arr(items), rest)
    else if t[0] == '"' then
      match ReadString(t[1..])
      case NoString => Bad
      case String(codes, rest) => Good(Str(codes), rest)
    else if "true" <= t then Good(Bool(true), t[4..])
    else if "false" <= t then Good(Bool(false), t[5..])
    else if "null" <= t then Good(Null, t[4..])
    else
      var n := DigitsEnd(t);
      if n == 0 || (n > 1 && t[0] == '0') then Bad else Good(Number(t[..n]), t[n..])
  }

  /** The members of an object from one on, up to its closing brace. */
  function ReadMembers(t: string): (r: Read<seq<Member>>)
    ensures r.Good? ==> |r.rest| < |t|
    decreases |t|, 1
  {
    var t := SkipSpace(t);
    if t == "" || t[0] != '"' then Bad
    else
      match ReadString(t[1..])
      case NoString => Bad
      case String(name, u) =>
        var u := SkipSpace(u);
        if u == "" || u[0] != ':' then Bad
        else
          match ReadValue(u[1..])
          case Bad => Bad
          case Good(value, u) =>
            var u := SkipSpace(u);
            if u == "" then Bad
            else if u[0] == '}' then Good([Member(name, value)], u[1..])
            else if u[0] != ',' then Bad
            else
              match ReadMembers(u[1..])
              case Bad => Bad
              case Good(members, rest) => Good([Member(name, value)] + members, rest)
  }

  // ---- texts that are read as a value, whatever follows --------------------------------------------

  /** What can follow a value in an object or an array. */
  predicate Follows(rest: string) {
    rest != "" && (rest[0] == ',' || rest[0] == '}' || rest[0] == ']')
  }

  ghost predicate Reads(text: string, value: JsonValue) {
    forall rest: string :: Follows(rest) ==> ReadValue(text + rest) == Good(value, rest)
  }

  lemma {:induction false} LiteralsRead()
    ensures Reads("true", Bool(true)) && Reads("false", Bool(false)) && Reads("null", Null)
  {
    forall rest: string
      ensures ReadValue("true" + rest) == Good(Bool(true), rest)
      ensures ReadValue("false" + rest) == Good(Bool(false), rest)
      ensures ReadValue("null" + rest) == Good(Null, rest)
    {
      assert ("true" + rest)[4..] == rest && ("false" + rest)[5..] == rest && ("null" + rest)[4..] == rest;
    }
  }

  lemma {:induction false} DigitsRead(digits: string, rest: string)
    requires AllDigits(digits) && Follows(rest)
    ensures DigitsEnd(digits + rest) == |digits|
  {
    if digits == "" {
      assert digits + rest == rest;
    } else {
      assert (digits + rest)[1..] == digits[1..] + rest;
      DigitsRead(digits[1..], rest);
    }
  }

  /** A numeral without leading zeros. */
  predicate IsJsonNumber(s: string) {
    IsNumeral(s) && (|s| > 1 ==> s[0] != '0')
  }

  lemma {:induction false} NumberReads(s: string)
    requires IsJsonNumber(s)
    ensures Reads(s, Number(s))
  {
    forall rest: string | Follows(rest)
      ensures ReadValue(s + rest) == Good(Number(s), rest)
    {
      DigitsRead(s, rest);
      var t := s + rest;
      assert t[0] == s[0] && IsDigit(t[0]);
      assert SkipSpace(t) == t;
      assert t[..|s|] == s && t[|s|..] == rest;
    }
  }

  lemma {:induction false} StringChain(t: string, codes: seq<int>, rest: string)
    requires ReadString(t) == String(codes, rest)
    ensures ReadValue("\"" + t) == Good(Str(codes), rest)
  {
    assert ("\"" + t)[1..] == t;
    hide ReadString, ReadMembers, ReadItems, DigitsEnd;
  }

  lemma {:induction false} StringReads(s: string)
    ensures Reads("\"" + Escape(s) + "\"", Str(Codes(s)))
  {
    hide ReadValue, ReadString, Escape, Codes;
    forall rest: string
      ensures ReadValue("\"" + Escape(s) + "\"" + rest) == Good(Str(Codes(s)), rest)
    {
      EscapedReadsBack(s, rest);
      StringChain(Escape(s) + "\"" + rest, Codes(s), rest);
      assert "\"" + Escape(s) + "\"" + rest == "\"" + (Escape(s) + "\"" + rest);
    }
  }

  // ---- objects and arrays ---------------------------------------------------------------------------

  /** A member as it is written: a name that needs no escape, and the text of a value. */
  datatype Field = Field(name: string, text: string, value: JsonValue)

  function FieldText(f: Field): string {
    "\"" + f.name + "\": " + f.text
  }

  function MemberOf(f: Field): Member {
    Member(Codes(f.name), f.value)
  }

  /** The members after the first, each with its separator. */
  function TailText(fields: seq<Field>): string {
    if fields == [] then "" else ", " + FieldText(fields[0]) + TailText(fields[1..])
  }

  function MembersOf(fields: seq<Field>): seq<Member> {
    if fields == [] then [] else [MemberOf(fields[0])] + MembersOf(fields[1..])
  }

  lemma {:induction false} TailsJoin(a: seq<Field>, b: seq<Field>)
    ensures TailText(a + b) == TailText(a) + TailText(b)
  {
    hide FieldText;
    if a == [] {
      assert a + b == b && "" + TailText(b) == TailText(b);
    } else {
      assert (a + b)[1..] == a[1..] + b && (a + b)[0] == a[0];
      TailsJoin(a[1..], b);
      var head := ", " + FieldText(a[0]);
      assert head + (TailText(a[1..]) + TailText(b)) == head + TailText(a[1..]) + TailText(b);
    }
  }

  ghost predicate IsReadable(f: Field) {
    Escape(f.name) == f.name && Reads(f.text, f.value)
  }

  ghost predicate AreReadable(fields: seq<Field>) {
    forall i :: 0 <= i < |fields| ==> IsReadable(fields[i])
  }

  lemma {:induction false} SpaceSkipped(t: string)
    requires t != "" && t[0] != ' ' && t[0] != '\t' && t[0] != '\n' && t[0] != '\r'
    ensures SkipSpace(t) == t && SkipSpace(" " + t) == t
  {
    assert (" " + t)[1..] == t;
  }

  /** Space before a value is skipped. */
  lemma {:induction false} ValueAfterSpace(t: string)
    ensures ReadValue(" " + t) == ReadValue(t)
  {
    assert (" " + t)[1..] == t;
    assert SkipSpace(" " + t) == SkipSpace(t);
    hide ReadMembers, ReadItems, ReadString, SkipSpace, DigitsEnd;
  }

  lemma {:induction false} MemberChain(t: string, name: seq<int>, text: string, value: JsonValue, after: string)
    requires ReadString(t) == String(name, ": " + text) && ReadValue(text) == Good(value, after)
    requires after != "" && (after[0] == ',' || after[0] == '}')
    ensures ReadMembers("\"" + t)
         == if after[0] == '}' then Good([Member(name, value)], after[1..])
            else match ReadMembers(after[1..])
                 case Bad => Bad
                 case Good(members, rest) => Good([Member(name, value)] + members, rest)
  {
    assert ("\"" + t)[1..] == t && (": " + text)[1..] == " " + text;
    ValueAfterSpace(text);
    SpaceSkipped("\"" + t);
    SpaceSkipped(": " + text);
    SpaceSkipped(after);
    hide ReadValue, ReadString, SkipSpace;
  }

  /** One member, and the separator or brace after it. */
  lemma {:induction false} MemberReads(f: Field, after: string)
    requires IsReadable(f) && after != "" && (after[0] == ',' || after[0] == '}')
    ensures ReadMembers(FieldText(f) + after)
         == if after[0] == '}' then Good([MemberOf(f)], after[1..])
            else match ReadMembers(after[1..])
                 case Bad => Bad
                 case Good(members, rest) => Good([MemberOf(f)] + members, rest)
  {
    hide ReadMembers, ReadValue, ReadString, SkipSpace, Codes, Escape;
    var text := f.text + after;
    var t := f.name + "\"" + (": " + text);
    EscapedReadsBack(f.name, ": " + text);
    assert ReadValue(text) == Good(f.value, after);
    MemberChain(t, Codes(f.name), text, f.value, after);
    assert FieldText(f) + after == "\"" + t;
  }

  /** The text from a member on, in terms of the next. */
  lemma {:induction false} NextMember(first: Field, fields: seq<Field>, rest: string)
    requires fields != []
    ensures FieldText(first) + TailText(fields) + "}" + rest
         == FieldText(first) + ("," + (" " + (FieldText(fields[0]) + TailText(fields[1..]) + "}" + rest)))
  {
    hide FieldText;
    var f, g, tail := FieldText(first), FieldText(fields[0]), TailText(fields[1..]);
    assert TailText(fields) == ", " + g + tail;
    assert f + (", " + g + tail) + "}" + rest == f + ("," + (" " + (g + tail + "}" + rest)));
  }

  lemma {:induction false} MembersAfterSpace(t: string)
    ensures ReadMembers(" " + t) == ReadMembers(t)
  {
    assert (" " + t)[1..] == t;
    assert SkipSpace(" " + t) == SkipSpace(t);
    hide ReadValue, ReadString, SkipSpace;
  }

  lemma {:induction false} MembersRead(first: Field, fields: seq<Field>, rest: string)
    requires IsReadable(first) && AreReadable(fields)
    ensures ReadMembers(FieldText(first) + TailText(fields) + "}" + rest)
         == Good([MemberOf(first)] + MembersOf(fields), rest)
    decreases |fields|
  {
    hide ReadMembers, FieldText, MemberOf, IsReadable;
    if fields == [] {
      var after := "}" + rest;
      assert after[1..] == rest;
      assert FieldText(first) + "" + "}" + rest == FieldText(first) + after;
      assert [MemberOf(first)] + [] == [MemberOf(first)];
      MemberReads(first, after);
    } else {
      var next := FieldText(fields[0]) + TailText(fields[1..]) + "}" + rest;
      NextMember(first, fields, rest);
      hide TailText;
      var after := "," + (" " + next);
      assert after[1..] == " " + next;
      MemberReads(first, after);
      MembersRead(fields[0], fields[1..], rest);
      MembersAfterSpace(next);
    }
  }

  lemma {:induction false} ObjectChain(inner: string, members: seq<Member>, rest: string)
    requires ReadMembers(inner) == Good(members, rest) && inner != "" && inner[0] == '"'
    ensures ReadValue("{" + inner) == Good(Obj(members), rest)
  {
    assert ("{" + inner)[1..] == inner;
    SpaceSkipped("{" + inner);
    SpaceSkipped(inner);
    hide ReadMembers, SkipSpace;
  }

  /** An object of readable members reads as the object of their values. */
  lemma {:induction false} ObjectReads(first: Field, fields: seq<Field>, rest: string)
    requires IsReadable(first) && AreReadable(fields)
    ensures ReadValue("{" + FieldText(first) + TailText(fields) + "}" + rest)
         == Good(Obj([MemberOf(first)] + MembersOf(fields)), rest)
  {
    hide ReadValue, ReadMembers, TailText, MembersOf, MemberOf, IsReadable, AreReadable;
    MembersRead(first, fields, rest);
    var inner := FieldText(first) + TailText(fields) + "}" + rest;
    assert "{" + FieldText(first) + TailText(fields) + "}" + rest == "{" + inner;
    ObjectChain(inner, [MemberOf(first)] + MembersOf(fields), rest);
  }

  /** Items, each with its text. */
  datatype Item = Item(text: string, value: JsonValue)

  function ItemsText(items: seq<Item>): string {
    if items == [] then ""
    else ItemsText(items[..|items| - 1]) + (if |items| == 1 then "" else ", ") + items[|items| - 1].text
  }

  function ValuesOf(items: seq<Item>): (values: seq<JsonValue>)
    ensures |values| == |items| && forall i :: 0 <= i < |items| ==> values[i] == items[i].value
  {
    seq(|items|, i requires 0 <= i < |items| => items[i].value)
  }

  lemma {:induction false} ItemsFromFront(items: seq<Item>)
    requires |items| > 1
    ensures ItemsText(items) == items[0].text + ", " + ItemsText(items[1..])
  {
    var front := items[..|items| - 1];
    assert front[1..] == items[1..][..|items| - 2] && items[1..][|items| - 2] == items[|items| - 1];
    var last := items[|items| - 1].text;
    if |items| == 2 {
      assert front == [items[0]] && front[..0] == [] && items[1..] == [items[1]] && items[1..][..0] == [];
      assert ItemsText(front) == "" + "" + items[0].text;
    } else {
      ItemsFromFront(front);
      assert items[0].text + ", " + ItemsText(front[1..]) + ", " + last
          == items[0].text + ", " + (ItemsText(front[1..]) + ", " + last);
    }
  }

  lemma {:induction false} ItemChain(t: string, value: JsonValue, after: string)
    requires ReadValue(t) == Good(value, after) && after != "" && (after[0] == ',' || after[0] == ']')
    ensures ReadItems(t)
         == if after[0] == ']' then Good([value], after[1..])
            else match ReadItems(after[1..])
                 case Bad => Bad
                 case Good(items, rest) => Good([value] + items, rest)
  {
    SpaceSkipped(after);
    hide ReadValue, SkipSpace;
  }

  /** The text from an item on, in terms of the next. */
  lemma {:induction false} NextItem(items: seq<Item>, rest: string)
    requires items != []
    ensures ItemsText(items) + "]" + rest
         == items[0].text + if |items| == 1 then "]" + rest else "," + (" " + (ItemsText(items[1..]) + "]" + rest))
  {
    if |items| == 1 {
      assert items[..0] == [];
      assert ItemsText(items) == "" + "" + items[0].text;
    } else {
      ItemsFromFront(items);
      hide ItemsText;
      var text, later := items[0].text, ItemsText(items[1..]);
      assert text + ", " + later + "]" + rest == text + ("," + (" " + (later + "]" + rest)));
    }
  }

  lemma {:induction false} ItemReads(item: Item, after: string)
    requires Reads(item.text, item.value) && Follows(after)
    ensures ReadValue(item.text + after) == Good(item.value, after)
  {
    hide ReadValue;
  }

  lemma {:induction false} ItemsAfterSpace(t: string)
    ensures ReadItems(" " + t) == ReadItems(t)
  {
    ValueAfterSpace(t);
    hide ReadValue;
  }

  lemma {:induction false} ItemsRead(items: seq<Item>, rest: string)
    requires items != [] && forall i :: 0 <= i < |items| ==> Reads(items[i].text, items[i].value)
    ensures ReadItems(ItemsText(items) + "]" + rest) == Good(ValuesOf(items), rest)
    decreases |items|
  {
    hide ReadValue, ReadItems, ItemsText, Reads;
    var first := items[0];
    NextItem(items, rest);
    if |items| == 1 {
      var after := "]" + rest;
      assert after[1..] == rest;
      ItemReads(first, after);
      ItemChain(first.text + after, first.value, after);
      assert ValuesOf(items) == [first.value];
    } else {
      var next := ItemsText(items[1..]) + "]" + rest;
      var after := "," + (" " + next);
      assert after[1..] == " " + next;
      ItemReads(first, after);
      ItemChain(first.text + after, first.value, after);
      ItemsRead(items[1..], rest);
      ItemsAfterSpace(next);
      assert ValuesOf(items) == [first.value] + ValuesOf(items[1..]);
    }
  }

  lemma {:induction false} ArrayChain(inner: string, items: seq<JsonValue>, rest: string)
    requires ReadItems(inner) == Good(items, rest) && inner != "" && inner[0] == '{'
    ensures ReadValue("[" + inner) == Good(Arr(items), rest)
  {
    assert ("[" + inner)[1..] == inner;
    SpaceSkipped("[" + inner);
    SpaceSkipped(inner);
    hide ReadItems, SkipSpace;
  }

  lemma {:induction false} ItemsStart(items: seq<Item>)
    requires items != [] && forall i :: 0 <= i < |items| ==> items[i].text != "" && items[i].text[0] == '{'
    ensures ItemsText(items) != "" && ItemsText(items)[0] == '{'
  {
    if |items| > 1 {
      ItemsStart(items[..|items| - 1]);
    } else {
      assert items[..0] == [];
    }
  }

  /** An array of readable items reads as the array of their values. */
  lemma {:induction false} ArrayReads(items: seq<Item>)
    requires items != [] && forall i :: 0 <= i < |items| ==> Reads(items[i].text, items[i].value)
    requires forall i :: 0 <= i < |items| ==> items[i].text != "" && items[i].text[0] == '{'
    ensures Reads("[" + ItemsText(items) + "]", Arr(ValuesOf(items)))
  {
    var text := "[" + ItemsText(items) + "]";
    hide ReadItems, ReadValue, ItemsText, ValuesOf;
    ItemsStart(items);
    forall rest: string
      ensures ReadValue(text + rest) == Good(Arr(ValuesOf(items)), rest)
    {
      var inner := ItemsText(items) + "]" + rest;
      assert text + rest == "[" + inner;
      ItemsRead(items, rest);
      ArrayChain(inner, ValuesOf(items), rest);
    }
  }
}
