/** Connection strings and doubly-null-terminated lists: what they say, and the parsers and printers. */
module ConnStrings {
  import opened Buffers
  import opened SqlLiterals

  const ATTRIBUTES := 37
  const MAX_ATTRIBUTE := 768
  const MAX_SHORT := 32767

  function Keyword(i: nat): string
    requires i < ATTRIBUTES
  {
    match i
    case 0 => "Driver"
    case 1 => "Description"
    case 2 => "DSN"
    case 3 => "PWD"
    case 4 => "UID"
    case 5 => "APIKey"
    case 6 => "SAVEFILE"
    case 7 => "FILEDSN"
    case 8 => "CloudID"
    case 9 => "Server"
    case 10 => "Port"
    case 11 => "Secure"
    case 12 => "CAPath"
    case 13 => "Timeout"
    case 14 => "Follow"
    case 15 => "Catalog"
    case 16 => "Packing"
    case 17 => "Compression"
    case 18 => "MaxFetchSize"
    case 19 => "MaxBodySizeMB"
    case 20 => "ApplyTZ"
    case 21 => "EarlyExecution"
    case 22 => "ScientificFloats"
    case 23 => "VarcharLimit"
    case 24 => "MultiFieldLenient"
    case 25 => "AutoEscapePVA"
    case 26 => "IndexIncludeFrozen"
    case 27 => "ProxyEnabled"
    case 28 => "ProxyType"
    case 29 => "ProxyHost"
    case 30 => "ProxyPort"
    case 31 => "ProxyAuthEnabled"
    case 32 => "ProxyAuthUID"
    case 33 => "ProxyAuthPWD"
    case 34 => "TraceEnabled"
    case 35 => "TraceFile"
    case 36 => "TraceLevel"
  }

  /** The values of all the attributes; an empty one is not set. */
  type Values = v: seq<string> | |v| == ATTRIBUTES && forall i :: 0 <= i < |v| ==> |v[i]| <= MAX_ATTRIBUTE
    ghost witness seq(ATTRIBUTES, _ => "")

  const BLANK: seq<string> := seq(ATTRIBUTES, _ => "")

  // ---- reading ------------------------------------------------------------------------------------

  predicate IsBlank(c: char) {
    c == ' ' || c == '\t' || c == '\r' || c == '\n'
  }

  datatype Skipped = AtEnd | At(rest: string)

  /** `skip_ws`. */
  function SkipWs(s: string, extended: bool): (r: Skipped)
    ensures r.At? ==> |r.rest| <= |s| && r.rest != ""
  {
    if s == "" || s[0] == '\0' then AtEnd
    else if IsBlank(s[0]) || (s[0] == ';' && extended) then SkipWs(s[1..], extended)
    else At(s)
  }

  datatype Scan = BadToken | EndsAt(end: nat, braced: bool)

  /** Where the token that starts the text ends, from a position within it on. */
  function TokenEnd(isValue: bool, s: string, i: nat, open: bool): (r: Scan)
    requires i <= |s|
    ensures r.EndsAt? ==> i <= r.end <= |s| && (r.braced ==> i < r.end)
    decreases |s| - i
  {
    if i == |s| then
      if open then BadToken else EndsAt(i, false)
    else
      var c := s[i];
      if c == '\\' then
        if isValue then TokenEnd(isValue, s, i + 1, open) else BadToken
      else if IsBlank(c) || c == '=' then
        if open || isValue then TokenEnd(isValue, s, i + 1, open) else EndsAt(i, false)
      else if c == ';' then
        if open then TokenEnd(isValue, s, i + 1, open) else if isValue then EndsAt(i, false) else BadToken
      else if c == '\0' then
        if open || !isValue then BadToken else EndsAt(i, false)
      else if c == '{' then
        if i == 0 then TokenEnd(isValue, s, 1, true)
        else if open then BadToken else TokenEnd(isValue, s, i + 1, open)
      else if c == '}' then
        if open then EndsAt(i + 1, true) else TokenEnd(isValue, s, i + 1, open)
      else TokenEnd(isValue, s, i + 1, open)
  }

  /** A brace is only open past the start of a token. */
  lemma {:induction false} BracedIsLonger(isValue: bool, s: string, i: nat, open: bool)
    requires i <= |s| && (open ==> i > 0)
    ensures var r := TokenEnd(isValue, s, i, open); r.EndsAt? && r.braced ==> r.end >= 2
    decreases |s| - i
  {
    if i < |s| {
      BracedIsLonger(isValue, s, i + 1, open);
      if s[i] == '{' && i == 0 {
        BracedIsLonger(isValue, s, 1, true);
      }
    }
  }

  datatype Token = NoToken | Token(text: string, rest: string)

  /** `parse_token`. */
  function ReadToken(isValue: bool, s: string): (t: Token)
    ensures t.Token? ==> |t.rest| <= |s|
  {
    BracedIsLonger(isValue, s, 0, false);
    match TokenEnd(isValue, s, 0, false)
    case BadToken => NoToken
    case EndsAt(end, braced) => Token(if braced then s[1..end - 1] else s[..end], s[end..])
  }

  function FindKeyword(keyword: string, from: nat): (i: nat)
    requires from <= ATTRIBUTES
    ensures from <= i <= ATTRIBUTES
    ensures i < ATTRIBUTES ==> LowerAll(Keyword(i)) == LowerAll(keyword)
    decreases ATTRIBUTES - from
  {
    if from == ATTRIBUTES || LowerAll(Keyword(from)) == LowerAll(keyword) then from else FindKeyword(keyword, from + 1)
  }

  datatype Assigned = TooLong | Assigned(vals: Values)

  /** `assign_dsn_attr`, overwriting; keywords of no attribute are ignored. */
  function Assign(vals: Values, keyword: string, value: string): Assigned {
    if MAX_ATTRIBUTE < |value| then TooLong
    else
      var i := FindKeyword(keyword, 0);
      Assigned.Assigned(if i == ATTRIBUTES then vals else vals[i := value])
  }

  /** Whether a text could be parsed, and the attributes then; they are kept as they were at a fault. */
  datatype Parse = Parse(ok: bool, vals: Values)

  datatype Pair = Broken | Done | Pair(keyword: string, value: string, rest: string)

  /** The next keyword and value; a value that the text ends before is left out. */
  function NextPair(s: string): (p: Pair)
    ensures p.Pair? ==> |p.rest| < |s|
  {
    match SkipWs(s, true)
    case AtEnd => Done
    case At(s1) =>
      match ReadToken(false, s1)
      case NoToken => Broken
      case Token(keyword, s2) =>
        match SkipWs(s2, false)
        case AtEnd => Broken
        case At(s3) =>
          if s3[0] != '=' then Broken
          else
            match SkipWs(s3[1..], false)
            case AtEnd => Done
            case At(s4) =>
              match ReadToken(true, s4)
              case NoToken => Broken
              case Token(value, s5) => Pair(keyword, value, s5)
  }

  /** `parse_connection_string`. */
  function ReadAll(s: string, vals: Values): Parse
    decreases |s|
  {
    match NextPair(s)
    case Done => Parse(true, vals)
    case Broken => Parse(false, vals)
    case Pair(keyword, value, rest) =>
      match Assign(vals, keyword, value)
      case TooLong => Parse(false, vals)
      case Assigned(vals) => ReadAll(rest, vals)
  }

  /** The length of the next entry of a list. */
  function EntryLength(s: string): (n: nat)
    ensures n <= |s| && '\0' !in s[..n] && (n < |s| ==> s[n] == '\0')
  {
    if s == "" || s[0] == '\0' then 0 else
      var n := EntryLength(s[1..]);
      assert s[..n + 1] == [s[0]] + s[1..][..n];
      n + 1
  }

  /** `parse_00_list`; the list ends with an empty entry. */
  function ReadList(s: string, vals: Values): Parse
    decreases |s|
  {
    var n := EntryLength(s);
    if n == 0 then Parse(true, vals)
    else if MAX_SHORT < n then Parse(false, vals)
    else
      var p := ReadAll(s[..n], vals);
      if !p.ok || n == |s| then p else ReadList(s[n + 1..], p.vals)
  }

  // ---- writing ------------------------------------------------------------------------------------

  predicate NeedsBraces(value: string) {
    exists i :: 0 <= i < |value| && (IsBlank(value[i]) || value[i] == '=' || value[i] == ';')
  }

  function Enclosed(value: string): string {
    if NeedsBraces(value) then "{" + value + "}" else value
  }

  function Entry(i: nat, value: string): string
    requires i < ATTRIBUTES
  {
    Keyword(i) + "=" + Enclosed(value)
  }

  /** The entries of the attributes that are set, from one on, each closed. */
  function Entries(vals: Values, from: nat, close: char): string
    requires from <= ATTRIBUTES
    decreases ATTRIBUTES - from
  {
    if from == ATTRIBUTES then ""
    else (if vals[from] == "" then "" else Entry(from, vals[from]) + [close]) + Entries(vals, from + 1, close)
  }

  function ConnText(vals: Values): string {
    Entries(vals, 0, ';')
  }

  function ListText(vals: Values): string {
    Entries(vals, 0, '\0') + ['\0']
  }

  // ---- the room of a list -------------------------------------------------------------------------

  /** Whether writing a list is given up for lack of room: the entries may not pass it. The room is an
      unsigned number, and one less than none of it is more than any list needs. */
  predicate ListFails(vals: Values, cnt00: nat) {
    0 < cnt00 < |Entries(vals, 0, '\0')|
  }

  /** A list that is not given up is longer than its room exactly if there is none, or the entries fill it
      exactly: then the NUL that ends the list is past it. */
  lemma {:induction false} ListOverruns(vals: Values, cnt00: nat)
    ensures !ListFails(vals, cnt00) && |ListText(vals)| > cnt00
       <==> cnt00 == 0 || |Entries(vals, 0, '\0')| == cnt00
  {
    hide Entries;
  }

  lemma {:induction false} NoEntries(vals: Values, from: nat, close: char)
    requires from <= ATTRIBUTES && forall i :: from <= i < ATTRIBUTES ==> vals[i] == ""
    ensures Entries(vals, from, close) == ""
    decreases ATTRIBUTES - from
  {
    if from < ATTRIBUTES {
      NoEntries(vals, from + 1, close);
    }
  }

  lemma {:induction false} OneEntry(vals: Values, from: nat, i: nat, close: char)
    requires from <= i < ATTRIBUTES && vals[i] != ""
    requires forall j :: from <= j < ATTRIBUTES && j != i ==> vals[j] == ""
    ensures Entries(vals, from, close) == Entry(i, vals[i]) + [close]
    decreases i - from
  {
    hide Entry;
    if from < i {
      OneEntry(vals, from + 1, i, close);
    } else {
      NoEntries(vals, i + 1, close);
    }
  }

  /** What is written of a single attribute, with a value that needs no braces. */
  lemma {:induction false} OneIsWritten(vals: Values, i: nat)
    requires i < ATTRIBUTES && vals[i] != "" && forall j :: 0 <= j < ATTRIBUTES && j != i ==> vals[j] == ""
    requires forall c :: c in vals[i] ==> c !in {' ', '\t', '\r', '\n', '=', ';'}
    ensures ConnText(vals) == Keyword(i) + "=" + vals[i] + ";"
    ensures ListText(vals) == Keyword(i) + "=" + vals[i] + "\0\0"
  {
    hide Entries, Keyword;
    OneEntry(vals, 0, i, ';');
    OneEntry(vals, 0, i, '\0');
    assert forall k :: 0 <= k < |vals[i]| ==> vals[i][k] in vals[i];
    assert Enclosed(vals[i]) == vals[i];
  }

  const DSN_IS_A: Values := BLANK[2 := "a"]

  /** `DSN=a` in room for six characters: its entry fills them, and the list is a character longer. */
  lemma {:induction false} ShortListOverruns()
    ensures ListText(DSN_IS_A) == "DSN=a\0\0" && !ListFails(DSN_IS_A, 6) && |ListText(DSN_IS_A)| > 6
  {
    hide Entries;
    OneEntry(DSN_IS_A, 0, 2, '\0');
    assert !NeedsBraces("a");
    assert Entry(2, "a") == "DSN=a";
  }
}
