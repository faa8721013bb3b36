/** Connection strings and lists read back what was written. */
module ConnRoundTrip {
  import opened SqlLiterals
  import opened ConnStrings

  // ---- keywords -----------------------------------------------------------------------------------

  /** A number made of the length, the first and the last but one letter, in lower case: no two
      keywords share it. */
  function Mark(s: string): int
    requires |s| >= 2
  {
    (|s| * 100 + Lower(s[0]) as int - 97) * 100 + Lower(s[|s| - 2]) as int - 97
  }

  function Marked(mark: int): int {
    match mark
    case 60304 => 0
    case 110314 => 1
    case 30318 => 2
    case 31522 => 3
    case 32008 => 4
    case 60004 => 5
    case 81811 => 6
    case 70518 => 7
    case 70208 => 8
    case 61804 => 9
    case 41517 => 10
    case 61817 => 11
    case 60219 => 12
    case 71920 => 13
    case 60514 => 14
    case 70214 => 15
    case 71513 => 16
    case 110214 => 17
    case 121225 => 18
    case 131212 => 19
    case 70019 => 20
    case 140414 => 21
    case 161819 => 22
    case 122108 => 23
    case 171213 => 24
    case 130021 => 25
    case 180804 => 26
    case 121504 => 27
    case 91515 => 28
    case 91518 => 29
    case 91517 => 30
    case 161504 => 31
    case 121508 => 32
    case 121522 => 33
    case 121904 => 34
    case 91911 => 35
    case 101904 => 36
    case _ => -1
  }

  ghost predicate IsMarked(i: nat)
    requires i < ATTRIBUTES
  {
    |Keyword(i)| >= 2 && Marked(Mark(Keyword(i))) == i
  }

  lemma {:induction false} FirstMarks(i: nat)
    requires 0 <= i < 13
    ensures IsMarked(i)
  {
  }

  lemma {:induction false} MiddleMarks(i: nat)
    requires 13 <= i < 19
    ensures IsMarked(i)
  {
  }

  lemma {:induction false} FlagMarks(i: nat)
    requires 19 <= i < 25
    ensures IsMarked(i)
  {
  }

  lemma {:induction false} ProxyMarks(i: nat)
    requires 25 <= i < 32
    ensures IsMarked(i)
  {
  }

  lemma {:induction false} LastMarks(i: nat)
    requires 32 <= i < 37
    ensures IsMarked(i)
  {
  }

  lemma {:induction false} SameMark(s: string, t: string)
    requires LowerAll(s) == LowerAll(t) && |s| >= 2
    ensures |t| == |s| && Mark(s) == Mark(t)
  {
    assert |LowerAll(s)| == |LowerAll(t)|;
    assert LowerAll(s)[0] == LowerAll(t)[0] && LowerAll(s)[|s| - 2] == LowerAll(t)[|t| - 2];
    hide LowerAll;
  }

  lemma {:induction false} KeywordIsMarked(i: nat)
    requires i < ATTRIBUTES
    ensures IsMarked(i)
  {
    hide IsMarked;
    if i < 13 {
      FirstMarks(i);
    } else if i < 19 {
      MiddleMarks(i);
    } else if i < 25 {
      FlagMarks(i);
    } else if i < 32 {
      ProxyMarks(i);
    } else {
      LastMarks(i);
    }
  }

  lemma {:induction false} KeywordsDiffer(i: nat, j: nat)
    requires i < ATTRIBUTES && j < ATTRIBUTES && LowerAll(Keyword(i)) == LowerAll(Keyword(j))
    ensures i == j
  {
    hide Keyword, Marked, Mark, LowerAll;
    KeywordIsMarked(i);
    KeywordIsMarked(j);
    SameMark(Keyword(i), Keyword(j));
  }

  /** Each keyword finds its attribute. */
  lemma {:induction false} KeywordFound(i: nat, from: nat)
    requires from <= i < ATTRIBUTES
    ensures FindKeyword(Keyword(i), from) == i
    decreases i - from
  {
    hide Keyword, LowerAll;
    if LowerAll(Keyword(from)) == LowerAll(Keyword(i)) {
      KeywordsDiffer(from, i);
    } else {
      KeywordFound(i, from + 1);
    }
  }

  ghost predicate IsLetter(c: char) {
    'A' <= c <= 'Z' || 'a' <= c <= 'z'
  }

  ghost predicate IsWord(s: string) {
    s != "" && forall i :: 0 <= i < |s| ==> IsLetter(s[i])
  }

  lemma {:induction false} DriverWords(i: nat)
    requires i < 9
    ensures IsWord(Keyword(i)) && |Keyword(i)| <= 18
  {
  }

  lemma {:induction false} ServerWords(i: nat)
    requires 9 <= i < 17
    ensures IsWord(Keyword(i)) && |Keyword(i)| <= 18
  {
  }

  lemma {:induction false} LimitWords(i: nat)
    requires 17 <= i < 22
    ensures IsWord(Keyword(i)) && |Keyword(i)| <= 18
  {
  }

  lemma {:induction false} FormatWords(i: nat)
    requires 22 <= i < 25
    ensures IsWord(Keyword(i)) && |Keyword(i)| <= 18
  {
  }

  lemma {:induction false} PatternWords(i: nat)
    requires 25 <= i < 27
    ensures IsWord(Keyword(i)) && |Keyword(i)| <= 18
  {
  }

  lemma {:induction false} ProxyWords(i: nat)
    requires 27 <= i < 32
    ensures IsWord(Keyword(i)) && |Keyword(i)| <= 18
  {
  }

  lemma {:induction false} TraceWords(i: nat)
    requires 32 <= i < 37
    ensures IsWord(Keyword(i)) && |Keyword(i)| <= 18
  {
  }

  /** Keywords are words of at most 18 letters. */
  lemma {:induction false} KeywordIsWord(i: nat)
    requires i < ATTRIBUTES
    ensures IsWord(Keyword(i)) && |Keyword(i)| <= 18
  {
    hide Keyword, IsWord;
    if i < 9 {
      DriverWords(i);
    } else if i < 17 {
      ServerWords(i);
    } else if i < 22 {
      LimitWords(i);
    } else if i < 25 {
      FormatWords(i);
    } else if i < 27 {
      PatternWords(i);
    } else if i < 32 {
      ProxyWords(i);
    } else {
      TraceWords(i);
    }
  }

  lemma {:induction false} WordEnds(w: string, rest: string, k: nat)
    requires IsWord(w) && k <= |w|
    ensures TokenEnd(false, w + ("=" + rest), k, false) == EndsAt(|w|, false)
    decreases |w| - k
  {
    var s := w + ("=" + rest);
    if k < |w| {
      assert s[k] == w[k];
      WordEnds(w, rest, k + 1);
    } else {
      assert s[k] == '=';
    }
  }

  lemma {:induction false} KeywordReads(i: nat, rest: string)
    requires i < ATTRIBUTES
    ensures var s := Keyword(i) + ("=" + rest);
            SkipWs(s, true) == At(s) && ReadToken(false, s) == Token(Keyword(i), "=" + rest)
  {
    var w := Keyword(i);
    var s := w + ("=" + rest);
    KeywordIsWord(i);
    WordEnds(w, rest, 0);
    assert s[0] == w[0] && s[..|w|] == w && s[|w|..] == "=" + rest;
    hide Keyword, TokenEnd;
  }

  // ---- values -------------------------------------------------------------------------------------

  /** The characters that a value is put in braces for. */
  predicate HoldsSeparator(value: string) {
    exists i :: 0 <= i < |value| && value[i] in {' ', '\t', '\r', '\n', '=', ';'}
  }

  /** A value is put in braces exactly if it holds one of them. */
  lemma {:induction false} BracesIff(value: string)
    ensures NeedsBraces(value) <==> HoldsSeparator(value)
    ensures Enclosed(value) == "{" + value + "}" <==> HoldsSeparator(value)
    ensures !HoldsSeparator(value) ==> Enclosed(value) == value
  {
    if HoldsSeparator(value) {
      var i :| 0 <= i < |value| && value[i] in {' ', '\t', '\r', '\n', '=', ';'};
      assert IsBlank(value[i]) || value[i] == '=' || value[i] == ';';
    }
    assert |"{" + value + "}"| == |value| + 2;
  }

  /** What a value must be like to be read back: no NUL; no braces within the braces it needs, or none
      at its start if it needs none. */
  predicate IsWritable(value: string) {
    && '\0' !in value
    && if HoldsSeparator(value) then '{' !in value && '}' !in value else value == "" || value[0] != '{'
  }

  /** A value ends with the text, or at a semicolon or a NUL. */
  predicate Closes(tail: string) {
    tail == "" || tail[0] == ';' || tail[0] == '\0'
  }

  lemma {:induction false} PlainEnds(v: string, tail: string, k: nat)
    requires !NeedsBraces(v) && Closes(tail) && k <= |v| && '\0' !in v && (v == "" || v[0] != '{')
    ensures TokenEnd(true, v + tail, k, false) == EndsAt(|v|, false)
    decreases |v| - k
  {
    var s := v + tail;
    if k < |v| {
      assert s[k] == v[k] && v[k] in v;
      PlainEnds(v, tail, k + 1);
    } else if tail != "" {
      assert s[k] == tail[0];
    }
  }

  lemma {:induction false} BracedEnds(v: string, tail: string, k: nat)
    requires 1 <= k <= |v| + 1 && '\0' !in v && '{' !in v && '}' !in v
    ensures TokenEnd(true, "{" + v + "}" + tail, k, true) == EndsAt(|v| + 2, true)
    decreases |v| - k
  {
    var s := "{" + v + "}" + tail;
    if k <= |v| {
      assert s[k] == v[k - 1] && v[k - 1] in v;
      BracedEnds(v, tail, k + 1);
    } else {
      assert s[k] == '}';
    }
  }

  /** What a value is read as when it was written in braces that do not hold it. */
  lemma {:induction false} BrokenBraces(v: string, tail: string, k: nat)
    requires 1 <= k <= |v| && forall j :: 0 <= j < k - 1 ==> v[j] != '}'
    requires '\0' in v[k - 1..] || '{' in v[k - 1..] || '}' in v[k - 1..]
    ensures var r := TokenEnd(true, "{" + v + "}" + tail, k, true); r.EndsAt? ==> r.end < |v| + 2
    decreases |v| - k
  {
    var s := "{" + v + "}" + tail;
    assert s[k] == v[k - 1];
    if v[k - 1] != '\0' && v[k - 1] != '{' && v[k - 1] != '}' {
      assert v[k - 1..] == [v[k - 1]] + v[k..];
      BrokenBraces(v, tail, k + 1);
    }
  }

  lemma {:induction false} OpenIsBraced(isValue: bool, s: string, i: nat)
    requires 0 < i <= |s|
    ensures var r := TokenEnd(isValue, s, i, true);
            r.EndsAt? ==> r.braced && r.end > i && '{' !in s[i..r.end - 1] && '\0' !in s[i..r.end - 1]
    decreases |s| - i
  {
    var r := TokenEnd(isValue, s, i, true);
    if r.EndsAt? && s[i] != '}' {
      OpenIsBraced(isValue, s, i + 1);
      assert s[i..r.end - 1] == [s[i]] + s[i + 1..r.end - 1];
    }
  }

  /** Nothing past the first NUL is read. */
  lemma {:induction false} NulEnds(v: string, tail: string, k: nat)
    requires k <= |v| && '\0' in v[k..]
    ensures var r := TokenEnd(true, v + tail, k, false); r.EndsAt? && !r.braced ==> r.end < |v|
    decreases |v| - k
  {
    var s := v + tail;
    assert s[k] == v[k];
    if v[k] != '\0' {
      assert v[k..] == [v[k]] + v[k + 1..];
      if k == 0 && v[k] == '{' {
        OpenIsBraced(true, s, 1);
      } else {
        NulEnds(v, tail, k + 1);
      }
    }
  }

  lemma {:induction false} WritableReads(value: string, tail: string)
    requires value != "" && Closes(tail) && IsWritable(value)
    ensures ReadToken(true, Enclosed(value) + tail) == Token(value, tail)
  {
    BracesIff(value);
    hide HoldsSeparator;
    var s := Enclosed(value) + tail;
    if NeedsBraces(value) {
      BracedEnds(value, tail, 1);
      assert s == "{" + value + "}" + tail && s[0] == '{';
      assert s[1..|value| + 1] == value && s[|value| + 2..] == tail;
    } else {
      PlainEnds(value, tail, 0);
      assert s[..|value|] == value && s[|value|..] == tail;
    }
  }

  lemma {:induction false} BracesFail(value: string, tail: string)
    requires value != "" && !IsWritable(value) && NeedsBraces(value)
    ensures ReadToken(true, Enclosed(value) + tail) != Token(value, tail)
  {
    BracesIff(value);
    hide HoldsSeparator;
    var s := "{" + value + "}" + tail;
    assert Enclosed(value) + tail == s && s[0] == '{';
    assert value[0..] == value;
    BrokenBraces(value, tail, 1);
    OpenIsBraced(true, s, 1);
    hide NeedsBraces;
  }

  lemma {:induction false} PlainFails(value: string, tail: string)
    requires value != "" && !IsWritable(value) && !NeedsBraces(value)
    ensures ReadToken(true, Enclosed(value) + tail) != Token(value, tail)
  {
    BracesIff(value);
    hide HoldsSeparator;
    var s := value + tail;
    assert Enclosed(value) + tail == s && s[0] == value[0];
    if value[0] == '{' {
      OpenIsBraced(true, s, 1);
      var r := TokenEnd(true, s, 1, true);
      if r.EndsAt? && r.end >= 3 {
        assert s[1..r.end - 1][0] == s[1];
        assert '{' !in s[1..r.end - 1];
      }
    } else {
      assert value[0..] == value;
      NulEnds(value, tail, 0);
    }
    hide NeedsBraces;
  }

  /** A written value is read back exactly if it is writable. */
  lemma {:induction false} ValueReadsBack(value: string, tail: string)
    requires value != "" && Closes(tail)
    ensures ReadToken(true, Enclosed(value) + tail) == Token(value, tail) <==> IsWritable(value)
  {
    if IsWritable(value) {
      WritableReads(value, tail);
    } else if NeedsBraces(value) {
      BracesFail(value, tail);
    } else {
      PlainFails(value, tail);
    }
  }

  // ---- entries ------------------------------------------------------------------------------------

  lemma {:induction false} EnclosedStarts(value: string, tail: string)
    requires value != "" && IsWritable(value)
    ensures SkipWs(Enclosed(value) + tail, false) == At(Enclosed(value) + tail)
  {
    BracesIff(value);
    hide HoldsSeparator;
    var s := Enclosed(value) + tail;
    if NeedsBraces(value) {
      assert s[0] == '{';
    } else {
      assert s[0] == value[0] && value[0] in value;
    }
  }

  lemma {:induction false} EqualsStands(s: string)
    requires s != "" && s[0] == '='
    ensures SkipWs(s, false) == At(s)
  {
  }

  lemma {:induction false} EntryPairs(i: nat, value: string, tail: string)
    requires i < ATTRIBUTES && value != "" && IsWritable(value) && Closes(tail)
    ensures NextPair(Entry(i, value) + tail) == Pair(Keyword(i), value, tail)
  {
    hide Keyword, ReadToken, Enclosed, IsWritable, SkipWs, Closes;
    var valueText := Enclosed(value) + tail;
    assert Entry(i, value) + tail == Keyword(i) + ("=" + valueText);
    KeywordReads(i, valueText);
    assert ("=" + valueText)[1..] == valueText;
    EnclosedStarts(value, tail);
    WritableReads(value, tail);
    EqualsStands("=" + valueText);
  }

  /** An entry sets its attribute. */
  lemma {:induction false} EntryReads(i: nat, value: string, tail: string, vals: Values)
    requires i < ATTRIBUTES && value != "" && |value| <= MAX_ATTRIBUTE && IsWritable(value) && Closes(tail)
    ensures ReadAll(Entry(i, value) + tail, vals) == ReadAll(tail, vals[i := value])
  {
    EntryPairs(i, value, tail);
    KeywordFound(i, 0);
    hide Keyword, NextPair, FindKeyword, Entry, IsWritable, LowerAll;
  }

  lemma {:induction false} SemicolonSkipped(rest: string, vals: Values)
    ensures ReadAll(";" + rest, vals) == ReadAll(rest, vals)
  {
    assert (";" + rest)[1..] == rest;
    assert NextPair(";" + rest) == NextPair(rest) by {
      hide ReadToken;
    }
    hide NextPair, Assign;
  }

  predicate AreWritable(vals: Values) {
    forall i :: 0 <= i < ATTRIBUTES ==> IsWritable(vals[i])
  }

  /** The attributes up to one, of these values, and from it on of those. */
  function Merged(those: Values, these: Values, from: nat): Values
    requires from <= ATTRIBUTES
  {
    var m := these[..from] + those[from..];
    assert forall i :: 0 <= i < |m| ==> m[i] == if i < from then these[i] else those[i];
    m
  }

  lemma {:induction false} MergedFromStart(vals: Values)
    ensures Merged(BLANK, vals, 0) == BLANK
  {
  }

  lemma {:induction false} MergedNext(those: Values, these: Values, from: nat)
    requires from < ATTRIBUTES
    ensures Merged(those, these, from)[from := these[from]] == Merged(those, these, from + 1)
  {
  }

  /** What is written of one attribute. */
  function Piece(vals: Values, i: nat, close: char): string
    requires i < ATTRIBUTES
  {
    if vals[i] == "" then "" else Entry(i, vals[i]) + [close]
  }

  lemma {:induction false} EntriesStep(vals: Values, from: nat, close: char, end: string)
    requires from < ATTRIBUTES
    ensures Entries(vals, from, close) + end == Piece(vals, from, close) + (Entries(vals, from + 1, close) + end)
  {
    hide Entry;
  }

  lemma {:induction false} PieceReads(vals: Values, i: nat, rest: string)
    requires i < ATTRIBUTES && IsWritable(vals[i])
    ensures ReadAll(Piece(vals, i, ';') + rest, Merged(BLANK, vals, i)) == ReadAll(rest, Merged(BLANK, vals, i + 1))
  {
    var before := Merged(BLANK, vals, i);
    MergedNext(BLANK, vals, i);
    hide ReadAll, Entry, IsWritable;
    if vals[i] == "" {
      assert "" + rest == rest && before[i := ""] == before;
    } else {
      var entry := Entry(i, vals[i]);
      assert entry + ";" + rest == entry + (";" + rest);
      EntryReads(i, vals[i], ";" + rest, before);
      SemicolonSkipped(rest, before[i := vals[i]]);
    }
  }

  lemma {:induction false} EntriesRead(vals: Values, from: nat, end: string)
    requires from <= ATTRIBUTES && AreWritable(vals) && SkipWs(end, true) == AtEnd
    ensures ReadAll(Entries(vals, from, ';') + end, Merged(BLANK, vals, from)) == Parse(true, vals)
    decreases ATTRIBUTES - from
  {
    if from == ATTRIBUTES {
      assert Entries(vals, from, ';') + end == end && Merged(BLANK, vals, from) == vals;
      hide ReadToken, Assign, SkipWs, Entries, Merged, AreWritable;
    } else {
      hide IsWritable, Entry, ReadAll, Entries, Merged, Piece, SkipWs;
      EntriesStep(vals, from, ';', end);
      PieceReads(vals, from, Entries(vals, from + 1, ';') + end);
      EntriesRead(vals, from + 1, end);
    }
  }

  /** The parser undoes the printer: every writable set of attributes is restored from its connection
      string, of a given length or terminated with a NUL. */
  lemma {:induction false} ConnStringReadsBack(vals: Values, end: string)
    requires AreWritable(vals) && (end == "" || end[0] == '\0')
    ensures ReadAll(ConnText(vals) + end, BLANK) == Parse(true, vals)
  {
    MergedFromStart(vals);
    hide Merged, ReadAll, Entries, AreWritable;
    EntriesRead(vals, 0, end);
  }

  // ---- lists --------------------------------------------------------------------------------------

  lemma {:induction false} LengthUpToNul(entry: string, rest: string)
    requires '\0' !in entry
    ensures EntryLength(entry + ['\0'] + rest) == |entry|
  {
    var s := entry + ['\0'] + rest;
    if entry != "" {
      assert s[1..] == entry[1..] + ['\0'] + rest;
      assert entry[0] in entry;
      LengthUpToNul(entry[1..], rest);
    }
  }

  lemma {:induction false} EntryIsWhole(i: nat, value: string, rest: string)
    requires i < ATTRIBUTES && '\0' !in value && |value| <= MAX_ATTRIBUTE
    ensures var s := Entry(i, value) + ['\0'] + rest;
            && EntryLength(s) == |Entry(i, value)| && 0 < |Entry(i, value)| <= MAX_SHORT
            && s[..|Entry(i, value)|] == Entry(i, value) && s[|Entry(i, value)| + 1..] == rest
  {
    var entry := Entry(i, value);
    var s := entry + ['\0'] + rest;
    KeywordIsWord(i);
    hide Keyword, NeedsBraces;
    assert '\0' !in entry;
    LengthUpToNul(entry, rest);
  }

  lemma {:induction false} MergedKept(vals: Values, i: nat)
    requires i < ATTRIBUTES && vals[i] == ""
    ensures Merged(BLANK, vals, i) == Merged(BLANK, vals, i + 1)
  {
  }

  lemma {:induction false} NoNul(value: string)
    requires IsWritable(value)
    ensures '\0' !in value
  {
  }

  lemma {:induction false} NothingRead(vals: Values)
    ensures ReadAll("", vals) == Parse(true, vals)
  {
  }

  lemma {:induction false} ListStep(s: string, n: nat, vals: Values, after: Values, rest: string)
    requires EntryLength(s) == n && 0 < n <= MAX_SHORT && n < |s| && s[n + 1..] == rest
    requires ReadAll(s[..n], vals) == Parse(true, after)
    ensures ReadList(s, vals) == ReadList(rest, after)
  {
    hide ReadAll;
  }

  lemma {:induction false} ListPieceReads(vals: Values, i: nat, rest: string)
    requires i < ATTRIBUTES && IsWritable(vals[i])
    ensures ReadList(Piece(vals, i, '\0') + rest, Merged(BLANK, vals, i)) == ReadList(rest, Merged(BLANK, vals, i + 1))
  {
    var before := Merged(BLANK, vals, i);
    MergedNext(BLANK, vals, i);
    hide ReadAll, Entry, IsWritable, Merged, ReadList;
    if vals[i] == "" {
      MergedKept(vals, i);
      assert "" + rest == rest;
    } else {
      var entry := Entry(i, vals[i]);
      NoNul(vals[i]);
      EntryIsWhole(i, vals[i], rest);
      EntryReads(i, vals[i], "", before);
      assert entry + "" == entry;
      NothingRead(before[i := vals[i]]);
      ListStep(entry + ['\0'] + rest, |entry|, before, before[i := vals[i]], rest);
    }
  }

  lemma {:induction false} ListEntriesRead(vals: Values, from: nat, end: string)
    requires from <= ATTRIBUTES && AreWritable(vals) && EntryLength(end) == 0
    ensures ReadList(Entries(vals, from, '\0') + end, Merged(BLANK, vals, from)) == Parse(true, vals)
    decreases ATTRIBUTES - from
  {
    if from == ATTRIBUTES {
      assert Entries(vals, from, '\0') + end == end && Merged(BLANK, vals, from) == vals;
      hide ReadAll, EntryLength, Entries, Merged;
    } else {
      hide IsWritable, Entry, ReadList, Entries, Merged, Piece, EntryLength;
      EntriesStep(vals, from, '\0', end);
      ListPieceReads(vals, from, Entries(vals, from + 1, '\0') + end);
      ListEntriesRead(vals, from + 1, end);
    }
  }

  /** And from its list, whatever follows it. */
  lemma {:induction false} ListReadsBack(vals: Values, rest: string)
    requires AreWritable(vals)
    ensures ReadList(ListText(vals) + rest, BLANK) == Parse(true, vals)
  {
    var end := ['\0'] + rest;
    MergedFromStart(vals);
    hide Merged, ReadList, Entries, AreWritable;
    ListEntriesRead(vals, 0, end);
    assert Entries(vals, 0, '\0') + ['\0'] + rest == Entries(vals, 0, '\0') + end;
  }

  /** The longest string or list is within the reach of the 16-bit lengths the functions take. */
  lemma {:induction false} EntriesFit(vals: Values, from: nat, close: char)
    requires from <= ATTRIBUTES
    ensures |Entries(vals, from, close)| <= 790 * (ATTRIBUTES - from) < MAX_SHORT
    decreases ATTRIBUTES - from
  {
    if from < ATTRIBUTES {
      KeywordIsWord(from);
      hide Keyword, NeedsBraces;
      EntriesFit(vals, from + 1, close);
    }
  }
}
