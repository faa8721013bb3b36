/** Connection strings as a grammar, character by character, and that the parser reads just these. */
module ConnGrammar {
  import opened ConnRoundTrip
  import opened ConnStrings
  import opened SqlLiterals

  // ---- gaps ---------------------------------------------------------------------------------------

  /** What may stand around keywords, values and the signs between them; a semicolon only between pairs. */
  predicate IsGapChar(c: char, between: bool) {
    c == ' ' || c == '\t' || c == '\r' || c == '\n' || (between && c == ';')
  }

  predicate IsGap(s: string, between: bool) {
    forall i :: 0 <= i < |s| ==> IsGapChar(s[i], between)
  }

  /** A text ends where it does, or at a NUL. */
  predicate IsOver(s: string) {
    s == "" || s[0] == '\0'
  }

  /** The text is a gap, possibly empty, and this, which is something. */
  predicate IsGapThen(s: string, between: bool, gap: string, rest: string) {
    s == gap + rest && IsGap(gap, between) && !IsOver(rest) && !IsGapChar(rest[0], between)
  }

  ghost predicate GapThen(s: string, between: bool, rest: string) {
    exists gap: string :: IsGapThen(s, between, gap, rest)
  }

  ghost predicate GapToEnd(s: string, between: bool) {
    exists gap: string, rest: string :: s == gap + rest && IsGap(gap, between) && IsOver(rest)
  }

  lemma {:induction false} GapSkipped(gap: string, rest: string, between: bool)
    requires IsGap(gap, between)
    ensures SkipWs(gap + rest, between) == SkipWs(rest, between)
  {
    if gap == "" {
      assert gap + rest == rest;
    } else {
      assert (gap + rest)[1..] == gap[1..] + rest;
      GapSkipped(gap[1..], rest, between);
    }
  }

  lemma {:induction false} GapOf(s: string, between: bool) returns (gap: string, rest: string)
    ensures s == gap + rest && IsGap(gap, between) && (IsOver(rest) || !IsGapChar(rest[0], between))
    ensures SkipWs(s, between) == if IsOver(rest) then AtEnd else At(rest)
  {
    if s != "" && IsGapChar(s[0], between) {
      var more;
      more, rest := GapOf(s[1..], between);
      gap := [s[0]] + more;
    } else {
      gap, rest := "", s;
    }
  }

  lemma {:induction false} StandsStill(rest: string, between: bool)
    requires !IsOver(rest) && !IsGapChar(rest[0], between)
    ensures SkipWs(rest, between) == At(rest)
  {
  }

  lemma {:induction false} NothingToSkip(rest: string, between: bool)
    requires IsOver(rest)
    ensures SkipWs(rest, between) == AtEnd
  {
  }

  /** White space is skipped exactly up to what is not a gap, or the end. */
  lemma {:induction false} SkipIff(s: string, between: bool, rest: string)
    ensures SkipWs(s, between) == At(rest) <==> GapThen(s, between, rest)
    ensures SkipWs(s, between) == AtEnd <==> GapToEnd(s, between)
  {
    hide SkipWs, IsGap, IsGapChar;
    var g, r := GapOf(s, between);
    if SkipWs(s, between) == At(rest) {
      assert IsGapThen(s, between, g, rest);
    }
    forall gap: string | IsGapThen(s, between, gap, rest)
      ensures SkipWs(s, between) == At(rest)
    {
      GapSkipped(gap, rest, between);
      StandsStill(rest, between);
    }
    forall gap: string, end: string | s == gap + end && IsGap(gap, between) && IsOver(end)
      ensures SkipWs(s, between) == AtEnd
    {
      GapSkipped(gap, end, between);
      NothingToSkip(end, between);
    }
  }

  // ---- tokens -------------------------------------------------------------------------------------

  /** What a value outside braces is made of, and a keyword. */
  predicate IsPlainChar(isValue: bool, c: char) {
    if isValue then c != ';' && c != '\0'
    else c != ' ' && c != '\t' && c != '\r' && c != '\n' && c != '=' && c != ';' && c != '\\' && c != '\0'
  }

  /** What follows a value outside braces, and a keyword. */
  predicate IsTokenEnd(isValue: bool, rest: string) {
    rest == "" || (if isValue then rest[0] == ';' || rest[0] == '\0'
                   else rest[0] == ' ' || rest[0] == '\t' || rest[0] == '\r' || rest[0] == '\n' || rest[0] == '=')
  }

  predicate IsPlainToken(isValue: bool, t: string) {
    (t != "" ==> t[0] != '{') && forall i :: 0 <= i < |t| ==> IsPlainChar(isValue, t[i])
  }

  /** What either may hold in braces. */
  predicate IsBracedChar(isValue: bool, c: char) {
    c != '{' && c != '}' && c != '\0' && (c == '\\' ==> isValue)
  }

  predicate IsBracedToken(isValue: bool, t: string) {
    forall i :: 0 <= i < |t| ==> IsBracedChar(isValue, t[i])
  }

  /** A token, with or without braces, and what follows it. */
  predicate IsToken(isValue: bool, s: string, token: string, rest: string) {
    || (s == token + rest && IsPlainToken(isValue, token) && IsTokenEnd(isValue, rest))
    || (s == "{" + token + "}" + rest && IsBracedToken(isValue, token))
  }

  /** Where a token without braces ends, if it does. */
  lemma {:induction false} PlainEndOf(isValue: bool, s: string, i: nat) returns (e: nat)
    requires i <= |s| && (i == 0 && s != "" ==> s[0] != '{')
    ensures i <= e <= |s| && forall k :: i <= k < e ==> IsPlainChar(isValue, s[k])
    ensures e < |s| ==> !IsPlainChar(isValue, s[e])
    ensures TokenEnd(isValue, s, i, false) == if IsTokenEnd(isValue, s[e..]) then EndsAt(e, false) else BadToken
    decreases |s| - i
  {
    if i < |s| && IsPlainChar(isValue, s[i]) {
      e := PlainEndOf(isValue, s, i + 1);
    } else {
      e := i;
    }
  }

  /** Where one in braces does. */
  lemma {:induction false} BracedEndOf(isValue: bool, s: string, i: nat) returns (e: nat)
    requires 0 < i <= |s|
    ensures i <= e <= |s| && forall k :: i <= k < e ==> IsBracedChar(isValue, s[k])
    ensures e < |s| ==> !IsBracedChar(isValue, s[e])
    ensures TokenEnd(isValue, s, i, true) == if e < |s| && s[e] == '}' then EndsAt(e + 1, true) else BadToken
    decreases |s| - i
  {
    if i < |s| && IsBracedChar(isValue, s[i]) {
      e := BracedEndOf(isValue, s, i + 1);
    } else {
      e := i;
    }
  }

  lemma {:induction false} OpensBrace(isValue: bool, s: string)
    requires s != "" && s[0] == '{'
    ensures TokenEnd(isValue, s, 0, false) == TokenEnd(isValue, s, 1, true)
  {
  }

  lemma {:induction false} EndIsNotPlain(isValue: bool, rest: string)
    requires IsTokenEnd(isValue, rest) && rest != ""
    ensures !IsPlainChar(isValue, rest[0])
  {
  }

  lemma {:induction false} PlainTokenIff(isValue: bool, s: string, token: string, rest: string)
    requires s != "" ==> s[0] != '{'
    ensures ReadToken(isValue, s) == Token(token, rest) <==> IsToken(isValue, s, token, rest)
  {
    var e := PlainEndOf(isValue, s, 0);
    hide TokenEnd, IsPlainChar;
    assert s == s[..e] + s[e..];
    if s == token + rest && IsPlainToken(isValue, token) && IsTokenEnd(isValue, rest) {
      assert rest != "" ==> s[|token|] == rest[0];
      if rest != "" {
        EndIsNotPlain(isValue, rest);
      }
      assert forall k :: 0 <= k < |token| ==> s[k] == token[k];
      assert e == |token|;
      assert s[..e] == token && s[e..] == rest;
    }
  }

  lemma {:induction false} NoPlainBrace(isValue: bool, s: string, token: string, rest: string)
    requires s != "" && s[0] == '{'
    ensures !(s == token + rest && IsPlainToken(isValue, token) && IsTokenEnd(isValue, rest))
  {
    if token != "" {
      assert (token + rest)[0] == token[0];
    }
  }

  lemma {:induction false} BracedTokenIff(isValue: bool, s: string, token: string, rest: string)
    requires s != "" && s[0] == '{'
    ensures ReadToken(isValue, s) == Token(token, rest) <==> IsToken(isValue, s, token, rest)
  {
    OpensBrace(isValue, s);
    var e := BracedEndOf(isValue, s, 1);
    hide TokenEnd, IsPlainChar;
    if e < |s| {
      assert s == "{" + s[1..e] + [s[e]] + s[e + 1..];
    }
    if s == "{" + token + "}" + rest && IsBracedToken(isValue, token) {
      assert forall k :: 0 <= k < |token| ==> s[k + 1] == token[k];
      assert s[|token| + 1] == '}';
      assert e == |token| + 1;
      assert s[1..e] == token && s[e + 1..] == rest;
    }
    NoPlainBrace(isValue, s, token, rest);
  }

  /** The token parser reads exactly the tokens there are. */
  lemma {:induction false} TokenIff(isValue: bool, s: string, token: string, rest: string)
    ensures ReadToken(isValue, s) == Token(token, rest) <==> IsToken(isValue, s, token, rest)
  {
    hide ReadToken, IsToken;
    if s != "" && s[0] == '{' {
      BracedTokenIff(isValue, s, token, rest);
    } else {
      PlainTokenIff(isValue, s, token, rest);
    }
  }

  lemma {:induction false} TokensAre(isValue: bool, s: string)
    ensures match ReadToken(isValue, s)
            case Token(token, rest) => IsToken(isValue, s, token, rest)
            case NoToken => forall token: string, rest: string :: !IsToken(isValue, s, token, rest)
  {
    hide ReadToken, IsToken;
    forall token: string, rest: string
      ensures ReadToken(isValue, s) == Token(token, rest) <==> IsToken(isValue, s, token, rest)
    {
      TokenIff(isValue, s, token, rest);
    }
  }

  // ---- pairs --------------------------------------------------------------------------------------

  /** A keyword, `=`, and what follows the gap after it. */
  ghost predicate IsOpened(s: string, s1: string, keyword: string, s2: string, s3: string) {
    GapThen(s, true, s1) && IsToken(false, s1, keyword, s2) && GapThen(s2, false, "=" + s3)
  }

  ghost predicate IsPair(s: string, keyword: string, value: string, rest: string) {
    exists s1: string, s2: string, s3: string, s4: string ::
      IsOpened(s, s1, keyword, s2, s3) && GapThen(s3, false, s4) && IsToken(true, s4, value, rest)
  }

  /** The text ends, or does so after a keyword and its `=`. */
  ghost predicate IsEnd(s: string) {
    || GapToEnd(s, true)
    || exists s1: string, keyword: string, s2: string, s3: string ::
         IsOpened(s, s1, keyword, s2, s3) && GapToEnd(s3, false)
  }

  /** What the parser does after a keyword and its `=`. */
  lemma {:induction false} OpenedReads(s: string, s1: string, keyword: string, s2: string, s3: string)
    requires IsOpened(s, s1, keyword, s2, s3)
    ensures NextPair(s)
         == match SkipWs(s3, false)
            case AtEnd => Done
            case At(s4) =>
              match ReadToken(true, s4) { case NoToken => Broken case Token(value, rest) => Pair(keyword, value, rest) }
  {
    hide SkipWs, ReadToken, GapThen, IsToken;
    SkipIff(s, true, s1);
    TokenIff(false, s1, keyword, s2);
    SkipIff(s2, false, "=" + s3);
    assert ("=" + s3)[1..] == s3;
  }

  lemma {:induction false} OpenedFound(s: string) returns (s1: string, keyword: string, s2: string, s3: string)
    requires !NextPair(s).Broken? && SkipWs(s, true) != AtEnd
    ensures IsOpened(s, s1, keyword, s2, s3)
  {
    hide SkipWs, ReadToken, GapThen, IsToken;
    s1 := SkipWs(s, true).rest;
    SkipIff(s, true, s1);
    keyword, s2 := ReadToken(false, s1).text, ReadToken(false, s1).rest;
    TokenIff(false, s1, keyword, s2);
    var at := SkipWs(s2, false).rest;
    s3 := at[1..];
    assert at == "=" + s3;
    SkipIff(s2, false, at);
  }

  lemma {:induction false} NotAtEnd(s: string)
    ensures SkipWs(s, true) == AtEnd ==> NextPair(s) == Done
  {
  }

  /** The next pair is read exactly where there is one, and the text is over exactly where it ends. */
  lemma {:induction false} PairIff(s: string, keyword: string, value: string, rest: string)
    ensures NextPair(s) == Pair(keyword, value, rest) <==> IsPair(s, keyword, value, rest)
  {
    hide SkipWs, ReadToken, GapThen, IsToken, NextPair, IsOpened;
    if NextPair(s) == Pair(keyword, value, rest) {
      NotAtEnd(s);
      var s1, k, s2, s3 := OpenedFound(s);
      OpenedReads(s, s1, k, s2, s3);
      var s4 := SkipWs(s3, false).rest;
      SkipIff(s3, false, s4);
      TokenIff(true, s4, value, rest);
      assert IsOpened(s, s1, keyword, s2, s3) && GapThen(s3, false, s4) && IsToken(true, s4, value, rest);
    }
    if IsPair(s, keyword, value, rest) {
      var s1: string, s2: string, s3: string, s4: string :|
        IsOpened(s, s1, keyword, s2, s3) && GapThen(s3, false, s4) && IsToken(true, s4, value, rest);
      OpenedReads(s, s1, keyword, s2, s3);
      SkipIff(s3, false, s4);
      TokenIff(true, s4, value, rest);
    }
  }

  lemma {:induction false} EndIff(s: string)
    ensures NextPair(s) == Done <==> IsEnd(s)
  {
    hide SkipWs, ReadToken, GapThen, GapToEnd, IsToken, NextPair, IsOpened;
    NotAtEnd(s);
    SkipIff(s, true, "");
    if NextPair(s) == Done && SkipWs(s, true) != AtEnd {
      var s1, k, s2, s3 := OpenedFound(s);
      OpenedReads(s, s1, k, s2, s3);
      SkipIff(s3, false, "");
      assert IsOpened(s, s1, k, s2, s3) && GapToEnd(s3, false);
    }
    forall s1: string, keyword: string, s2: string, s3: string | IsOpened(s, s1, keyword, s2, s3) && GapToEnd(s3, false)
      ensures NextPair(s) == Done
    {
      OpenedReads(s, s1, keyword, s2, s3);
      SkipIff(s3, false, "");
    }
  }

  // ---- attributes ---------------------------------------------------------------------------------

  /** The same letter, in either case, or the same character. */
  predicate IsSameLetter(c: char, d: char) {
    || c == d
    || ('A' <= c <= 'Z' && d as int - 'a' as int == c as int - 'A' as int)
    || ('A' <= d <= 'Z' && c as int - 'a' as int == d as int - 'A' as int)
  }

  /** The keyword is that of the attribute, in any case. */
  predicate Names(keyword: string, i: nat)
    requires i < ATTRIBUTES
  {
    |keyword| == |Keyword(i)| && forall k :: 0 <= k < |keyword| ==> IsSameLetter(keyword[k], Keyword(i)[k])
  }

  lemma {:induction false} SameLetters(c: char, d: char)
    ensures Lower(c) == Lower(d) <==> IsSameLetter(c, d)
  {
  }

  lemma {:induction false} NamesInAnyCase(keyword: string, i: nat)
    requires i < ATTRIBUTES
    ensures Names(keyword, i) <==> LowerAll(Keyword(i)) == LowerAll(keyword)
  {
    var a, b := LowerAll(keyword), LowerAll(Keyword(i));
    hide Keyword, LowerAll, Lower, IsSameLetter;
    if |keyword| == |Keyword(i)| {
      forall k | 0 <= k < |keyword|
        ensures IsSameLetter(keyword[k], Keyword(i)[k]) <==> a[k] == b[k]
      {
        SameLetters(keyword[k], Keyword(i)[k]);
      }
    }
  }

  /** A keyword finds the attribute it names, and no other. */
  lemma {:induction false} FindsNamed(keyword: string, from: nat)
    requires from <= ATTRIBUTES
    ensures var found := FindKeyword(keyword, from);
            forall i :: from <= i < ATTRIBUTES ==> (found == i <==> Names(keyword, i))
    decreases ATTRIBUTES - from
  {
    hide Keyword, LowerAll, Names;
    if from < ATTRIBUTES {
      NamesInAnyCase(keyword, from);
      if LowerAll(Keyword(from)) == LowerAll(keyword) {
        forall i | from < i < ATTRIBUTES
          ensures !Names(keyword, i)
        {
          NamesInAnyCase(keyword, i);
          if Names(keyword, i) {
            KeywordsDiffer(from, i);
          }
        }
      } else {
        FindsNamed(keyword, from + 1);
      }
    }
  }

  /** A value is assigned to the attribute its keyword names, unless it is too long; other keywords are
      ignored. */
  lemma {:induction false} AssignIff(vals: Values, keyword: string, value: string)
    ensures Assign(vals, keyword, value).TooLong? <==> |value| > 768
    ensures |value| <= 768 ==>
              forall i :: 0 <= i < ATTRIBUTES ==>
                Assign(vals, keyword, value).vals[i] == if Names(keyword, i) then value else vals[i]
  {
    hide Keyword, LowerAll, Names, FindKeyword;
    FindsNamed(keyword, 0);
  }

  // ---- the whole text -----------------------------------------------------------------------------

  /** The text consists of these pairs. */
  ghost predicate Says(s: string, pairs: seq<(string, string)>)
    decreases |pairs|
  {
    if pairs == [] then IsEnd(s)
    else exists rest: string :: IsPair(s, pairs[0].0, pairs[0].1, rest) && Says(rest, pairs[1..])
  }

  predicate AreShort(pairs: seq<(string, string)>) {
    forall j :: 0 <= j < |pairs| ==> |pairs[j].1| <= 768
  }

  /** The last pair that names the attribute gives its value; if there is none, it stays. */
  function ValueOf(pairs: seq<(string, string)>, i: nat, before: string): string
    requires i < ATTRIBUTES
  {
    if pairs == [] then before
    else if Names(pairs[|pairs| - 1].0, i) then pairs[|pairs| - 1].1
    else ValueOf(pairs[..|pairs| - 1], i, before)
  }

  predicate AreValues(pairs: seq<(string, string)>, before: Values, after: Values) {
    forall i :: 0 <= i < ATTRIBUTES ==> after[i] == ValueOf(pairs, i, before[i])
  }

  lemma {:induction false} FirstPair(pairs: seq<(string, string)>, i: nat, before: string)
    requires i < ATTRIBUTES && pairs != []
    ensures ValueOf(pairs, i, before)
         == ValueOf(pairs[1..], i, if Names(pairs[0].0, i) then pairs[0].1 else before)
  {
    hide Names;
    if |pairs| == 1 {
      assert pairs[..0] == [] && pairs[1..] == [];
    } else {
      FirstPair(pairs[..|pairs| - 1], i, before);
      assert pairs[..|pairs| - 1][1..] == pairs[1..][..|pairs| - 2];
    }
  }

  /** After the first pair, the others are assigned to what it has left. */
  lemma {:induction false} AssignedInTurn(pairs: seq<(string, string)>, before: Values, mid: Values, after: Values)
    requires pairs != [] && |pairs[0].1| <= 768 && Assign(before, pairs[0].0, pairs[0].1) == Assigned.Assigned(mid)
    ensures AreValues(pairs, before, after) <==> AreValues(pairs[1..], mid, after)
  {
    hide Names, Assign, ValueOf;
    AssignIff(before, pairs[0].0, pairs[0].1);
    forall i | 0 <= i < ATTRIBUTES
      ensures ValueOf(pairs, i, before[i]) == ValueOf(pairs[1..], i, mid[i])
    {
      FirstPair(pairs, i, before[i]);
    }
  }

  ghost predicate IsReading(s: string, pairs: seq<(string, string)>, before: Values, after: Values) {
    Says(s, pairs) && AreShort(pairs) && AreValues(pairs, before, after)
  }

  lemma {:induction false} NothingSaid(before: Values, after: Values)
    ensures AreValues([], before, after) <==> after == before
  {
  }

  lemma {:induction false} TextFound(s: string, before: Values, after: Values) returns (pairs: seq<(string, string)>)
    requires ReadAll(s, before) == Parse(true, after)
    ensures IsReading(s, pairs, before, after)
    decreases |s|
  {
    hide NextPair, Assign, IsPair, AreValues, IsEnd;
    match NextPair(s)
    case Done =>
      pairs := [];
      EndIff(s);
      NothingSaid(before, after);
    case Pair(keyword, value, rest) =>
      var mid := Assign(before, keyword, value).vals;
      AssignIff(before, keyword, value);
      var more := TextFound(rest, mid, after);
      pairs := [(keyword, value)] + more;
      assert pairs[1..] == more;
      PairIff(s, keyword, value, rest);
      AssignedInTurn(pairs, before, mid, after);
  }

  lemma {:induction false} TextReads(s: string, pairs: seq<(string, string)>, before: Values, after: Values)
    requires IsReading(s, pairs, before, after)
    ensures ReadAll(s, before) == Parse(true, after)
    decreases |pairs|
  {
    hide NextPair, Assign, IsPair, AreValues, IsEnd;
    if pairs == [] {
      EndIff(s);
      NothingSaid(before, after);
    } else {
      var (keyword, value) := pairs[0];
      var rest: string :| IsPair(s, keyword, value, rest) && Says(rest, pairs[1..]);
      PairIff(s, keyword, value, rest);
      AssignIff(before, keyword, value);
      var mid := Assign(before, keyword, value).vals;
      AssignedInTurn(pairs, before, mid, after);
      TextReads(rest, pairs[1..], mid, after);
    }
  }

  /** A text is parsed exactly if it consists of pairs with values of at most 768 characters, and then each
      attribute has the value of the last pair that names it. */
  lemma {:induction false} ReadAllIff(s: string, before: Values, after: Values)
    ensures ReadAll(s, before) == Parse(true, after)
       <==> exists pairs: seq<(string, string)> :: IsReading(s, pairs, before, after)
  {
    hide ReadAll, IsReading;
    if ReadAll(s, before) == Parse(true, after) {
      var pairs := TextFound(s, before, after);
    }
    forall pairs: seq<(string, string)> | IsReading(s, pairs, before, after)
      ensures ReadAll(s, before) == Parse(true, after)
    {
      TextReads(s, pairs, before, after);
    }
  }

  lemma {:induction false} SameReading(s: string, t: string, vals: Values)
    requires NextPair(s) == NextPair(t)
    ensures ReadAll(s, vals) == ReadAll(t, vals)
  {
    hide NextPair, Assign;
  }

  lemma {:induction false} OpensWith(a: string, keyword: string, b: string, s3: string)
    requires IsGap(a, true) && IsGap(b, false) && keyword != "" && IsPlainToken(false, keyword)
    ensures IsOpened(a + (keyword + (b + ("=" + s3))), keyword + (b + ("=" + s3)), keyword, b + ("=" + s3), s3)
  {
    var s2 := b + ("=" + s3);
    var s1 := keyword + s2;
    assert s1[0] == keyword[0] && IsPlainChar(false, keyword[0]);
    assert IsGapThen(a + s1, true, a, s1);
    assert IsGapThen(s2, false, b, "=" + s3);
    assert s2[0] == if b == "" then '=' else b[0];
  }

  /** Gaps before a keyword, and around the `=`, make no difference. */
  lemma {:induction false} GapsDoNotMatter(a: string, keyword: string, b: string, c: string, rest: string, vals: Values)
    requires IsGap(a, true) && IsGap(b, false) && IsGap(c, false)
    requires keyword != "" && IsPlainToken(false, keyword)
    ensures ReadAll(a + keyword + b + "=" + c + rest, vals) == ReadAll(keyword + "=" + rest, vals)
  {
    var s, t := a + keyword + b + "=" + c + rest, keyword + "=" + rest;
    var later := "=" + (c + rest);
    assert s == a + (keyword + (b + later)) && t == "" + (keyword + ("" + ("=" + rest)));
    hide ReadAll, IsPlainChar;
    OpensWith(a, keyword, b, c + rest);
    OpensWith("", keyword, "", rest);
    OpenedReads(s, keyword + (b + later), keyword, b + later, c + rest);
    OpenedReads(t, keyword + ("" + ("=" + rest)), keyword, "" + ("=" + rest), rest);
    GapSkipped(c, rest, false);
    SameReading(s, t, vals);
  }

  lemma {:induction false} ReadingsAre(s: string, before: Values)
    ensures var p := ReadAll(s, before);
            if p.ok then exists pairs: seq<(string, string)> :: IsReading(s, pairs, before, p.vals)
            else forall pairs: seq<(string, string)>, after: Values :: !IsReading(s, pairs, before, after)
  {
    hide ReadAll, IsReading;
    var p := ReadAll(s, before);
    ReadAllIff(s, before, p.vals);
    forall pairs: seq<(string, string)>, after: Values | IsReading(s, pairs, before, after)
      ensures p.ok
    {
      ReadAllIff(s, before, after);
    }
  }

  // ---- lists --------------------------------------------------------------------------------------

  lemma {:induction false} EntryEnds(entry: string, rest: string)
    requires '\0' !in entry && IsOver(rest)
    ensures EntryLength(entry + rest) == |entry|
  {
    var s := entry + rest;
    if entry == "" {
      assert s == rest;
    } else {
      assert s[1..] == entry[1..] + rest;
      assert entry[0] in entry;
      EntryEnds(entry[1..], rest);
    }
  }

  /** A list is read entry by entry, each up to its NUL or the end of the text; it ends with an entry that is
      empty, and fails with one of more than 32767 characters. */
  lemma {:induction false} ListReads(entry: string, rest: string, vals: Values)
    requires '\0' !in entry && IsOver(rest)
    ensures ReadList(entry + rest, vals)
         == if entry == "" then Parse(true, vals)
            else if |entry| > 32767 then Parse(false, vals)
            else
              var p := ReadAll(entry, vals);
              if p.ok && rest != "" then ReadList(rest[1..], p.vals) else p
  {
    hide ReadAll;
    var s := entry + rest;
    EntryEnds(entry, rest);
    assert s[..|entry|] == entry && (rest != "" ==> s[|entry| + 1..] == rest[1..]);
  }
}
