/** Attributes that are not writable are not restored. */
module ConnFailures {
  import opened SqlLiterals
  import opened ConnStrings
  import opened ConnRoundTrip

  // ---- what a value can be read as ----------------------------------------------------------------

  /** Values in braces hold no brace, values without hold no semicolon and start with no brace. */
  predicate IsProducible(v: string) {
    && '\0' !in v
    && (('{' !in v && '}' !in v) || (';' !in v && (v == "" || v[0] != '{')))
  }

  lemma {:induction false} BracedHasNone(s: string, i: nat)
    requires 0 < i <= |s|
    ensures var r := TokenEnd(true, s, i, true);
            r.EndsAt? ==> r.braced && r.end > i
                          && forall k :: i <= k < r.end - 1 ==> s[k] != '{' && s[k] != '}' && s[k] != '\0'
    decreases |s| - i
  {
    if i < |s| && s[i] != '}' {
      BracedHasNone(s, i + 1);
    }
  }

  lemma {:induction false} PlainHasNone(s: string, i: nat)
    requires 0 < i <= |s|
    ensures var r := TokenEnd(true, s, i, false);
            r.EndsAt? && !r.braced && forall k :: i <= k < r.end ==> s[k] != ';' && s[k] != '\0'
    decreases |s| - i
  {
    if i < |s| && s[i] != ';' && s[i] != '\0' {
      PlainHasNone(s, i + 1);
    }
  }

  lemma {:induction false} TokenIsProducible(s: string)
    ensures var t := ReadToken(true, s); t.Token? ==> IsProducible(t.text)
  {
    if s != "" {
      BracedHasNone(s, 1);
      PlainHasNone(s, 1);
    }
  }

  lemma {:induction false} PairIsProducible(s: string)
    ensures NextPair(s).Pair? ==> IsProducible(NextPair(s).value)
  {
    hide ReadToken, IsProducible;
    forall t: string
      ensures ReadToken(true, t).Token? ==> IsProducible(ReadToken(true, t).text)
    {
      TokenIsProducible(t);
    }
  }

  lemma {:induction false} ReadIsProducible(s: string, vals: Values, i: nat)
    requires i < ATTRIBUTES
    ensures ReadAll(s, vals).vals[i] == vals[i] || IsProducible(ReadAll(s, vals).vals[i])
    decreases |s|
  {
    hide NextPair, FindKeyword, IsProducible;
    PairIsProducible(s);
    var p := NextPair(s);
    if p.Pair? && Assign(vals, p.keyword, p.value).Assigned? {
      ReadIsProducible(p.rest, Assign(vals, p.keyword, p.value).vals, i);
    }
  }

  lemma {:induction false} ListIsProducible(s: string, vals: Values, i: nat)
    requires i < ATTRIBUTES
    ensures ReadList(s, vals).vals[i] == vals[i] || IsProducible(ReadList(s, vals).vals[i])
    decreases |s|
  {
    hide ReadAll, IsProducible;
    var n := EntryLength(s);
    if 0 < n <= MAX_SHORT {
      var p := ReadAll(s[..n], vals);
      ReadIsProducible(s[..n], vals, i);
      if p.ok && n < |s| {
        ListIsProducible(s[n + 1..], p.vals, i);
      }
    }
  }

  // ---- what is left of a value that broke out of its braces -------------------------------------------

  /** The rest of an entry after a brace that closed too early: it ends with the brace meant to close. */
  predicate IsRemainder(r: string) {
    (r == "" || r[|r| - 1] == '}') && ';' !in r && '\0' !in r
  }

  lemma {:induction false} SuffixIsRemainder(r: string, k: nat)
    requires IsRemainder(r) && k <= |r|
    ensures IsRemainder(r[k..])
  {
  }

  /** What comes after: the end, or the next entry. */
  predicate IsTail(tail: string) {
    tail == "" || tail[0] == ';'
  }

  lemma {:induction false} SkipsWithin(r: string, tail: string, extended: bool) returns (k: nat)
    requires IsRemainder(r) && r != ""
    ensures k < |r| && SkipWs(r + tail, extended) == At(r[k..] + tail)
  {
    assert r[0] in r && (r + tail)[0] == r[0];
    if IsBlank(r[0]) {
      assert (r + tail)[1..] == r[1..] + tail;
      k := SkipsWithin(r[1..], tail, extended);
      k := k + 1;
    } else {
      k := 0;
      assert r[0..] == r;
    }
  }

  lemma {:induction false} OpenEndsWithin(isValue: bool, r: string, tail: string, i: nat)
    requires IsRemainder(r) && 0 < i < |r|
    ensures var e := TokenEnd(isValue, r + tail, i, true); e.EndsAt? ==> e.end <= |r|
    decreases |r| - i
  {
    assert (r + tail)[i] == r[i];
    if i + 1 < |r| {
      OpenEndsWithin(isValue, r, tail, i + 1);
    }
  }

  lemma {:induction false} KeywordEndsWithin(r: string, tail: string, i: nat)
    requires IsRemainder(r) && IsTail(tail) && i <= |r| && (i == 0 ==> r != "" && r[0] != '{')
    ensures var e := TokenEnd(false, r + tail, i, false); e.EndsAt? ==> e.end <= |r|
    decreases |r| - i
  {
    if i < |r| {
      assert (r + tail)[i] == r[i];
      KeywordEndsWithin(r, tail, i + 1);
    } else if tail != "" {
      assert (r + tail)[i] == ';';
    }
  }

  lemma {:induction false} PlainRunsOut(r: string, tail: string, i: nat)
    requires IsRemainder(r) && IsTail(tail) && i <= |r| && (i == 0 ==> r != "" && r[0] != '{')
    ensures TokenEnd(true, r + tail, i, false) == EndsAt(|r|, false)
    decreases |r| - i
  {
    if i < |r| {
      assert (r + tail)[i] == r[i] && r[i] in r;
      PlainRunsOut(r, tail, i + 1);
    } else if tail != "" {
      assert (r + tail)[i] == ';';
    }
  }

  /** A token of a remainder ends within it. */
  lemma {:induction false} TokenEndsWithin(isValue: bool, r: string, tail: string) returns (e: nat)
    requires IsRemainder(r) && r != "" && IsTail(tail)
    ensures var t := ReadToken(isValue, r + tail);
            t.Token? ==> e <= |r| && t.rest == r[e..] + tail && |t.text| <= |r|
  {
    var s := r + tail;
    assert s[0] == r[0];
    if r[0] == '{' {
      if |r| > 1 {
        OpenEndsWithin(isValue, r, tail, 1);
      }
    } else if isValue {
      PlainRunsOut(r, tail, 0);
    } else {
      KeywordEndsWithin(r, tail, 0);
    }
    var end := TokenEnd(isValue, s, 0, false);
    e := if end.EndsAt? then end.end else 0;
    if end.EndsAt? {
      assert e <= |r|;
      assert s[e..] == r[e..] + tail;
    }
  }

  /** Only values shorter than this have been assigned. */
  ghost predicate OnlyShorter(before: Values, after: Values, bound: nat) {
    forall i :: 0 <= i < ATTRIBUTES ==> after[i] == before[i] || |after[i]| < bound
  }

  /** The value after the separator. */
  lemma {:induction false} ValueWithin(r: string, tail: string) returns (e: nat)
    requires IsRemainder(r) && r != "" && IsTail(tail)
    ensures var s := SkipWs(r + tail, false);
            && s.At?
            && var t := ReadToken(true, s.rest);
               t.Token? ==> e <= |r| && t.rest == r[e..] + tail && |t.text| <= |r|
  {
    hide ReadToken;
    var k := SkipsWithin(r, tail, false);
    SuffixIsRemainder(r, k);
    e := TokenEndsWithin(true, r[k..], tail);
    e := if e <= |r| - k then k + e else 0;
    assert e >= k ==> r[k..][e - k..] == r[e..];
  }

  lemma {:induction false} NoKeyword(s: string, s1: string)
    requires SkipWs(s, true) == At(s1) && ReadToken(false, s1).NoToken?
    ensures NextPair(s) == Broken
  {
    hide ReadToken, SkipWs;
  }

  lemma {:induction false} NoEquals(s: string, s1: string, key: Token)
    requires SkipWs(s, true) == At(s1) && ReadToken(false, s1) == key && key.Token?
    requires var r := SkipWs(key.rest, false); r.At? ==> r.rest[0] != '='
    ensures NextPair(s) == Broken
  {
    hide ReadToken, SkipWs;
  }

  lemma {:induction false} PairOf(s: string, s1: string, key: Token, s3: string, s4: string)
    requires SkipWs(s, true) == At(s1) && ReadToken(false, s1) == key && key.Token?
    requires SkipWs(key.rest, false) == At(s3) && s3 != "" && s3[0] == '=' && SkipWs(s3[1..], false) == At(s4)
    ensures var value := ReadToken(true, s4);
            NextPair(s) == if value.NoToken? then Broken else Pair(key.text, value.text, value.rest)
  {
    hide ReadToken, SkipWs;
  }

  lemma {:induction false} EqualsIsNotLast(r: string, m: nat)
    requires IsRemainder(r) && m < |r| && r[m] == '='
    ensures m + 1 < |r| && IsRemainder(r[m + 1..])
  {
  }

  lemma {:induction false} NoSeparator(s: string, tail: string)
    requires s == tail && IsTail(tail)
    ensures var r := SkipWs(s, false); r.At? ==> r.rest[0] != '='
  {
  }

  /** A pair that starts in a remainder ends in it. */
  lemma {:induction false} PairWithin(r: string, tail: string) returns (e: nat)
    requires IsRemainder(r) && r != "" && IsTail(tail)
    ensures var p := NextPair(r + tail);
            && !p.Done?
            && (p.Pair? ==> 0 < e <= |r| && p.rest == r[e..] + tail && |p.value| < |r|)
  {
    hide NextPair, ReadToken, IsRemainder, SkipWs, IsTail;
    e := 0;
    var k := SkipsWithin(r, tail, true);
    SuffixIsRemainder(r, k);
    var n := TokenEndsWithin(false, r[k..], tail);
    var s1 := r[k..] + tail;
    var key := ReadToken(false, s1);
    if key.NoToken? {
      NoKeyword(r + tail, s1);
      return;
    }
    n := k + n;
    assert r[k..][n - k..] == r[n..];
    SuffixIsRemainder(r, n);
    if r[n..] == "" {
      NoSeparator(r[n..] + tail, tail);
      NoEquals(r + tail, s1, key);
      return;
    }
    var m := SkipsWithin(r[n..], tail, false);
    m := n + m;
    assert r[n..][m - n..] == r[m..];
    var s3 := r[m..] + tail;
    if r[m] != '=' {
      NoEquals(r + tail, s1, key);
      return;
    }
    SuffixIsRemainder(r, m);
    EqualsIsNotLast(r, m);
    assert s3[1..] == r[m + 1..] + tail;
    e := ValueWithin(r[m + 1..], tail);
    PairOf(r + tail, s1, key, s3, SkipWs(s3[1..], false).rest);
    e := if e <= |r| - m - 1 then m + 1 + e else 0;
    assert e > 0 ==> r[m + 1..][e - m - 1..] == r[e..];
  }

  /** A remainder is a fault, or is read up to its end, and assigns nothing longer than it is. */
  lemma {:induction false} RemainderReads(r: string, tail: string, vals: Values) returns (after: Values)
    requires IsRemainder(r) && IsTail(tail)
    ensures !ReadAll(r + tail, vals).ok || ReadAll(r + tail, vals) == ReadAll(tail, after)
    ensures OnlyShorter(vals, after, |r|)
    decreases |r|
  {
    after := vals;
    if r == "" {
      assert r + tail == tail;
      return;
    }
    hide NextPair, FindKeyword, IsRemainder;
    var e := PairWithin(r, tail);
    var p := NextPair(r + tail);
    if p.Pair? && Assign(vals, p.keyword, p.value).Assigned? {
      SuffixIsRemainder(r, e);
      after := RemainderReads(r[e..], tail, Assign(vals, p.keyword, p.value).vals);
    }
  }

  // ---- entries that do not hold their value -----------------------------------------------------------

  /** The first brace within the braces is a fault, or ends the value. */
  lemma {:induction false} FirstBrace(v: string, tail: string, j: nat) returns (k: nat)
    requires j <= |v| && '\0' !in v && ('{' in v[j..] || '}' in v[j..])
    ensures j <= k < |v|
    ensures var r := TokenEnd(true, "{" + v + "}" + tail, j + 1, true);
            r == BadToken || (r == EndsAt(k + 2, true) && v[k] == '}')
    decreases |v| - j
  {
    var s := "{" + v + "}" + tail;
    k := j;
    assert s[j + 1] == v[j] && v[j] in v;
    if v[j] != '{' && v[j] != '}' {
      assert v[j..] == [v[j]] + v[j + 1..];
      k := FirstBrace(v, tail, j + 1);
    }
  }

  /** A value that is not writable, though another text would be read as it. */
  predicate IsBroken(v: string) {
    !IsWritable(v) && IsProducible(v)
  }

  lemma {:induction false} BrokenSlices(v: string, tail: string, k: nat)
    requires k < |v|
    ensures var s := "{" + v + "}" + tail; s[1..k + 1] == v[..k] && s[k + 2..] == (v[k + 1..] + "}") + tail
  {
  }

  lemma {:induction false} BrokenValue(v: string, tail: string) returns (k: nat)
    requires IsBroken(v)
    ensures v != "" && k < |v| && IsRemainder(v[k + 1..] + "}")
    ensures SkipWs(Enclosed(v) + tail, false) == At(Enclosed(v) + tail)
    ensures var t := ReadToken(true, Enclosed(v) + tail);
            t == NoToken || t == Token(v[..k], (v[k + 1..] + "}") + tail)
  {
    var s := "{" + v + "}" + tail;
    assert v[0..] == v;
    assert Enclosed(v) + tail == s && s[0] == '{';
    k := FirstBrace(v, tail, 0);
    BrokenSlices(v, tail, k);
    hide NeedsBraces, Enclosed;
  }

  lemma {:induction false} BrokenPair(i: nat, v: string, tail: string) returns (k: nat)
    requires i < ATTRIBUTES && IsBroken(v)
    ensures k < |v| && IsRemainder(v[k + 1..] + "}")
    ensures var p := NextPair(Entry(i, v) + tail);
            p == Broken || p == Pair(Keyword(i), v[..k], (v[k + 1..] + "}") + tail)
  {
    var valueText := Enclosed(v) + tail;
    assert Entry(i, v) + tail == Keyword(i) + ("=" + valueText);
    KeywordReads(i, valueText);
    assert ("=" + valueText)[1..] == valueText;
    EqualsStands("=" + valueText);
    hide IsBroken, IsRemainder, Keyword, ReadToken, Enclosed, SkipWs;
    k := BrokenValue(v, tail);
  }

  /** The entry of a broken value is a fault, or leaves its attribute with a shorter one. */
  lemma {:induction false} BrokenEntryReads(i: nat, v: string, tail: string, vals: Values) returns (after: Values)
    requires i < ATTRIBUTES && IsBroken(v) && IsTail(tail) && |v| <= MAX_ATTRIBUTE
    ensures var p := ReadAll(Entry(i, v) + tail, vals); !p.ok || p == ReadAll(tail, after)
    ensures |after[i]| < |v|
  {
    hide IsBroken, NextPair, Entry, Keyword, IsRemainder, FindKeyword, LowerAll;
    var k := BrokenPair(i, v, tail);
    KeywordFound(i, 0);
    var first := vals[i := v[..k]];
    after := RemainderReads(v[k + 1..] + "}", tail, first);
    assert |after[i]| < |v|;
  }

  // ---- the whole string -----------------------------------------------------------------------------

  predicate AreProducible(vals: Values) {
    forall i :: 0 <= i < ATTRIBUTES ==> IsProducible(vals[i])
  }

  /** The last attribute that is not writable. */
  ghost predicate IsLast(vals: Values, l: nat) {
    l < ATTRIBUTES && !IsWritable(vals[l]) && forall j :: l < j < ATTRIBUTES ==> IsWritable(vals[j])
  }

  lemma {:induction false} LastUnwritable(vals: Values, n: nat) returns (l: nat)
    requires n <= ATTRIBUTES && exists i :: 0 <= i < n && !IsWritable(vals[i])
    requires forall j :: n <= j < ATTRIBUTES ==> IsWritable(vals[j])
    ensures IsLast(vals, l)
  {
    hide IsWritable;
    l := n - 1;
    if IsWritable(vals[l]) {
      l := LastUnwritable(vals, n - 1);
    }
  }

  lemma {:induction false} EmptyIsWritable()
    ensures IsWritable("") && IsProducible("")
  {
  }

  /** One entry, whatever its value. */
  lemma {:induction false} AnyPieceReads(vals: Values, i: nat, rest: string, before: Values) returns (after: Values)
    requires i < ATTRIBUTES && IsProducible(vals[i])
    ensures var p := ReadAll(Piece(vals, i, ';') + rest, before);
            && (!p.ok || p == ReadAll(rest, after))
            && (IsWritable(vals[i]) ==>
                  p == ReadAll(rest, after) && forall j :: 0 <= j < ATTRIBUTES && j != i ==> after[j] == before[j])
            && (!IsWritable(vals[i]) ==> |after[i]| < |vals[i]|)
  {
    hide ReadAll, Entry, IsWritable, IsProducible;
    after := before;
    var v := vals[i];
    if v == "" {
      assert "" + rest == rest;
      EmptyIsWritable();
    } else {
      var entry := Entry(i, v);
      assert entry + ";" + rest == entry + (";" + rest);
      if IsWritable(v) {
        after := before[i := v];
        EntryReads(i, v, ";" + rest, before);
      } else {
        after := BrokenEntryReads(i, v, ";" + rest, before);
      }
      SemicolonSkipped(rest, after);
    }
  }

  lemma {:induction false} WrongStep(vals: Values, i: nat, l: nat, rest: string, before: Values) returns (after: Values)
    requires AreProducible(vals) && IsLast(vals, l) && i < ATTRIBUTES && (i > l ==> before[l] != vals[l])
    ensures var p := ReadAll(Piece(vals, i, ';') + rest, before); !p.ok || p == ReadAll(rest, after)
    ensures i >= l ==> after[l] != vals[l]
  {
    assert IsProducible(vals[i]) && (i > l ==> IsWritable(vals[i]));
    hide ReadAll, Piece, IsProducible, IsWritable, AreProducible;
    after := AnyPieceReads(vals, i, rest, before);
  }

  /** Once wrong, the last attribute that is not writable stays wrong. */
  lemma {:induction false} StaysWrong(vals: Values, from: nat, l: nat, before: Values)
    requires AreProducible(vals) && IsLast(vals, l) && from <= ATTRIBUTES
    requires from > l ==> before[l] != vals[l]
    ensures var p := ReadAll(Entries(vals, from, ';'), before); !p.ok || p.vals[l] != vals[l]
    decreases ATTRIBUTES - from
  {
    if from == ATTRIBUTES {
      assert Entries(vals, from, ';') == "";
      hide AreProducible, Entries;
      assert l < ATTRIBUTES;
    } else {
      var rest := Entries(vals, from + 1, ';');
      EntriesStep(vals, from, ';', "");
      hide *;
      assert Entries(vals, from, ';') + "" == Entries(vals, from, ';') && rest + "" == rest;
      var after := WrongStep(vals, from, l, rest, before);
      StaysWrong(vals, from + 1, l, after);
    }
  }

  /** A connection string is read back as the attributes it was written from exactly if all of them are
      writable. */
  lemma {:induction false} ConnStringRestores(vals: Values)
    ensures ReadAll(ConnText(vals), BLANK) == Parse(true, vals) <==> AreWritable(vals)
  {
    if AreWritable(vals) {
      ConnStringReadsBack(vals, "");
      assert ConnText(vals) + "" == ConnText(vals);
    } else if !AreProducible(vals) {
      var i :| 0 <= i < ATTRIBUTES && !IsProducible(vals[i]);
      EmptyIsWritable();
      ReadIsProducible(ConnText(vals), BLANK, i);
      hide ReadAll, ConnText, IsProducible, IsWritable;
    } else {
      hide ReadAll, Entries, IsProducible, IsWritable;
      var l := LastUnwritable(vals, ATTRIBUTES);
      StaysWrong(vals, 0, l, BLANK);
    }
  }

  // ---- the list -------------------------------------------------------------------------------------

  lemma {:induction false} ListFault(s: string, n: nat, vals: Values)
    requires EntryLength(s) == n && 0 < n <= MAX_SHORT && n < |s| && !ReadAll(s[..n], vals).ok
    ensures !ReadList(s, vals).ok
  {
    hide ReadAll;
  }

  /** One entry of a list, whatever its value. */
  lemma {:induction false} AnyEntryReads(i: nat, v: string, rest: string, before: Values) returns (after: Values)
    requires i < ATTRIBUTES && v != "" && |v| <= MAX_ATTRIBUTE && IsProducible(v) && '\0' !in v
    ensures var p := ReadList(Entry(i, v) + ['\0'] + rest, before);
            && (!p.ok || p == ReadList(rest, after))
            && (IsWritable(v) ==> after == before[i := v]) && (!IsWritable(v) ==> |after[i]| < |v|)
  {
    hide ReadAll, ReadList, Entry, IsProducible, IsWritable;
    var entry := Entry(i, v);
    EntryIsWhole(i, v, rest);
    if IsWritable(v) {
      after := before[i := v];
      EntryReads(i, v, "", before);
    } else {
      after := BrokenEntryReads(i, v, "", before);
    }
    assert entry + "" == entry;
    NothingRead(after);
    if ReadAll(entry, before).ok {
      ListStep(entry + ['\0'] + rest, |entry|, before, after, rest);
    } else {
      ListFault(entry + ['\0'] + rest, |entry|, before);
    }
  }

  lemma {:induction false} ListWrongStep(vals: Values, i: nat, l: nat, rest: string, before: Values)
    returns (after: Values)
    requires AreProducible(vals) && IsLast(vals, l) && i < ATTRIBUTES && (i > l ==> before[l] != vals[l])
    ensures var p := ReadList(Piece(vals, i, '\0') + rest, before); !p.ok || p == ReadList(rest, after)
    ensures i >= l ==> after[l] != vals[l]
  {
    assert IsProducible(vals[i]) && (i > l ==> IsWritable(vals[i])) && '\0' !in vals[i];
    hide ReadAll, ReadList, Entry, IsProducible, IsWritable, AreProducible;
    after := before;
    if vals[i] == "" {
      assert "" + rest == rest;
      EmptyIsWritable();
    } else {
      after := AnyEntryReads(i, vals[i], rest, before);
    }
  }

  lemma {:induction false} ListStaysWrong(vals: Values, from: nat, l: nat, before: Values, end: string)
    requires AreProducible(vals) && IsLast(vals, l) && from <= ATTRIBUTES && EntryLength(end) == 0
    requires from > l ==> before[l] != vals[l]
    ensures var p := ReadList(Entries(vals, from, '\0') + end, before); !p.ok || p.vals[l] != vals[l]
    decreases ATTRIBUTES - from
  {
    if from == ATTRIBUTES {
      assert Entries(vals, from, '\0') + end == end;
      hide AreProducible, Entries, EntryLength, ReadAll;
      assert l < ATTRIBUTES;
    } else {
      var rest := Entries(vals, from + 1, '\0') + end;
      EntriesStep(vals, from, '\0', end);
      hide *;
      var after := ListWrongStep(vals, from, l, rest, before);
      ListStaysWrong(vals, from + 1, l, after, end);
    }
  }

  /** A list is read back as the attributes it was written from exactly if all of them are writable. */
  lemma {:induction false} ListRestores(vals: Values)
    ensures ReadList(ListText(vals), BLANK) == Parse(true, vals) <==> AreWritable(vals)
  {
    if AreWritable(vals) {
      ListReadsBack(vals, "");
      assert ListText(vals) + "" == ListText(vals);
    } else if !AreProducible(vals) {
      var i :| 0 <= i < ATTRIBUTES && !IsProducible(vals[i]);
      EmptyIsWritable();
      ListIsProducible(ListText(vals), BLANK, i);
      hide ReadList, ListText, IsProducible, IsWritable;
    } else {
      assert EntryLength(['\0']) == 0;
      hide ReadList, Entries, IsProducible, IsWritable;
      var l := LastUnwritable(vals, ATTRIBUTES);
      ListStaysWrong(vals, 0, l, BLANK, ['\0']);
    }
  }
}
