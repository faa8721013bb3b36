/** The attribute structure, with its parsers and printers. */
module Dsn {
  import opened Buffers
  import opened SqlLiterals
  import opened ConnGrammar
  import opened ConnStrings
  import opened ConnRoundTrip

  /** `skip_ws`: move past white space, and semicolons between pairs; false at the end of the text. */
  method SkipFrom(text: string, start: nat, extended: bool) returns (found: bool, pos: nat)
    requires start <= |text|
    ensures start <= pos <= |text|
    ensures found ==> pos < |text| && SkipWs(text[start..], extended) == At(text[pos..])
    ensures !found ==> SkipWs(text[start..], extended) == AtEnd && SkipWs(text[pos..], true) == AtEnd
    ensures forall k :: start <= k < pos ==> IsGapChar(text[k], extended)
    ensures if found then !IsGapChar(text[pos], extended) && text[pos] != '\0' else IsOver(text[pos..])
  {
    pos := start;
    while pos < |text|
      invariant start <= pos <= |text|
      invariant SkipWs(text[pos..], extended) == SkipWs(text[start..], extended)
      invariant forall k :: start <= k < pos ==> IsGapChar(text[k], extended)
    {
      var c := text[pos];
      if c == '\0' {
        return false, pos;
      } else if !IsBlank(c) && !(c == ';' && extended) {
        return true, pos;
      }
      assert text[pos..][1..] == text[pos + 1..];
      pos := pos + 1;
    }
    return false, pos;
  }

  /** One turn of the scan for the end of a token. */
  lemma {:induction false} TokenTurn(isValue: bool, s: string, i: nat, open: bool)
    requires i < |s|
    ensures var c, next := s[i], TokenEnd(isValue, s, i + 1, open);
            TokenEnd(isValue, s, i, open)
            == if c == '\\' then if isValue then next else BadToken
               else if IsBlank(c) || c == '=' then if open || isValue then next else EndsAt(i, false)
               else if c == ';' then if open then next else if isValue then EndsAt(i, false) else BadToken
               else if c == '\0' then if open || !isValue then BadToken else EndsAt(i, false)
               else if c == '{' then
                 if i == 0 then TokenEnd(isValue, s, 1, true) else if open then BadToken else next
               else if c == '}' && open then EndsAt(i + 1, true)
               else next
  {
  }

  lemma {:induction false} TokenEnds(isValue: bool, s: string, i: nat, open: bool)
    requires i <= |s|
    ensures i == |s| ==> TokenEnd(isValue, s, i, open) == if open then BadToken else EndsAt(i, false)
  {
  }

  /** The loop of `parse_token`. */
  method ScanToken(isValue: bool, text: string, start: nat) returns (ok: bool, braceEscaped: bool, pos: nat)
    requires start <= |text|
    ensures start <= pos <= |text|
    ensures TokenEnd(isValue, text[start..], 0, false) == if ok then EndsAt(pos - start, braceEscaped) else BadToken
  {
    var open, stop := false, false;
    ok, braceEscaped, pos := false, false, start;
    ghost var s := text[start..];
    ghost var whole := TokenEnd(isValue, s, 0, false);
    hide TokenEnd;
    while pos < |text| && !stop
      invariant start <= pos <= |text|
      invariant stop ==> !open && whole == EndsAt(pos - start, braceEscaped)
      invariant !stop ==> !braceEscaped && whole == TokenEnd(isValue, s, pos - start, open)
      decreases |text| - pos, !stop
    {
      var c := text[pos];
      assert c == s[pos - start];
      TokenTurn(isValue, s, pos - start, open);
      if c == '\\' {
        if !isValue {
          return;
        }
        pos := pos + 1;
      } else if IsBlank(c) || c == '=' {
        if open || isValue {
          pos := pos + 1;
        } else {
          stop := true;
        }
      } else if c == ';' {
        if open {
          pos := pos + 1;
        } else if isValue {
          stop := true;
        } else {
          return;
        }
      } else if c == '\0' {
        if open || !isValue {
          return;
        }
        stop := true;
      } else if c == '{' {
        if pos == start {
          open := true;
        } else if open {
          return;
        }
        pos := pos + 1;
      } else if c == '}' {
        if open {
          open, braceEscaped, stop := false, true, true;
        }
        pos := pos + 1;
      } else {
        pos := pos + 1;
      }
    }
    TokenEnds(isValue, s, pos - start, open);
    ok := !open;
  }

  /** `parse_token`. */
  method ParseToken(isValue: bool, text: string, start: nat) returns (ok: bool, token: string, pos: nat)
    requires start <= |text|
    ensures start <= pos <= |text|
    ensures if ok then ReadToken(isValue, text[start..]) == Token(token, text[pos..])
            else ReadToken(isValue, text[start..]) == NoToken
    ensures if ok then IsToken(isValue, text[start..], token, text[pos..])
            else forall t: string, rest: string :: !IsToken(isValue, text[start..], t, rest)
  {
    ghost var s := text[start..];
    BracedIsLonger(isValue, s, 0, false);
    TokensAre(isValue, s);
    hide TokenEnd, IsToken;
    var braceEscaped;
    token := "";
    ok, braceEscaped, pos := ScanToken(isValue, text, start);
    if ok {
      if braceEscaped {
        token := text[start + 1..pos - 1];
        assert token == s[1..pos - start - 1];
      } else {
        token := text[start..pos];
        assert token == s[..pos - start];
      }
      assert text[pos..] == s[pos - start..];
    }
  }

  lemma {:induction false} ListTurn(s: string, vals: Values)
    ensures var n := EntryLength(s);
            ReadList(s, vals)
            == if n == 0 then Parse(true, vals)
               else if MAX_SHORT < n then Parse(false, vals)
               else
                 var p := ReadAll(s[..n], vals);
                 if !p.ok || n == |s| then p else ReadList(s[n + 1..], p.vals)
  {
    hide ReadAll;
  }

  lemma {:induction false} SliceOfRest(s: string, pos: nat, n: nat)
    requires pos + n <= |s|
    ensures s[pos..][..n] == s[pos..pos + n]
    ensures pos + n < |s| ==> s[pos..][n + 1..] == s[pos + n + 1..]
  {
  }

  lemma {:induction false} NoMoreEntries(vals: Values, close: char)
    ensures Entries(vals, ATTRIBUTES, close) == ""
  {
  }

  /** What has been written of a list leaves what is past its room. */
  lemma {:induction false} RestKept(list00: array<char>, base: seq<char>, done: string, cnt00: nat)
    requires Wrote(list00, base, 0, done) && |done| <= cnt00 <= list00.Length
    ensures list00[cnt00..] == base[cnt00..]
  {
    var after := list00[..];
    assert after[|done|..] == base[|done|..];
    assert after[cnt00..] == after[|done|..][cnt00 - |done|..];
    assert base[cnt00..] == base[|done|..][cnt00 - |done|..];
    assert list00[cnt00..] == after[cnt00..];
  }

  /** As much of a text as a buffer has room for, terminated; an empty text leaves the buffer alone. */
  ghost predicate IsTruncated(out: array<char>, base: seq<char>, max: nat, text: string)
    reads out
  {
    && |base| == out.Length && max <= out.Length
    && (forall k :: max <= k < out.Length ==> out[k] == base[k])
    && (if text == "" || max == 0 then out[..] == base
        else
          var n := if |text| < max then |text| else max - 1;
          out[n] == '\0' && forall k :: 0 <= k < n ==> out[k] == text[k])
  }

  lemma {:induction false} NothingPrinted(out: array<char>, max: nat)
    requires max <= out.Length
    ensures IsTruncated(out, out[..], max, "")
  {
  }

  lemma {:induction false} NoRoomToPrint(out: array<char>, base: seq<char>, max: nat, done: string, text: string)
    requires IsTruncated(out, base, max, done) && max <= |done|
    ensures IsTruncated(out, base, max, done + text)
  {
  }

  /** `swprintf` into what is left of the buffer. */
  method PrintAt(out: array<char>, pos: nat, max: nat, text: string, ghost base: seq<char>, ghost done: string)
    requires IsTruncated(out, base, max, done) && pos == |done| < max && text != ""
    modifies out
    ensures IsTruncated(out, base, max, done + text)
  {
    var n := if |text| < max - pos then |text| else max - pos - 1;
    for k := 0 to n
      invariant forall j :: 0 <= j < pos ==> out[j] == done[j]
      invariant forall j :: max <= j < out.Length ==> out[j] == base[j]
      invariant forall j :: 0 <= j < k ==> out[pos + j] == text[j]
    {
      out[pos + k] := text[k];
    }
    out[pos + n] := '\0';
  }

  class Attributes {
    var vals: Values

    constructor ()
      ensures vals == BLANK
    {
      vals := BLANK;
    }

    /** `assign_dsn_attr`, overwriting. */
    method Assign(keyword: string, value: string) returns (ok: bool)
      modifies this
      ensures var a := ConnStrings.Assign(old(vals), keyword, value);
              ok == a.Assigned? && vals == if a.Assigned? then a.vals else old(vals)
    {
      hide Keyword, LowerAll;
      if MAX_ATTRIBUTE < |value| {
        return false;
      }
      for i := 0 to ATTRIBUTES
        invariant vals == old(vals) && FindKeyword(keyword, 0) == FindKeyword(keyword, i)
      {
        if LowerAll(Keyword(i)) == LowerAll(keyword) {
          vals := vals[i := value];
          return true;
        }
      }
      return true;
    }

    /** `parse_connection_string`. */
    method ParseConnectionString(text: string) returns (ok: bool)
      modifies this
      ensures Parse(ok, vals) == ReadAll(text, old(vals))
      ensures if ok then exists pairs: seq<(string, string)> :: IsReading(text, pairs, old(vals), vals)
              else forall pairs: seq<(string, string)>, after: Values :: !IsReading(text, pairs, old(vals), after)
    {
      hide ReadToken, FindKeyword, SkipWs, IsReading, IsGapChar, IsOver, IsToken;
      ReadingsAre(text, vals);
      var pos := 0;
      assert text[0..] == text;
      while true
        invariant pos <= |text| && ReadAll(text[pos..], vals) == ReadAll(text, old(vals))
        decreases |text| - pos
      {
        var found, keyword, value;
        ghost var start := pos;
        found, pos := SkipFrom(text, pos, true);
        if !found {
          return true;
        }
        ok, keyword, pos := ParseToken(false, text, pos);
        if !ok {
          return false;
        }
        found, pos := SkipFrom(text, pos, false);
        if !found || text[pos] != '=' {
          return false;
        }
        pos := pos + 1;
        assert text[pos - 1..][1..] == text[pos..];
        found, pos := SkipFrom(text, pos, false);
        if !found {
          return true;
        }
        ok, value, pos := ParseToken(true, text, pos);
        if !ok {
          return false;
        }
        assert NextPair(text[start..]) == Pair(keyword, value, text[pos..]);
        ok := Assign(keyword, value);
        if !ok {
          return false;
        }
      }
    }

    /** `parse_00_list`. */
    method ParseList(list: string) returns (ok: bool)
      modifies this
      ensures Parse(ok, vals) == ReadList(list, old(vals))
    {
      hide ReadAll, ReadList;
      var pos := 0;
      assert list[0..] == list;
      while true
        invariant pos <= |list| && ReadList(list[pos..], vals) == ReadList(list, old(vals))
        decreases |list| - pos
      {
        ListTurn(list[pos..], vals);
        var cnt := EntryLength(list[pos..]);
        if cnt == 0 {
          return true;
        } else if MAX_SHORT < cnt {
          return false;
        }
        SliceOfRest(list, pos, cnt);
        ok := ParseConnectionString(list[pos..pos + cnt]);
        if !ok || pos + cnt == |list| {
          return;
        }
        pos := pos + cnt + 1;
      }
    }

    // ---- writing ----------------------------------------------------------------------------------

    /** `write_connection_string`, into a buffer of so much room, if there is one: the length returned is
        that of the whole text, and what fits is written with a terminator. */
    method WriteConnectionString(out: array?<char>, max: nat) returns (pos: nat)
      requires out != null ==> max <= out.Length
      modifies out
      ensures pos == |ConnText(vals)| <= MAX_SHORT
      ensures out != null ==> IsTruncated(out, old(out[..]), max, ConnText(vals))
    {
      hide IsTruncated, Entries, Entry;
      EntriesFit(vals, 0, ';');
      pos := 0;
      ghost var base, done := if out == null then [] else out[..], "";
      if out != null {
        NothingPrinted(out, max);
      }
      assert "" + Entries(vals, 0, ';') == Entries(vals, 0, ';');
      for i := 0 to ATTRIBUTES
        invariant pos == |done| && done + Entries(vals, i, ';') == ConnText(vals)
        invariant out != null ==> IsTruncated(out, base, max, done)
      {
        EntriesStep(vals, i, ';', "");
        ghost var rest := Entries(vals, i + 1, ';');
        assert Entries(vals, i, ';') + "" == Entries(vals, i, ';') && rest + "" == rest;
        if vals[i] != "" {
          var entry := Entry(i, vals[i]) + ";";
          if max > 0 && out != null && pos < max {
            PrintAt(out, pos, max, entry, base, done);
          } else if out != null {
            NoRoomToPrint(out, base, max, done, entry);
          }
          Reassociate(done, entry, rest);
          done := done + entry;
          pos := pos + |entry|;
        } else {
          assert done + ("" + rest) == done + rest;
        }
      }
      assert Entries(vals, ATTRIBUTES, ';') == "" by {
        NoMoreEntries(vals, ';');
      }
      assert done + "" == done;
    }

    /** `write_00_list`: -1 if the entries need more than the room, or the length of the list. Without its
        assertion the code writes the final NUL past the room if the entries fill it, and everything if
        there is no room; what is there is taken to be memory. */
    method WriteList(list00: array<char>, cnt00: nat) returns (pos: int)
      requires cnt00 <= list00.Length && (ListFails(vals, cnt00) || |ListText(vals)| <= list00.Length)
      modifies list00
      ensures pos == -1 <==> 0 < cnt00 < |Entries(vals, 0, '\0')|
      ensures pos == -1 ==> list00[cnt00..] == old(list00[cnt00..])
      ensures pos != -1 ==> pos == |ListText(vals)| && Wrote(list00, old(list00[..]), 0, ListText(vals))
      ensures pos > cnt00 <==> cnt00 == 0 || |Entries(vals, 0, '\0')| == cnt00
    {
      hide Wrote, Entries, Entry;
      ghost var base, done := list00[..], "";
      pos := 0;
      WroteNothing(list00, 0);
      assert "" + Entries(vals, 0, '\0') == Entries(vals, 0, '\0');
      for i := 0 to ATTRIBUTES
        invariant pos == |done| && (0 < cnt00 ==> pos <= cnt00)
        invariant done + Entries(vals, i, '\0') == Entries(vals, 0, '\0')
        invariant Wrote(list00, base, 0, done)
      {
        EntriesStep(vals, i, '\0', "");
        ghost var rest := Entries(vals, i + 1, '\0');
        assert Entries(vals, i, '\0') + "" == Entries(vals, i, '\0') && rest + "" == rest;
        if vals[i] != "" {
          var entry := Entry(i, vals[i]);
          Reassociate(done, entry + ['\0'], rest);
          assert |done + (entry + ['\0']) + rest| == |done| + |entry| + 1 + |rest|;
          if 0 < cnt00 && cnt00 - 1 < pos + |entry| {
            RestKept(list00, base, done, cnt00);
            return -1;
          }
          pos := Put(list00, pos, entry + ['\0'], base, 0, done);
          done := done + (entry + ['\0']);
        } else {
          assert done + ("" + rest) == done + rest;
        }
      }
      assert Entries(vals, ATTRIBUTES, '\0') == "" by {
        NoMoreEntries(vals, '\0');
      }
      assert done + "" == done;
      pos := Put(list00, pos, ['\0'], base, 0, done);
    }
  }
}
