/** Escaping pattern-value arguments. */
module Patterns {
  import opened Buffers

  const ESCAPE := '\\'

  predicate IsSpecial(c: char) {
    c == '%' || c == '_' || c == ESCAPE
  }

  // ---- what a pattern matches -----------------------------------------------------------------------

  /** `%` stands for any text and `_` for any character; what follows an escape stands for itself. */
  predicate Matches(pattern: string, text: string)
    decreases |pattern|, |text|
  {
    if pattern == "" then text == ""
    else if pattern[0] == '%' then
      Matches(pattern[1..], text) || (text != "" && Matches(pattern, text[1..]))
    else if text == "" then false
    else if pattern[0] == '_' then Matches(pattern[1..], text[1..])
    else if pattern[0] == ESCAPE then
      |pattern| > 1 && text[0] == pattern[1] && Matches(pattern[2..], text[1..])
    else text[0] == pattern[0] && Matches(pattern[1..], text[1..])
  }

  // ---- escaping -----------------------------------------------------------------------------------

  function EscapeOf(c: char): (t: string)
    ensures 1 <= |t| <= 2
  {
    if IsSpecial(c) then [ESCAPE, c] else [c]
  }

  lemma {:induction false} EscapeIs(c: char)
    ensures EscapeOf(c) == if c in {'%', '_', '\\'} then ['\\', c] else [c]
  {
  }

  function Escaped(s: string): string {
    if s == "" then "" else Escaped(s[..|s| - 1]) + EscapeOf(s[|s| - 1])
  }

  function Unescaped(t: string): string {
    if t == "" then ""
    else if t[0] == ESCAPE && |t| > 1 then [t[1]] + Unescaped(t[2..])
    else [t[0]] + Unescaped(t[1..])
  }

  lemma {:induction false} EscapedFromFront(s: string)
    requires s != ""
    ensures Escaped(s) == EscapeOf(s[0]) + Escaped(s[1..])
  {
    if |s| == 1 {
      assert s[..0] == "" && s[1..] == "";
      assert "" + EscapeOf(s[0]) == EscapeOf(s[0]) + "";
    } else {
      var front, last := s[..|s| - 1], s[|s| - 1];
      EscapedFromFront(front);
      assert front[1..] == s[1..][..|s| - 2] && s[1..][|s| - 2] == last;
      assert EscapeOf(s[0]) + Escaped(front[1..]) + EscapeOf(last)
          == EscapeOf(s[0]) + (Escaped(front[1..]) + EscapeOf(last));
    }
  }

  /** Removing the escapes gives the text back, and there is at most one for each character. */
  lemma {:induction false} EscapingIsInverted(s: string)
    ensures Unescaped(Escaped(s)) == s && |s| <= |Escaped(s)| <= 2 * |s|
  {
    if s != "" {
      EscapedFromFront(s);
      EscapingIsInverted(s[1..]);
      var t := Escaped(s);
      hide Escaped;
      if IsSpecial(s[0]) {
        assert t[2..] == Escaped(s[1..]);
      } else {
        assert t[1..] == Escaped(s[1..]);
      }
    }
  }

  /** An escaped text, as a pattern, matches that text and nothing else. */
  lemma {:induction false} EscapedMatchesItself(s: string, text: string)
    ensures Matches(Escaped(s), text) <==> text == s
    decreases |s|
  {
    if s != "" {
      EscapedFromFront(s);
      var t := Escaped(s);
      if text != "" {
        EscapedMatchesItself(s[1..], text[1..]);
        assert text == [text[0]] + text[1..] && s == [s[0]] + s[1..];
      }
      hide Escaped;
      if IsSpecial(s[0]) {
        assert t[2..] == Escaped(s[1..]);
      } else {
        assert t[1..] == Escaped(s[1..]);
      }
    }
  }

  // ---- escaping that is not forced ------------------------------------------------------------------

  predicate HasEscape(s: string) {
    exists i :: 0 < i < |s| && s[i - 1] == ESCAPE && IsSpecial(s[i])
  }

  predicate IsLoneSpecial(s: string) {
    |s| == 1 && IsSpecial(s[0])
  }

  predicate HasSpecial(s: string) {
    exists i :: 0 <= i < |s| && IsSpecial(s[i])
  }

  /** The argument as it is passed on. */
  function Passed(s: string, force: bool): string {
    if !force && (HasEscape(s) || IsLoneSpecial(s)) then s else Escaped(s)
  }

  lemma {:induction false} OneEscaped(s: string)
    requires |s| == 1
    ensures Escaped(s) == EscapeOf(s[0])
  {
    assert s[..0] == "";
    assert "" + EscapeOf(s[0]) == EscapeOf(s[0]);
  }

  /** Unforced, a lone special character is passed on as it is, and so is a text that has been escaped: one
      with a special character after a backslash. Everything else is escaped. */
  lemma {:induction false} PassedIs(s: string)
    ensures Passed(s, true) == Escaped(s)
    ensures Passed("%", false) == "%" && Passed("_", false) == "_" && Passed("\\", false) == "\\"
    ensures |s| != 1 ==>
              Passed(s, false)
              == if exists i :: 0 < i < |s| && s[i - 1] == '\\' && s[i] in {'%', '_', '\\'} then s else Escaped(s)
    ensures |s| == 1 ==> Passed(s, false) == s
  {
    hide Escaped;
    if i :| 0 < i < |s| && s[i - 1] == '\\' && s[i] in {'%', '_', '\\'} {
      assert s[i - 1] == ESCAPE && IsSpecial(s[i]);
    }
    if |s| == 1 && !IsSpecial(s[0]) {
      OneEscaped(s);
    }
  }

  lemma {:induction false} EscapedHasEscape(s: string)
    ensures if HasSpecial(s) then HasEscape(Escaped(s)) else Escaped(s) == s
  {
    if s != "" {
      var front, last := s[..|s| - 1], s[|s| - 1];
      EscapedHasEscape(front);
      var t := Escaped(s);
      hide Escaped;
      if IsSpecial(last) {
        assert t[|t| - 2] == ESCAPE && IsSpecial(t[|t| - 1]);
      } else if HasSpecial(s) {
        var i :| 0 <= i < |s| && IsSpecial(s[i]);
        assert IsSpecial(front[i]);
        assert HasSpecial(front);
        var k :| 0 < k < |Escaped(front)| && Escaped(front)[k - 1] == ESCAPE && IsSpecial(Escaped(front)[k]);
        assert t[k - 1] == ESCAPE && IsSpecial(t[k]);
      }
    }
  }

  /** Escaping what has been escaped, unforced, changes nothing. */
  lemma {:induction false} UnforcedIsIdempotent(s: string)
    ensures Passed(Passed(s, false), false) == Passed(s, false)
  {
    EscapedHasEscape(s);
    hide Escaped;
  }

  // ---- the loop -----------------------------------------------------------------------------------

  /** What has been written of a text, escapes and all; each has at most as many again. */
  lemma {:induction false} NextEscaped(s: string, i: nat)
    requires i < |s|
    ensures Escaped(s[..i + 1]) == Escaped(s[..i]) + EscapeOf(s[i])
  {
    assert s[..i + 1][..i] == s[..i];
  }

  lemma {:induction false} SpecialUpTo(s: string, i: nat)
    requires i < |s|
    ensures HasSpecial(s[..i + 1]) <==> HasSpecial(s[..i]) || IsSpecial(s[i])
    ensures HasEscape(s[..i + 1]) <==> HasEscape(s[..i]) || (i > 0 && s[i - 1] == ESCAPE && IsSpecial(s[i]))
    ensures HasEscape(s[..i + 1]) ==> HasEscape(s)
  {
    var t, u := s[..i], s[..i + 1];
    assert IsSpecial(s[i]) ==> IsSpecial(u[i]);
    if HasSpecial(t) {
      var k :| 0 <= k < |t| && IsSpecial(t[k]);
      assert IsSpecial(u[k]);
    }
    if HasSpecial(u) {
      var k :| 0 <= k < |u| && IsSpecial(u[k]);
      assert k < i ==> IsSpecial(t[k]);
    }
    if HasEscape(t) {
      var k :| 0 < k < |t| && t[k - 1] == ESCAPE && IsSpecial(t[k]);
      assert u[k - 1] == ESCAPE && IsSpecial(u[k]);
    }
    if HasEscape(u) {
      var k :| 0 < k < |u| && u[k - 1] == ESCAPE && IsSpecial(u[k]);
      assert s[k - 1] == ESCAPE && IsSpecial(s[k]);
      assert k < i ==> t[k - 1] == ESCAPE && IsSpecial(t[k]);
    }
  }

  /** `metadata_id_escape`, of a text that is followed by a NUL, which is copied with it. */
  method MetadataIdEscape(src: string, dst: array<char>, force: bool) returns (cnt: nat, escaped: bool)
    requires dst.Length >= 2 * |src| + 1
    modifies dst
    ensures cnt == |Passed(src, force)| <= dst.Length && dst[..cnt] == Passed(src, force)
    ensures escaped <==> HasSpecial(src) && (force || !(HasEscape(src) || IsLoneSpecial(src)))
  {
    hide Wrote, Escaped;
    ghost var base := dst[..];
    WroteNothing(dst, 0);
    var j := 0;
    cnt, escaped := 0, false;
    assert src[..0] == "";
    EscapingIsInverted("");
    for i := 0 to |src|
      invariant j == |Escaped(src[..i])| <= 2 * i && Wrote(dst, base, 0, Escaped(src[..i]))
      invariant escaped <==> HasSpecial(src[..i])
      invariant !force && i > 0 ==> !HasEscape(src[..i]) && !(|src| == 1 && IsSpecial(src[0]))
    {
      var crr := src[i];
      ghost var done := Escaped(src[..i]);
      NextEscaped(src, i);
      SpecialUpTo(src, i);
      if IsSpecial(crr) {
        if ((i > 0 && src[i - 1] == ESCAPE) || |src| == 1) && !force {
          assert HasEscape(src) || IsLoneSpecial(src);
          ghost var before := dst[..];
          WroteNothing(dst, 0);
          cnt := Put(dst, 0, src, before, 0, "");
          assert "" + src == src;
          WroteFront(dst, before, src);
          return cnt, false;
        }
        j := Put(dst, j, [ESCAPE], base, 0, done);
        escaped := true;
        j := Put(dst, j, [crr], base, 0, done + [ESCAPE]);
        assert done + [ESCAPE] + [crr] == done + [ESCAPE, crr];
      } else {
        j := Put(dst, j, [crr], base, 0, done);
      }
    }
    assert src[..|src|] == src;
    EscapingIsInverted(src);
    cnt := j;
    j := Put(dst, j, ['\0'], base, 0, Escaped(src));
    WroteFront(dst, base, Escaped(src) + ['\0']);
    assert dst[..cnt] == dst[..j][..cnt];
  }
}
