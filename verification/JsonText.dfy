/** JSON escaping, and reading escaped text back as section 7 of RFC 8259 says. */
module JsonText {
  import opened Buffers

  const BACKSPACE := 8 as char

  const FORM_FEED := 12 as char

  // ---- what an escaped text means -----------------------------------------------------------------

  function HexValue(c: char): (v: int)
    ensures -1 <= v <= 15
  {
    if '0' <= c <= '9' then c as int - '0' as int
    else if 'A' <= c <= 'F' then c as int - 'A' as int + 10
    else if 'a' <= c <= 'f' then c as int - 'a' as int + 10
    else -1
  }

  /** What a two-character escape stands for. */
  function Unescaped(letter: char): (code: int)
  {
    match letter
    case '"' => 0x22
    case '\\' => 0x5C
    case '/' => 0x2F
    case 'b' => 8
    case 'f' => 12
    case 'n' => 10
    case 'r' => 13
    case 't' => 9
    case _ => -1
  }

  datatype Lexed = NoString | String(codes: seq<int>, rest: string)

  function Before(code: int, l: Lexed): Lexed {
    if l.NoString? then l else String([code] + l.codes, l.rest)
  }

  /** The rest of a JSON string: the codes up to the closing quote, and what follows the quote. */
  function ReadString(t: string): (l: Lexed)
    ensures l.String? ==> |l.rest| < |t|
  {
    if t == "" then NoString
    else if t[0] == '"' then String([], t[1..])
    else if t[0] < ' ' then NoString
    else if t[0] != '\\' then Before(t[0] as int, ReadString(t[1..]))
    else if |t| >= 2 && Unescaped(t[1]) >= 0 then Before(Unescaped(t[1]), ReadString(t[2..]))
    else if |t| >= 6 && t[1] == 'u'
            && HexValue(t[2]) >= 0 && HexValue(t[3]) >= 0 && HexValue(t[4]) >= 0 && HexValue(t[5]) >= 0 then
      Before(((HexValue(t[2]) * 16 + HexValue(t[3])) * 16 + HexValue(t[4])) * 16 + HexValue(t[5]),
             ReadString(t[6..]))
    else NoString
  }

  function Codes(s: string): (codes: seq<int>)
    ensures |codes| == |s| && forall i :: 0 <= i < |s| ==> codes[i] == s[i] as int
  {
    seq(|s|, i requires 0 <= i < |s| => s[i] as int)
  }

  // ---- escaping -----------------------------------------------------------------------------------

  /** The letter of a character with an escape of two characters. */
  function ShortEscape(c: char): (letter: char)
    ensures letter != '\0' ==> Unescaped(letter) == c as int
  {
    if c == '"' || c == '\\' then c
    else if c == BACKSPACE then 'b'
    else if c == FORM_FEED then 'f'
    else if c == '\n' then 'n'
    else if c == '\r' then 'r'
    else if c == '\t' then 't'
    else '\0'
  }

  /** `I16TOA`. */
  function HexDigit(v: nat): (c: char)
    requires v < 16
    ensures HexValue(c) == v
  {
    if 10 <= v then ('A' as int + v - 10) as char else ('0' as int + v) as char
  }

  const PREFIX := "\\u00"

  function Sequence(c: char): (t: string)
    ensures t != ""
  {
    if ShortEscape(c) != '\0' then ['\\', ShortEscape(c)]
    else if ' ' <= c then [c]
    else PREFIX + [HexDigit(c as int / 16), HexDigit(c as int % 16)]
  }

  lemma {:induction false} HexDigits(v: nat)
    requires v < 16
    ensures HexDigit(v) == "0123456789ABCDEF"[v]
  {
  }

  /** Each character by what is written for it: the seven with a short escape, the others below the space
      by their code in upper-case hexadecimal digits, and all the rest as they are. */
  lemma {:induction false} SequenceIs(c: char)
    ensures Sequence(c)
         == match c as int
            case 0x22 => "\\\""
            case 0x5C => "\\\\"
            case 8 => "\\b"
            case 9 => "\\t"
            case 10 => "\\n"
            case 12 => "\\f"
            case 13 => "\\r"
            case n => if n >= 0x20 then [c]
                      else ['\\', 'u', '0', '0', if n < 16 then '0' else '1', "0123456789ABCDEF"[n % 16]]
  {
    if c < ' ' {
      HexDigits(c as int / 16);
      HexDigits(c as int % 16);
    }
  }

  function Escape(s: string): (t: string)
    ensures |t| >= |s|
  {
    if s == "" then "" else Escape(s[..|s| - 1]) + Sequence(s[|s| - 1])
  }

  lemma {:induction false} EscapeOfJoin(a: string, b: string)
    ensures Escape(a + b) == Escape(a) + Escape(b)
  {
    hide Sequence;
    if b == "" {
      assert a + b == a;
    } else {
      var front, last := b[..|b| - 1], b[|b| - 1];
      assert (a + b)[..|a + b| - 1] == a + front && (a + b)[|a + b| - 1] == last;
      EscapeOfJoin(a, front);
      assert Escape(a + b) == Escape(a + front) + Sequence(last);
    }
  }

  /** The longest prefix whose escape fits. */
  function Fit(s: string, room: nat): (k: nat)
    ensures k <= |s|
  {
    if |Escape(s)| <= room then |s|
    else Fit(s[..|s| - 1], room)
  }

  lemma {:induction false} EscapeGrows(s: string, j: nat, k: nat)
    requires j <= k <= |s|
    ensures |Escape(s[..j])| <= |Escape(s[..k])| - (k - j)
    ensures Escape(s[..j]) <= Escape(s[..k])
  {
    assert s[..j] + s[j..k] == s[..k];
    EscapeOfJoin(s[..j], s[j..k]);
  }

  /** Nothing longer fits: the cut falls between escape sequences, after as many as there is room for. */
  lemma {:induction false} FitIsLongest(s: string, room: nat)
    ensures |Escape(s[..Fit(s, room)])| <= room
    ensures forall k :: Fit(s, room) < k <= |s| ==> |Escape(s[..k])| > room
  {
    assert s[..|s|] == s;
    if |Escape(s)| > room {
      hide Escape;
      var t := s[..|s| - 1];
      FitIsLongest(t, room);
      assert t[..Fit(t, room)] == s[..Fit(t, room)];
      forall k | Fit(t, room) < k <= |s|
        ensures |Escape(s[..k])| > room
      {
        if k < |s| {
          assert t[..k] == s[..k];
        }
      }
    }
  }

  // ---- escaping is invertible -----------------------------------------------------------------

  lemma {:induction false} SequenceReads(c: char, rest: string)
    ensures ReadString(Sequence(c) + rest) == Before(c as int, ReadString(rest))
  {
    var t := Sequence(c) + rest;
    if ShortEscape(c) != '\0' {
      assert t[2..] == rest;
    } else if ' ' <= c {
      assert t[1..] == rest;
    } else {
      assert t[6..] == rest;
    }
  }

  lemma {:induction false} BeforeAll(s: string, rest: string, end: Lexed)
    requires ReadString(rest) == end && end.String?
    ensures ReadString(Escape(s) + rest) == String(Codes(s) + end.codes, end.rest)
  {
    hide ReadString, Sequence;
    if s == "" {
      assert Escape(s) + rest == rest && Codes(s) + end.codes == end.codes;
    } else {
      var front, c := s[..|s| - 1], s[|s| - 1];
      SequenceReads(c, rest);
      BeforeAll(front, Sequence(c) + rest, ReadString(Sequence(c) + rest));
      assert Escape(s) + rest == Escape(front) + (Sequence(c) + rest);
      assert Codes(front) + ([c as int] + end.codes) == Codes(s) + end.codes;
    }
  }

  /** An escaped text between quotes is read back as the text it was escaped from, whatever follows:
      it holds no bare quote, no unfinished escape and no character below a space. */
  lemma {:induction false} EscapedReadsBack(s: string, rest: string)
    ensures ReadString(Escape(s) + "\"" + rest) == String(Codes(s), rest)
  {
    assert Escape(s) + "\"" + rest == Escape(s) + ("\"" + rest);
    assert ("\"" + rest)[1..] == rest;
    BeforeAll(s, "\"" + rest, String([], rest));
    assert Codes(s) + [] == Codes(s);
  }

  lemma {:induction false} EscapeIsInjective(s: string, t: string)
    requires Escape(s) == Escape(t)
    ensures s == t
  {
    EscapedReadsBack(s, "");
    EscapedReadsBack(t, "");
    assert |Codes(s)| == |Codes(t)|;
    forall i | 0 <= i < |s|
      ensures s[i] == t[i]
    {
      assert Codes(s)[i] == Codes(t)[i];
    }
  }

  lemma {:induction false} EscapedIsPrintable(s: string)
    ensures forall i :: 0 <= i < |Escape(s)| ==> ' ' <= Escape(s)[i]
  {
    if s != "" {
      EscapedIsPrintable(s[..|s| - 1]);
    }
  }

  // ---- the length, and the copy ----------------------------------------------------------------

  /** `json_escaped_len`. */
  method EscapedLen(s: string) returns (n: nat)
    ensures n == |Escape(s)|
  {
    n := 0;
    for i := 0 to |s|
      invariant n == |Escape(s[..i])|
    {
      assert s[..i + 1][..i] == s[..i];
      n := n + if ShortEscape(s[i]) != '\0' then 2 else if ' ' <= s[i] then 1 else 6;
    }
    assert s[..|s|] == s;
  }

  function FirstNul(s: string): (n: nat)
    ensures n <= |s| && '\0' !in s[..n] && (n < |s| ==> s[n] == '\0')
  {
    if s == "" || s[0] == '\0' then 0 else
      var n := FirstNul(s[1..]);
      assert s[..n + 1] == [s[0]] + s[1..][..n];
      n + 1
  }

  lemma {:induction false} FirstNulAt(s: string, n: nat)
    requires n < |s| && s[n] == '\0' && '\0' !in s[..n]
    ensures FirstNul(s) == n
  {
    if n > 0 {
      assert s[0] in s[..n] && s[1..][..n - 1] == s[..n][1..];
      FirstNulAt(s[1..], n - 1);
    }
  }

  /** A text in a buffer; a length of 0 stands for a text that ends before the first NUL. */
  function TextAt(buffer: string, from: nat, inlen: nat): (s: string)
    requires from + inlen <= |buffer|
    ensures from + |s| <= |buffer| && s == buffer[from..from + |s|]
  {
    var n := if inlen == 0 then FirstNul(buffer[from..]) else inlen;
    buffer[from..from + n]
  }

  /** The output is written behind the input, or in front of it, or over what has been read of it. */
  ghost predicate CannotCatchUp(s: string, from: nat, at: nat, outlen: nat) {
    from + |s| <= at || at + outlen <= from || at + |Escape(s)| <= from + |s|
  }

  lemma {:induction false} StaysBehind(s: string, from: nat, at: nat, outlen: nat, i: nat)
    requires CannotCatchUp(s, from, at, outlen) && i <= |s|
    requires |Escape(s[..i])| <= outlen
    ensures from + |s| <= at || at + |Escape(s[..i])| <= from + i
  {
    EscapeGrows(s, i, |s|);
    assert s[..|s|] == s;
  }

  lemma {:induction false} NextEscape(s: string, i: nat)
    requires i < |s|
    ensures Escape(s[..i + 1]) == Escape(s[..i]) + Sequence(s[i])
  {
    assert s[..i + 1][..i] == s[..i];
  }

  lemma {:induction false} CutHere(s: string, i: nat, room: nat)
    requires i <= |s| && |Escape(s[..i])| <= room && (i == |s| || |Escape(s[..i + 1])| > room)
    ensures Fit(s, room) == i
  {
    FitIsLongest(s, room);
    if i < |s| && Fit(s, room) > i {
      EscapeGrows(s, i + 1, Fit(s, room));
    }
  }

  /** What the copy leaves of the buffer. */
  lemma {:induction false} Elsewhere(base: seq<char>, at: nat, text: string, k: nat)
    requires at + |text| <= |base| && k < |base| && (k < at || at + |text| <= k)
    ensures Overwritten(base, at, text)[k] == base[k]
  {
    var after := Overwritten(base, at, text);
    if k < at {
      assert after[k] == after[..at][k] == base[..at][k];
    } else {
      var j := k - (at + |text|);
      assert after[k] == after[at + |text|..][j] == base[at + |text|..][j];
    }
  }

  /** The input that has not been read yet is still there. */
  ghost predicate Unread(src: array<char>, from: nat, s: string, i: nat)
    reads src
  {
    from + |s| <= src.Length && forall j :: i <= j < |s| ==> src[from + j] == s[j]
  }

  lemma {:induction false} NothingUnreadIsLost(dst: array<char>, from: nat, s: string, at: nat, outlen: nat,
                                               base: seq<char>,
                                               i: nat)
    requires i <= |s| && from + |s| <= |base| && s == base[from..from + |s|] && |Escape(s[..i])| <= outlen
    requires CannotCatchUp(s, from, at, outlen) && at + outlen <= dst.Length
    requires Wrote(dst, base, at, Escape(s[..i]))
    ensures Unread(dst, from, s, i)
  {
    StaysBehind(s, from, at, outlen, i);
    var text := Escape(s[..i]);
    hide Escape, Overwritten;
    forall j | i <= j < |s|
      ensures dst[from + j] == s[j]
    {
      Elsewhere(base, at, text, from + j);
      assert dst[from + j] == dst[..][from + j] == Overwritten(base, at, text)[from + j];
    }
  }

  method StrLen(src: array<char>, from: nat) returns (n: nat)
    requires from <= src.Length && '\0' in src[from..]
    ensures n == FirstNul(src[from..])
  {
    n := 0;
    ghost var s := src[from..];
    assert s[0..] == s;
    while src[from + n] != '\0'
      invariant n < |s| && '\0' in s[n..] && FirstNul(s) == n + FirstNul(s[n..])
      decreases |s| - n
    {
      assert s[n..][1..] == s[n + 1..];
      n := n + 1;
    }
  }

  /** Write the escape of one character, if there is room for all of it. */
  method PutSequence(c: char, dst: array<char>, at: nat, pos: nat, outlen: nat, ghost base: seq<char>,
                     ghost done: string)
    returns (end: nat, room: bool)
    requires Wrote(dst, base, at, done) && pos == |done| <= outlen && at + outlen <= dst.Length
    modifies dst
    ensures room <==> pos + |Sequence(c)| <= outlen
    ensures room ==> end == pos + |Sequence(c)| && Wrote(dst, base, at, done + Sequence(c))
    ensures !room ==> end == pos && Wrote(dst, base, at, done)
  {
    hide Wrote;
    end, room := pos, false;
    var letter := ShortEscape(c);
    if letter != '\0' {
      if outlen <= pos + 1 {
        return;
      }
      end := Put(dst, at + pos, ['\\', letter], base, at, done);
    } else if ' ' <= c {
      if outlen <= pos {
        return;
      }
      end := Put(dst, at + pos, [c], base, at, done);
    } else {
      if outlen <= pos + 5 {
        return;
      }
      end := Put(dst, at + pos, PREFIX, base, at, done);
      var digits := [HexDigit(c as int / 16), HexDigit(c as int % 16)];
      end := Put(dst, end, digits, base, at, done + PREFIX);
      assert done + PREFIX + digits == done + (PREFIX + digits);
    }
    return end - at, true;
  }

  /** The loop of `json_escape`. */
  method EscapeRange(src: array<char>, from: nat, n: nat, dst: array<char>, at: nat, outlen: nat, ghost s: string)
    returns (pos: nat)
    requires from + n <= src.Length && at + outlen <= dst.Length && s == src[from..from + n]
    requires src == dst ==> CannotCatchUp(s, from, at, outlen)
    modifies dst
    ensures pos == |Escape(s[..Fit(s, outlen)])| <= outlen
    ensures Wrote(dst, old(dst[..]), at, Escape(s[..Fit(s, outlen)]))
  {
    hide Wrote, Sequence, CannotCatchUp, Fit;
    ghost var base := dst[..];
    WroteNothing(dst, at);
    assert s[..0] == "";
    pos := 0;
    var i := 0;
    while i < n
      invariant i <= n && pos == |Escape(s[..i])| <= outlen
      invariant Wrote(dst, base, at, Escape(s[..i])) && Unread(src, from, s, i)
      invariant src != dst ==> src[..] == old(src[..])
    {
      hide Escape;
      var room;
      NextEscape(s, i);
      pos, room := PutSequence(src[from + i], dst, at, pos, outlen, base, Escape(s[..i]));
      if !room {
        break;
      }
      i := i + 1;
      if src == dst {
        NothingUnreadIsLost(dst, from, s, at, outlen, base, i);
      }
    }
    CutHere(s, i, outlen);
  }

  /** `json_escape`, into a buffer that may be the one it reads from: what is written is the escape of
      the longest prefix that fits, and nothing else changes. */
  method EscapeInto(src: array<char>, from: nat, inlen: nat, dst: array<char>, at: nat, outlen: nat)
    returns (pos: nat)
    requires from + inlen <= src.Length && at + outlen <= dst.Length
    requires inlen == 0 ==> '\0' in src[from..]
    requires src == dst ==> CannotCatchUp(TextAt(src[..], from, inlen), from, at, outlen)
    modifies dst
    ensures var s := old(TextAt(src[..], from, inlen));
            && pos == |Escape(s[..Fit(s, outlen)])| <= outlen
            && Wrote(dst, old(dst[..]), at, Escape(s[..Fit(s, outlen)]))
  {
    hide Wrote, CannotCatchUp, Fit, Escape;
    var n := inlen;
    if n == 0 {
      assert src[..][from..] == src[from..];
      n := StrLen(src, from);
    }
    ghost var s := TextAt(src[..], from, inlen);
    assert n == |s| && s == src[from..from + n];
    pos := EscapeRange(src, from, n, dst, at, outlen, s);
  }

  // ---- escaping in place ------------------------------------------------------------------------

  lemma {:induction false} MovedText(buffer: string, from: nat, inlen: nat)
    requires 0 < inlen && from + inlen <= |buffer|
    ensures TextAt(buffer, from, inlen) == buffer[from..from + inlen]
  {
  }

  lemma {:induction false} WholeFits(s: string, room: nat)
    requires |Escape(s)| <= room
    ensures Fit(s, room) == |s| && s[..|s|] == s
  {
  }

  /** What is written within a stretch leaves what is outside it. */
  lemma {:induction false} Outside(base: seq<char>, after: seq<char>, start: nat, text: string, at: nat, outlen: nat)
    requires at <= start && start + |text| <= at + outlen <= |base| && after == Overwritten(base, start, text)
    ensures |after| == |base| && after[start..start + |text|] == text
    ensures after[..at] == base[..at] && after[at + outlen..] == base[at + outlen..]
  {
    assert after[..at] == after[..start][..at];
    assert base[..at] == base[..start][..at];
    var end := start + |text|;
    assert after[at + outlen..] == after[end..][at + outlen - end..];
    assert base[at + outlen..] == base[end..][at + outlen - end..];
  }

  /** The text that is escaped in place: the one that was moved to the end of the stretch. Of a length of
      0 nothing is moved, and the text is what follows the stretch, up to its NUL. */
  function OverlapText(buffer: string, at: nat, inlen: nat, outlen: nat): string
    requires inlen <= outlen && at + outlen <= |buffer|
  {
    if inlen == 0 then TextAt(buffer, at + outlen, 0) else buffer[at..at + inlen]
  }

  lemma {:induction false} WholeText(buffer: string, at: nat, inlen: nat, outlen: nat)
    requires 0 < inlen <= outlen && at + outlen <= |buffer|
    ensures OverlapText(buffer, at, inlen, outlen) == buffer[at..at + inlen]
  {
  }

  lemma {:induction false} NothingMoves(buffer: string, at: nat, outlen: nat)
    requires at + outlen <= |buffer|
    ensures TextAt(buffer, at + outlen, 0) == OverlapText(buffer, at, 0, outlen)
  {
  }

  /** The move; the text is then read where it ends up. */
  method MoveToEnd(str: array<char>, at: nat, inlen: nat, outlen: nat)
    requires 2 * inlen <= outlen && at + outlen <= str.Length
    modifies str
    ensures TextAt(str[..], at + outlen - inlen, inlen) == old(OverlapText(str[..], at, inlen, outlen))
    ensures str[..][..at] == old(str[..])[..at] && str[..][at + outlen..] == old(str[..])[at + outlen..]
  {
    hide TextAt, OverlapText, FirstNul;
    ghost var s, base := str[at..at + inlen], str[..];
    if inlen == 0 {
      NothingMoves(str[..], at, outlen);
    } else {
      var jin := at + outlen - inlen;
      WroteNothing(str, jin);
      var _ := Put(str, jin, str[at..at + inlen], base, jin, "");
      assert "" + s == s;
      assert str[..] == Overwritten(base, jin, s);
      hide Overwritten;
      Outside(base, str[..], jin, s, at, outlen);
      MovedText(str[..], jin, inlen);
      WholeText(base, at, inlen, outlen);
    }
  }

  /** `json_escape_overlapping`: the text at `at` is moved to the end of the stretch of `outlen` - by a
      `memcpy`, so the two must not overlap - and escaped from there to the front. */
  method EscapeOverlapping(str: array<char>, at: nat, inlen: nat, outlen: nat) returns (pos: nat)
    requires 2 * inlen <= outlen && at + outlen <= str.Length
    requires inlen > 0 ==> |Escape(str[at..at + inlen])| <= outlen
    requires inlen == 0 ==> '\0' in str[at + outlen..]
    modifies str
    ensures var s := old(OverlapText(str[..], at, inlen, outlen));
            && (inlen > 0 ==> s[..Fit(s, outlen)] == s == old(str[at..at + inlen]))
            && pos == |Escape(s[..Fit(s, outlen)])| <= outlen && str[at..at + pos] == Escape(s[..Fit(s, outlen)])
    ensures str[..at] == old(str[..at]) && str[at + outlen..] == old(str[at + outlen..])
  {
    ghost var s, base := OverlapText(str[..], at, inlen, outlen), str[..];
    hide Escape, Fit, TextAt, Overwritten, OverlapText, FirstNul;
    MoveToEnd(str, at, inlen, outlen);
    ghost var moved := str[..];
    if inlen > 0 {
      WholeFits(s, outlen);
      WholeText(base, at, inlen, outlen);
    }
    assert str[at + outlen..] == moved[at + outlen..];
    pos := EscapeInto(str, at + outlen - inlen, inlen, str, at, outlen);
    Outside(moved, str[..], at, Escape(s[..Fit(s, outlen)]), at, outlen);
    assert str[..][at..at + pos] == str[at..at + pos];
    assert str[..][..at] == str[..at] && base[..at] == old(str[..at]);
    assert str[..][at + outlen..] == str[at + outlen..] && base[at + outlen..] == old(str[at + outlen..]);
  }

  /** A length of 0 stands, by the function's description, for the text up to its NUL. Where there is room
      for its escape, that is what is written exactly if the text behind the stretch, cut to what fits, is
      the same. No caller has a copy of its text there: in practice a length of 0 never gives the result
      described, unless both are empty. */
  lemma {:induction false} ZeroLengthReadsBehind(buffer: string, at: nat, outlen: nat)
    requires at + outlen <= |buffer| && |Escape(TextAt(buffer, at, 0))| <= outlen
    ensures var meant, behind := TextAt(buffer, at, 0), OverlapText(buffer, at, 0, outlen);
            Escape(behind[..Fit(behind, outlen)]) == Escape(meant) <==> behind[..Fit(behind, outlen)] == meant
  {
    hide Escape, TextAt, Fit, OverlapText;
    var meant, behind := TextAt(buffer, at, 0), OverlapText(buffer, at, 0, outlen);
    if Escape(behind[..Fit(behind, outlen)]) == Escape(meant) {
      EscapeIsInjective(behind[..Fit(behind, outlen)], meant);
    }
  }

  lemma {:induction false} EscapeOfOne(c: char)
    ensures Escape([c]) == Sequence(c)
  {
    assert [c][..0] == "";
    assert Escape("") == "";
    hide Sequence;
    assert [] + Sequence(c) == Sequence(c);
  }

  /** `a` in a stretch of two, with `b` behind it: `b` is written over it. */
  lemma {:induction false} WrongTextInPlace()
    ensures var buffer := "a\0b\0";
            var behind := OverlapText(buffer, 0, 0, 2);
            TextAt(buffer, 0, 0) == "a" && Escape(behind[..Fit(behind, 2)]) == "b"
  {
    var buffer := "a\0b\0";
    FirstNulAt(buffer, 1);
    assert buffer[0..] == buffer && buffer[..1] == "a" && buffer[2..] == "b\0" && "b\0"[..1] == "b";
    FirstNulAt("b\0", 1);
    EscapeOfOne('b');
    assert Sequence('b') == "b";
    hide Escape, FirstNul, Fit, Sequence;
    WholeFits("b", 2);
  }

  /** Six times the text is always enough, for the move and for the escape. */
  lemma {:induction false} SixfoldIsEnough(s: string)
    ensures |Escape(s)| <= 6 * |s|
  {
    if s != "" {
      SixfoldIsEnough(s[..|s| - 1]);
    }
  }
}
