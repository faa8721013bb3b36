/** Counting the parameter markers of a query. */
module Markers {
  const ESCAPE := '\\'

  const MARKER := '?'

  predicate IsQuote(c: char) {
    c == '"' || c == '\''
  }

  /** Within which quotes a query is, if any, and if its last character is an escape. */
  datatype State = State(quote: string, escaping: bool)

  const NEUTRAL := State("", false)

  function Step(st: State, c: char): State {
    if st.escaping then State(st.quote, false)
    else if c == ESCAPE then State(st.quote, true)
    else if !IsQuote(c) then st
    else if st.quote == "" then State([c], false)
    else if st.quote == [c] then NEUTRAL
    else st
  }

  /** The state after a text. */
  function After(st: State, s: string): State {
    if s == "" then st else Step(After(st, s[..|s| - 1]), s[|s| - 1])
  }

  /** A question mark that is neither quoted nor escaped. */
  predicate IsLive(s: string, i: int) {
    0 <= i < |s| && s[i] == MARKER && After(NEUTRAL, s[..i]) == NEUTRAL
  }

  /** A marker is a run of just one live question mark. */
  predicate IsMarker(s: string, i: nat) {
    IsLive(s, i) && !IsLive(s, i - 1) && !IsLive(s, i + 1)
  }

  /** The markers before a position. */
  function MarkersUpTo(s: string, n: nat): nat
    requires n <= |s|
  {
    if n == 0 then 0 else MarkersUpTo(s, n - 1) + if IsMarker(s, n - 1) then 1 else 0
  }

  function CountOf(s: string): nat {
    MarkersUpTo(s, |s|)
  }

  // ---- counting is additive -----------------------------------------------------------------------

  lemma {:induction false} AfterJoin(st: State, a: string, b: string)
    ensures After(st, a + b) == After(After(st, a), b)
  {
    if b == "" {
      assert a + b == a;
    } else {
      AfterJoin(st, a, b[..|b| - 1]);
      assert (a + b)[..|a + b| - 1] == a + b[..|b| - 1];
    }
  }

  lemma {:induction false} LiveInFirst(a: string, b: string, i: int)
    requires i < |a|
    ensures IsLive(a + b, i) <==> IsLive(a, i)
  {
    if 0 <= i {
      assert (a + b)[..i] == a[..i];
    }
  }

  lemma {:induction false} LiveInSecond(a: string, b: string, i: int)
    requires After(NEUTRAL, a) == NEUTRAL && 0 <= i
    ensures IsLive(a + b, |a| + i) <==> IsLive(b, i)
  {
    if i < |b| {
      AfterJoin(NEUTRAL, a, b[..i]);
      assert (a + b)[..|a| + i] == a + b[..i];
    }
  }

  /** After a live question mark the state is still neutral. */
  lemma {:induction false} NeutralAfterLive(s: string, i: nat)
    requires IsLive(s, i)
    ensures After(NEUTRAL, s[..i + 1]) == NEUTRAL
    ensures i + 1 < |s| ==> (IsLive(s, i + 1) <==> s[i + 1] == MARKER)
  {
    assert s[..i + 1][..i] == s[..i];
  }

  lemma {:induction false} MarkersJoin(a: string, b: string, n: nat)
    requires After(NEUTRAL, a) == NEUTRAL && n <= |a + b|
    requires !(IsLive(a, |a| - 1) && b != "" && b[0] == MARKER)
    ensures MarkersUpTo(a + b, n)
         == if n <= |a| then MarkersUpTo(a, n) else CountOf(a) + MarkersUpTo(b, n - |a|)
  {
    if n > 0 {
      MarkersJoin(a, b, n - 1);
      var i := n - 1;
      if i < |a| {
        LiveInFirst(a, b, i - 1);
        LiveInFirst(a, b, i);
        if i + 1 < |a| {
          LiveInFirst(a, b, i + 1);
        } else {
          LiveInSecond(a, b, 0);
        }
      } else {
        LiveInSecond(a, b, i - |a|);
        LiveInSecond(a, b, i - |a| + 1);
        if i > |a| {
          LiveInSecond(a, b, i - |a| - 1);
        } else {
          LiveInFirst(a, b, i - 1);
        }
      }
      hide IsLive, After;
    }
  }

  /** Between texts that do not share a run of question marks, the counts add up. */
  lemma {:induction false} CountIsAdditive(a: string, b: string)
    requires After(NEUTRAL, a) == NEUTRAL
    requires !(IsLive(a, |a| - 1) && b != "" && b[0] == MARKER)
    ensures CountOf(a + b) == CountOf(a) + CountOf(b) && After(NEUTRAL, a + b) == After(NEUTRAL, b)
  {
    MarkersJoin(a, b, |a + b|);
    AfterJoin(NEUTRAL, a, b);
  }

  // ---- what counts --------------------------------------------------------------------------------

  /** Characters that are none of the four that matter leave the state as it is, and count nothing; between
      quotes of one kind, so do question marks and the other quotes. */
  lemma {:induction false} StaysSame(quote: string, s: string)
    requires quote == "" || quote == "\"" || quote == "'"
    requires '\\' !in s && if quote == "" then '"' !in s && '\'' !in s else quote[0] !in s
    ensures After(State(quote, false), s) == State(quote, false)
  {
    if s != "" {
      assert forall c :: c in s[..|s| - 1] ==> c in s;
      assert s[|s| - 1] in s;
      StaysSame(quote, s[..|s| - 1]);
    }
  }

  lemma {:induction false} NothingLive(s: string, n: nat)
    requires n <= |s| && forall i :: 0 <= i < n ==> !IsLive(s, i)
    ensures MarkersUpTo(s, n) == 0
  {
    hide IsLive;
    if n > 0 {
      NothingLive(s, n - 1);
    }
  }

  /** What has no question mark has no marker. */
  lemma {:induction false} NoMarkNoCount(s: string)
    requires '?' !in s
    ensures CountOf(s) == 0
  {
    assert forall i :: 0 <= i < |s| ==> s[i] in s;
    NothingLive(s, |s|);
  }

  lemma {:induction false} QuotedState(q: char, text: string)
    requires (q == '"' || q == '\'') && '\\' !in text && q !in text
    ensures After(NEUTRAL, [q] + text) == State([q], false) && After(NEUTRAL, [q] + text + [q]) == NEUTRAL
  {
    assert [q][..0] == "" && After(NEUTRAL, "") == NEUTRAL;
    assert After(NEUTRAL, [q]) == State([q], false);
    AfterJoin(NEUTRAL, [q], text);
    StaysSame([q], text);
    assert ([q] + text + [q])[..|text| + 1] == [q] + text;
  }

  lemma {:induction false} NotLiveAtEnd(s: string)
    requires s != "" && s[|s| - 1] != '?'
    ensures !IsLive(s, |s| - 1)
  {
  }

  /** A question mark between two `"`, or two `'`, never counts, nor do the quotes. */
  lemma {:induction false} QuotedCountsNothing(a: string, q: char, text: string, b: string)
    requires After(NEUTRAL, a) == NEUTRAL && (q == '"' || q == '\'') && '\\' !in text && q !in text
    ensures CountOf(a + ([q] + text + [q] + b)) == CountOf(a) + CountOf(b)
    ensures After(NEUTRAL, a + ([q] + text + [q] + b)) == After(NEUTRAL, b)
  {
    var quoted := [q] + text + [q];
    QuotedState(q, text);
    forall i | 0 <= i < |quoted|
      ensures !IsLive(quoted, i)
    {
      if 0 < i <= |text| {
        assert quoted[..i] == [q] + text[..i - 1];
        assert forall c :: c in text[..i - 1] ==> c in text;
        QuotedState(q, text[..i - 1]);
      }
    }
    NothingLive(quoted, |quoted|);
    hide CountOf, After;
    NotLiveAtEnd(quoted);
    CountIsAdditive(quoted, b);
    CountIsAdditive(a, quoted + b);
  }

  /** An escaped question mark, or any other character, never counts. */
  lemma {:induction false} EscapedCountsNothing(a: string, c: char, b: string)
    requires After(NEUTRAL, a) == NEUTRAL
    ensures CountOf(a + (['\\', c] + b)) == CountOf(a) + CountOf(b)
    ensures After(NEUTRAL, a + (['\\', c] + b)) == After(NEUTRAL, b)
  {
    var escaped := ['\\', c];
    assert escaped[..0] == "" && escaped[..1] == ['\\'] && ['\\'][..0] == "";
    assert After(NEUTRAL, "") == NEUTRAL;
    assert After(NEUTRAL, ['\\']) == State("", true);
    assert After(NEUTRAL, escaped) == NEUTRAL;
    assert !IsLive(escaped, 0) && !IsLive(escaped, 1);
    NothingLive(escaped, 2);
    hide CountOf, After;
    CountIsAdditive(escaped, b);
    CountIsAdditive(a, escaped + b);
  }

  lemma {:induction false} NoMarkerAt(s: string, i: nat)
    requires i < |s| && !IsMarker(s, i)
    ensures MarkersUpTo(s, i + 1) == MarkersUpTo(s, i)
  {
  }

  lemma {:induction false} RunHasNone(s: string, start: nat, end: nat, n: nat)
    requires start + 1 < end <= |s| && start <= n <= end && forall k :: start <= k < end ==> IsLive(s, k)
    ensures MarkersUpTo(s, end) == MarkersUpTo(s, n)
    decreases end - n
  {
    if n < end {
      assert IsLive(s, n) && (n + 1 < end ==> IsLive(s, n + 1)) && (n > start ==> IsLive(s, n - 1));
      NoMarkerAt(s, n);
      RunHasNone(s, start, end, n + 1);
    }
  }

  /** A run of live question marks, from its first to the one past its last: one marker or none. */
  lemma {:induction false} RunCounts(s: string, start: nat, end: nat)
    requires start < end <= |s| && !IsLive(s, start - 1) && !IsLive(s, end)
    requires forall k :: start <= k < end ==> IsLive(s, k)
    ensures MarkersUpTo(s, end) == MarkersUpTo(s, start) + if end == start + 1 then 1 else 0
  {
    if end == start + 1 {
      assert IsMarker(s, start);
    } else {
      assert IsLive(s, start + 1);
      RunHasNone(s, start, end, start);
    }
  }

  /** Of question marks on their own, a single one counts, and more in a row do not. */
  lemma {:induction false} RunOfMarks(s: string)
    requires s != "" && forall i :: 0 <= i < |s| ==> s[i] == '?'
    ensures CountOf(s) == (if |s| == 1 then 1 else 0) && After(NEUTRAL, s) == NEUTRAL
  {
    assert '?' != '"' && '?' != '\'' && '?' != '\\';
    forall i | 0 <= i <= |s|
      ensures After(NEUTRAL, s[..i]) == NEUTRAL
    {
      assert forall c :: c in s[..i] ==> c == '?';
      StaysSame("", s[..i]);
    }
    assert s[..|s|] == s;
    forall i | 0 <= i < |s|
      ensures IsLive(s, i)
    {
    }
    RunCounts(s, 0, |s|);
  }

  // ---- the loop -----------------------------------------------------------------------------------

  /** A 16-bit counter wraps around. */
  function Wrapped(n: nat): (r: int)
    ensures -0x8000 <= r < 0x8000
  {
    if n % 0x1_0000 < 0x8000 then n % 0x1_0000 else n % 0x1_0000 - 0x1_0000
  }

  lemma {:induction false} WrappedNext(n: nat)
    ensures Wrapped(n + 1) == if Wrapped(n) == 0x7FFF then -0x8000 else Wrapped(n) + 1
  {
  }

  lemma {:induction false} StepAt(s: string, i: nat)
    requires i < |s|
    ensures After(NEUTRAL, s[..i + 1]) == Step(After(NEUTRAL, s[..i]), s[i])
  {
    assert s[..i + 1][..i] == s[..i];
  }

  lemma {:induction false} StartOf(s: string)
    ensures After(NEUTRAL, s[..0]) == NEUTRAL && MarkersUpTo(s, 0) == 0
  {
  }

  lemma {:induction false} LiveHere(s: string, i: nat)
    requires i < |s| && s[i] == MARKER && After(NEUTRAL, s[..i]) == NEUTRAL
    ensures IsLive(s, i) && After(NEUTRAL, s[..i + 1]) == NEUTRAL
  {
    NeutralAfterLive(s, i);
  }

  lemma {:induction false} NotLiveHere(s: string, i: nat)
    requires i < |s| && !(s[i] == MARKER && After(NEUTRAL, s[..i]) == NEUTRAL)
    ensures !IsLive(s, i) && MarkersUpTo(s, i + 1) == MarkersUpTo(s, i)
  {
    NoMarkerAt(s, i);
  }

  lemma {:induction false} RunEnds(s: string, i: nat)
    requires i == |s| || (i < |s| && s[i] != MARKER)
    ensures !IsLive(s, i)
  {
  }

  lemma {:induction false} RunBegins(s: string, i: nat)
    requires i < |s| && (i > 0 ==> !IsLive(s, i - 1))
    ensures !IsLive(s, i - 1)
  {
  }

  /** `count_param_markers`: fails exactly if the query ends within quotes or in an escape that is live,
      and counts in 16 bits. */
  method CountParamMarkers(s: string) returns (ok: bool, cnt: int)
    ensures ok <==> After(NEUTRAL, s) == NEUTRAL
    ensures ok ==> cnt == Wrapped(CountOf(s))
  {
    var pos, quote, escaping := 0, "", false;
    cnt := 0;
    hide IsLive, After, MarkersUpTo;
    StartOf(s);
    while pos < |s|
      invariant pos <= |s| && After(NEUTRAL, s[..pos]) == State(quote, escaping)
      invariant cnt == Wrapped(MarkersUpTo(s, pos))
      invariant pos > 0 && pos < |s| && s[pos] == MARKER ==> !IsLive(s, pos - 1)
    {
      var crr := s[pos];
      StepAt(s, pos);
      if crr == MARKER && !escaping && quote == "" {
        var sav := pos;
        pos := pos + 1;
        LiveHere(s, sav);
        ghost var st := After(NEUTRAL, s[..sav]);
        while pos < |s| && s[pos] == crr
          invariant sav < pos <= |s| && After(NEUTRAL, s[..pos]) == NEUTRAL
          invariant forall k :: sav <= k < pos ==> IsLive(s, k)
        {
          LiveHere(s, pos);
          pos := pos + 1;
        }
        RunEnds(s, pos);
        RunBegins(s, sav);
        RunCounts(s, sav, pos);
        if sav + 1 == pos {
          WrappedNext(MarkersUpTo(s, sav));
          cnt := if cnt == 0x7FFF then -0x8000 else cnt + 1;
        }
      } else {
        NotLiveHere(s, pos);
        if escaping {
          escaping := false;
        } else if crr == ESCAPE {
          escaping := true;
        } else if IsQuote(crr) {
          if quote == "" {
            quote := [crr];
          } else if quote == [crr] {
            quote := "";
          }
        }
        pos := pos + 1;
      }
    }
    assert s[..|s|] == s;
    ok := !escaping && quote == "";
  }
}
