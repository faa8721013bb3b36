/** Writing text into a caller's buffer. */
module Buffers {
  /** `base` with `text` written over it from `start` on. */
  ghost function Overwritten(base: seq<char>, start: nat, text: string): (s: seq<char>)
    requires start + |text| <= |base|
    ensures |s| == |base| && s[start..start + |text|] == text
    ensures s[..start] == base[..start] && s[start + |text|..] == base[start + |text|..]
  {
    base[..start] + text + base[start + |text|..]
  }

  /** The buffer held `base`, and `text` is all that has been written to it since, from `start`. */
  ghost predicate Wrote(dest: array<char>, base: seq<char>, start: nat, text: string)
    reads dest
  {
    |base| == dest.Length && start + |text| <= dest.Length && dest[..] == Overwritten(base, start, text)
  }

  lemma {:induction false} WriteExtends(base: seq<char>, start: nat, done: string, text: string, after: seq<char>)
    requires start + |done + text| <= |base| == |after|
    requires var pos := start + |done|;
             && (forall k :: 0 <= k < |after| && !(pos <= k < pos + |text|) ==>
                   after[k] == Overwritten(base, start, done)[k])
             && (forall k :: 0 <= k < |text| ==> after[pos + k] == text[k])
    ensures after == Overwritten(base, start, done + text)
  {
    var full := base[..start] + (done + text) + base[start + |done + text|..];
    var part := base[..start] + done + base[start + |done|..];
    forall k | 0 <= k < |after|
      ensures after[k] == full[k]
    {
      if start + |done| <= k < start + |done| + |text| {
        assert after[start + |done| + (k - start - |done|)] == text[k - start - |done|];
      } else {
        assert after[k] == part[k];
      }
    }
  }

  /** Copy `text` into the buffer, after what has been written. */
  method Put(dest: array<char>, pos: nat, text: string, ghost base: seq<char>, ghost start: nat, ghost done: string)
    returns (end: nat)
    requires Wrote(dest, base, start, done) && pos == start + |done|
    requires pos + |text| <= dest.Length
    modifies dest
    ensures end == pos + |text| && Wrote(dest, base, start, done + text)
  {
    end := pos + |text|;
    ghost var before := dest[..];
    for i := 0 to |text|
      invariant forall k :: 0 <= k < dest.Length && !(pos <= k < pos + i) ==> dest[k] == before[k]
      invariant forall k :: 0 <= k < i ==> dest[pos + k] == text[k]
    {
      dest[pos + i] := text[i];
    }
    WriteExtends(base, start, done, text, dest[..]);
  }

  /** Nothing written yet. */
  lemma {:induction false} WroteNothing(dest: array<char>, start: nat)
    requires start <= dest.Length
    ensures Wrote(dest, dest[..], start, "")
  {
    assert dest[..] == Overwritten(dest[..], start, "");
  }

  /** What was written is in front. */
  lemma {:induction false} WroteFront(dest: array<char>, base: seq<char>, text: string)
    requires Wrote(dest, base, 0, text)
    ensures dest[..|text|] == text
  {
    assert dest[..][0..|text|] == dest[..|text|];
  }

  lemma {:induction false} Reassociate(a: string, b: string, c: string)
    ensures a + b + c == a + (b + c)
  {
  }
}
