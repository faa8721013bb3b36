/** The growing buffer an answer is received in, under a cap. */
module ReceiveBuffer {
  const START_SIZE := 4096

  /** Whether a chunk is within the cap; 0 stands for no cap. */
  predicate IsWithin(cap: nat, size: nat) {
    cap == 0 || size <= cap
  }

  /** What a buffer holds after being offered these chunks, if memory can always be had. */
  function Collected(held: seq<char>, chunks: seq<seq<char>>, cap: nat): seq<char>
    decreases |chunks|
  {
    if chunks == [] then held
    else Collected(if IsWithin(cap, |held| + |chunks[0]|) then held + chunks[0] else held, chunks[1..], cap)
  }

  function Joined(chunks: seq<seq<char>>): seq<char> {
    if chunks == [] then [] else chunks[0] + Joined(chunks[1..])
  }

  /** All that is sent is held exactly if all of it is within the cap, which is never passed. */
  lemma {:induction false} AllOrCapped(held: seq<char>, chunks: seq<seq<char>>, cap: nat)
    requires IsWithin(cap, |held|)
    ensures var all := Collected(held, chunks, cap);
            && held <= all && |all| <= |held| + |Joined(chunks)| && IsWithin(cap, |all|)
            && (all == held + Joined(chunks) <==> IsWithin(cap, |held| + |Joined(chunks)|))
    decreases |chunks|
  {
    if chunks == [] {
      assert held + [] == held;
    } else {
      var chunk, rest := chunks[0], chunks[1..];
      assert Joined(chunks) == chunk + Joined(rest);
      if IsWithin(cap, |held| + |chunk|) {
        assert Collected(held, chunks, cap) == Collected(held + chunk, rest, cap);
        hide Collected, Joined;
        AllOrCapped(held + chunk, rest, cap);
        assert held + (chunk + Joined(rest)) == (held + chunk) + Joined(rest);
      } else {
        assert Collected(held, chunks, cap) == Collected(held, rest, cap);
        hide Collected, Joined;
        AllOrCapped(held, rest, cap);
        assert |held + (chunk + Joined(rest))| == |held| + |chunk| + |Joined(rest)|;
      }
    }
  }

  /** Everything that is sent is held without a cap, and up to one that it may reach; past it, something is
      missing. */
  lemma {:induction false} HeldWhole(chunks: seq<seq<char>>, cap: nat)
    ensures Collected([], chunks, cap) == Joined(chunks) <==> cap == 0 || |Joined(chunks)| <= cap
  {
    hide Collected, Joined;
    AllOrCapped([], chunks, cap);
    assert [] + Joined(chunks) == Joined(chunks);
  }

  /** A chunk that is empty comes before any that is taken. */
  predicate StartsEmpty(chunks: seq<seq<char>>, cap: nat)
    decreases |chunks|
  {
    chunks != [] && (chunks[0] == [] || (!IsWithin(cap, |chunks[0]|) && StartsEmpty(chunks[1..], cap)))
  }

  lemma {:induction false} NextChunk(held: seq<char>, chunks: seq<seq<char>>, i: nat, cap: nat)
    requires i < |chunks|
    ensures Collected(held, chunks[i..], cap)
         == Collected(if IsWithin(cap, |held| + |chunks[i]|) then held + chunks[i] else held, chunks[i + 1..], cap)
    ensures StartsEmpty(chunks[i..], cap)
       <==> chunks[i] == [] || (!IsWithin(cap, |chunks[i]|) && StartsEmpty(chunks[i + 1..], cap))
  {
    hide IsWithin;
    assert chunks[i..][1..] == chunks[i + 1..];
  }

  lemma {:induction false} NoMoreChunks(held: seq<char>, chunks: seq<seq<char>>, cap: nat)
    ensures Collected(held, chunks[|chunks|..], cap) == held && !StartsEmpty(chunks[|chunks|..], cap)
  {
  }

  /** A size after doubling it so many times. */
  function Doubled(size: nat, times: nat): nat {
    if times == 0 then size else 2 * Doubled(size, times - 1)
  }

  predicate IsDoubled(size: nat, start: nat, times: nat, octets: nat, cap: nat) {
    && octets <= Doubled(start, times) && (times > 0 ==> Doubled(start, times - 1) < octets)
    && size == if 0 < cap < Doubled(start, times) then cap else Doubled(start, times)
  }

  /** The size that a buffer of this size grows to for so many octets: doubled no more often than needed, and
      cut to the cap. */
  ghost predicate IsGrown(size: nat, before: nat, octets: nat, cap: nat) {
    var start := if before > 0 then before else 4096;
    exists times: nat :: IsDoubled(size, start, times, octets, cap)
  }

  /** The octets taken of a chunk, or the write that ends it all. */
  datatype Received = Taken(octets: nat) | NullWrite

  /** Double a size until it is enough. */
  method SizeFor(start: nat, octets: nat) returns (need: nat, ghost times: nat)
    requires start > 0
    ensures need == Doubled(start, times) >= start && octets <= need
    ensures times > 0 ==> Doubled(start, times - 1) < octets
  {
    need, times := start, 0;
    while need < octets
      invariant start <= need == Doubled(start, times) && (times > 0 ==> Doubled(start, times - 1) < octets)
      decreases octets - need
    {
      need, times := need * 2, times + 1;
    }
  }

  class Receiver {
    /** The longest the buffer may grow to, if not 0. */
    const amax: nat
    var abuff: array?<char>
    var alen: nat
    var apos: nat

    constructor (amax: nat)
      ensures Valid() && Held() == [] && this.amax == amax && abuff == null
    {
      this.amax, abuff, alen, apos := amax, null, 0, 0;
    }

    /** What has been received. */
    ghost function Held(): seq<char>
      requires Valid()
      reads this, abuff
    {
      if abuff == null then [] else abuff[..apos]
    }

    ghost predicate Valid()
      reads this, abuff
    {
      && apos <= alen && IsWithin(amax, alen)
      && if abuff == null then alen == 0 else alen > 0 && abuff.Length == alen + 1 && abuff[apos] == '\0'
    }

    /** The copy, and the terminator after it. */
    method Append(chunk: seq<char>)
      requires Valid() && abuff != null && apos + |chunk| <= alen
      modifies this`apos, abuff
      ensures Valid() && Held() == old(Held()) + chunk && apos == old(apos) + |chunk|
    {
      ghost var held := Held();
      forall i | 0 <= i < |chunk| {
        abuff[apos + i] := chunk[i];
      }
      apos := apos + |chunk|;
      abuff[apos] := '\0';
      assert abuff[..apos] == held + chunk;
    }

    /** `realloc`, with one more for the terminator. */
    method Grow(need: nat)
      requires Valid() && alen < need && IsWithin(amax, need)
      modifies this
      ensures Valid() && fresh(abuff) && alen == need && apos == old(apos) && Held() == old(Held())
    {
      var wbuf := new char[need + 1](_ => '\0');
      if abuff != null {
        forall i | 0 <= i < apos {
          wbuf[i] := abuff[i];
        }
      }
      abuff, alen := wbuf, need;
    }

    /** `write_callback`: take a chunk, or none of it. A very first chunk that is empty makes nothing grow,
        and the terminator is written through a null pointer. */
    method Receive(chunk: seq<char>, memory: bool) returns (r: Received)
      requires Valid()
      modifies this, abuff
      ensures Valid() && (abuff == old(abuff) || fresh(abuff))
      ensures r.NullWrite? <==> chunk == [] && old(abuff) == null
      ensures old(abuff) != null ==> abuff != null
      ensures var fits := amax == 0 || |old(Held())| + |chunk| <= amax;
              r.Taken? ==>
                && r.octets == (if fits && (memory || |old(Held())| + |chunk| <= old(alen)) then |chunk| else 0)
                && Held() == (if r.octets == |chunk| then old(Held()) + chunk else old(Held()))
      ensures var octets := |old(Held())| + |chunk|;
              if r.Taken? && r.octets == |chunk| && octets > old(alen) then IsGrown(alen, old(alen), octets, amax)
              else alen == old(alen)
      ensures r.NullWrite? || r.octets < |chunk| ==>
                unchanged(this) && (abuff != null ==> abuff[..] == old(abuff[..]))
    {
      var avail, have := alen - apos, |chunk|;
      if avail < have {
        var start := if alen > 0 then alen else START_SIZE;
        var need, times := SizeFor(start, apos + have);
        if amax > 0 && amax < need {
          if amax <= alen {
            return Taken(0);
          }
          need := amax;
          avail := amax - apos;
          if avail < have {
            return Taken(0);
          }
        }
        if !memory {
          return Taken(0);
        }
        Grow(need);
        assert IsDoubled(alen, start, times, apos + have, amax);
      }
      if abuff == null {
        return NullWrite;
      }
      Append(chunk);
      return Taken(have);
    }

    /** The calls for the chunks of an answer, one after the other, with memory to be had: what is held is
        what is collected, unless an empty chunk comes before any that is taken. */
    method ReceiveAll(chunks: seq<seq<char>>) returns (ok: bool)
      requires Valid() && abuff == null
      modifies this
      ensures Valid() && ok == !StartsEmpty(chunks, amax)
      ensures ok ==> Held() == Collected([], chunks, amax)
      ensures !ok ==> abuff == null && Held() == []
    {
      hide Collected, StartsEmpty;
      var i := 0;
      assert chunks[0..] == chunks;
      while i < |chunks|
        invariant i <= |chunks| && Valid() && (abuff == null || fresh(abuff))
        invariant Collected(Held(), chunks[i..], amax) == Collected([], chunks, amax)
        invariant if abuff == null then StartsEmpty(chunks[i..], amax) == StartsEmpty(chunks, amax)
                  else !StartsEmpty(chunks, amax)
      {
        ghost var held, wasNull := Held(), abuff == null;
        NextChunk(held, chunks, i, amax);
        var r := Receive(chunks[i], true);
        if r.NullWrite? {
          return false;
        }
        assert wasNull ==> held == [];
        assert chunks[i] == [] ==> held + chunks[i] == held;
        i := i + 1;
      }
      NoMoreChunks(Held(), chunks, amax);
      return true;
    }
  }
}
