/** Reading a CBOR bignum into 64 bits (section 3.4.3 of RFC 8949). */
module Bignum {
  import opened Decimals

  type byte = b: int | 0 <= b < 256

  /** The number that big-endian bytes stand for. */
  function BigEndian(bytes: seq<byte>): nat {
    if bytes == [] then 0 else 256 * BigEndian(bytes[..|bytes| - 1]) + bytes[|bytes| - 1]
  }

  function LittleEndian(bytes: seq<byte>): nat {
    if bytes == [] then 0 else bytes[0] + 256 * LittleEndian(bytes[1..])
  }

  function Pow256(n: nat): (p: nat)
    ensures p > 0
  {
    if n == 0 then 1 else 256 * Pow256(n - 1)
  }

  lemma {:induction false} BelowPower(bytes: seq<byte>)
    ensures BigEndian(bytes) < Pow256(|bytes|)
  {
    if bytes != [] {
      BelowPower(bytes[..|bytes| - 1]);
    }
  }

  lemma {:induction false} TimesPower(a: nat, p: nat)
    ensures 256 * Times(a, p) == Times(a, 256 * p)
  {
  }

  /** A leading byte counts for the power of what follows it. */
  lemma {:induction false} LeadingByte(bytes: seq<byte>)
    requires bytes != []
    ensures BigEndian(bytes) == Times(bytes[0], Pow256(|bytes| - 1)) + BigEndian(bytes[1..])
  {
    var front, last := bytes[..|bytes| - 1], bytes[|bytes| - 1];
    if |bytes| == 1 {
      assert bytes[1..] == [] && front == [];
    } else {
      LeadingByte(front);
      assert front[1..] == bytes[1..][..|bytes| - 2] && bytes[1..][|bytes| - 2] == last;
      TimesPower(bytes[0], Pow256(|bytes| - 2));
    }
  }

  /** Bytes read from the other end. */
  function Swapped(bytes: seq<byte>): (s: seq<byte>)
    ensures |s| == |bytes| && forall i :: 0 <= i < |s| ==> s[i] == bytes[|s| - 1 - i]
  {
    seq(|bytes|, i requires 0 <= i < |bytes| => bytes[|bytes| - 1 - i])
  }

  /** A little-endian load of the swapped bytes is a big-endian load. */
  lemma {:induction false} SwapIsBigEndian(bytes: seq<byte>)
    ensures LittleEndian(Swapped(bytes)) == BigEndian(bytes)
  {
    if bytes != [] {
      var front := bytes[..|bytes| - 1];
      SwapIsBigEndian(front);
      assert Swapped(bytes)[1..] == Swapped(front);
    }
  }

  function LittleBytes(v: nat, n: nat): (bytes: seq<byte>)
    ensures |bytes| == n
  {
    if n == 0 then [] else [v % 256] + LittleBytes(v / 256, n - 1)
  }

  lemma {:induction false} FirstByte(first: byte, rest: nat)
    ensures (first + 256 * rest) % 256 == first && (first + 256 * rest) / 256 == rest
  {
  }

  lemma {:induction false} LoadedBytes(bytes: seq<byte>)
    ensures LittleBytes(LittleEndian(bytes), |bytes|) == bytes
  {
    if bytes != [] {
      var rest := LittleEndian(bytes[1..]);
      FirstByte(bytes[0], rest);
      assert LittleEndian(bytes) == bytes[0] + 256 * rest;
      LoadedBytes(bytes[1..]);
      hide LittleEndian;
      assert [bytes[0]] + bytes[1..] == bytes;
    }
  }

  /** `_byteswap_uint64`. */
  function ByteSwap64(v: nat): nat {
    LittleEndian(Swapped(LittleBytes(v, 8)))
  }

  lemma {:induction false} LeadingZero(bytes: seq<byte>)
    requires bytes != [] && bytes[0] == 0
    ensures BigEndian(bytes) == BigEndian(bytes[1..])
  {
    LeadingByte(bytes);
  }

  lemma {:induction false} EightBytes()
    ensures Pow256(8) == TWO64
  {
    assert Pow256(4) == 0x1_0000_0000;
  }

  lemma {:induction false} PowersGrow(m: nat, n: nat)
    requires m <= n
    ensures Pow256(m) <= Pow256(n)
  {
    if m < n {
      PowersGrow(m, n - 1);
    }
  }

  lemma {:induction false} TooLarge(bytes: seq<byte>)
    requires |bytes| > 8 && bytes[0] != 0
    ensures BigEndian(bytes) >= TWO64
  {
    LeadingByte(bytes);
    PowersGrow(8, |bytes| - 1);
    EightBytes();
    TimesAtLeast(Pow256(|bytes| - 1), bytes[0]);
    TimesCommutes(Pow256(|bytes| - 1), bytes[0]);
    hide Pow256, Times, BigEndian;
  }

  lemma {:induction false} ZeroPadded(word: seq<byte>, offset: nat)
    requires offset <= |word| && forall k :: 0 <= k < offset ==> word[k] == 0
    ensures BigEndian(word) == BigEndian(word[offset..])
    decreases offset
  {
    if offset == 0 {
      assert word[0..] == word;
    } else {
      LeadingZero(word);
      ZeroPadded(word[1..], offset - 1);
      assert word[1..][offset - 1..] == word[offset..];
    }
  }

  /** `cbor_value_get_tagged_uint64`, from the extracted bytes on: they are read exactly if their value
      fits 64 bits, however many leading zeros they have. */
  method ReadBignum(str: seq<byte>) returns (ok: bool, val: nat)
    ensures ok <==> BigEndian(str) < TWO64
    ensures ok ==> val == BigEndian(str)
  {
    hide BigEndian, LittleEndian, Pow256;
    var cnt, i, offset := |str|, 0, 0;
    assert str[0..] == str;
    if 8 < cnt {
      while 8 < cnt - i
        invariant i + 8 <= cnt && BigEndian(str[i..]) == BigEndian(str)
      {
        if str[i] != 0 {
          TooLarge(str[i..]);
          return false, 0;
        }
        LeadingZero(str[i..]);
        assert str[i..][1..] == str[i + 1..];
        i := i + 1;
      }
    } else {
      offset := 8 - cnt;
    }
    var word := new byte[8](_ => 0);
    for k := 0 to cnt - i
      invariant forall j :: 0 <= j < offset ==> word[j] == 0
      invariant forall j :: offset <= j < offset + k ==> word[j] == str[i + j - offset]
    {
      word[offset + k] := str[i + k];
    }
    assert word[..][offset..] == str[i..];
    ZeroPadded(word[..], offset);
    BelowPower(word[..]);
    EightBytes();
    LoadedBytes(word[..]);
    SwapIsBigEndian(word[..]);
    val := LittleEndian(word[..]);
    val := ByteSwap64(val);
    return true, val;
  }
}
