/** Getting a long string column in pieces, as wide characters of two bytes. */
module Pieces {
  import opened Buffers

  const CHAR_SIZE := 2

  lemma {:induction false} Aligned(n: nat, unit: nat)
    requires unit > 0
    ensures 0 <= n - n % unit <= n
  {
    assert n == n / unit * unit + n % unit;
  }

  /** `buff_octet_size`: how many bytes to copy, and if the buffer was too small for all of them. The
      statement's maximum length, if any, is applied first, and does not count as a truncation. */
  function OctetsToCopy(avail: nat, unit: nat, room: nat, maxLength: nat): (r: (nat, bool))
    requires unit > 0
    ensures r.0 <= avail && r.0 <= room
    ensures maxLength == 0 ==> (r.1 <==> room < avail)
  {
    var most := if 0 < maxLength < avail then maxLength else avail;
    var n := if room < most then room else most;
    Aligned(n, unit);
    (n - n % unit, room < most)
  }

  /** The outcome of a get: the characters handed over, the bytes said to be left before it, if it was
      cut short, and the offset the next get resumes at; -1 when there is nothing more. */
  datatype Got = Got(piece: string, indicator: nat, truncated: bool, next: int)

  /** `transfer_xstr0` and `gd_offset_update`. */
  function Get(text: string, offset: nat, room: nat, maxLength: nat): Got
    requires offset <= |text|
  {
    var cnt := |text| - offset;
    var indicator := if 0 < maxLength then maxLength else CHAR_SIZE * cnt;
    var (bytes, truncated) := OctetsToCopy(CHAR_SIZE * (cnt + 1), CHAR_SIZE, room, maxLength);
    if bytes == 0 then Got("", indicator, truncated, offset)
    else
      var chars := bytes / CHAR_SIZE - 1;
      Got(text[offset..offset + chars], indicator, truncated, if cnt <= chars then -1 else offset + chars)
  }

  /** What is left to get from an offset on. */
  function Left(text: string, offset: int): string
    requires -1 <= offset <= |text|
  {
    if offset < 0 then "" else text[offset..]
  }

  lemma {:induction false} FillsRoom(cnt: nat, room: nat)
    ensures var (bytes, truncated) := OctetsToCopy(CHAR_SIZE * (cnt + 1), CHAR_SIZE, room, 0);
            bytes == if truncated then room - room % 2 else 2 * (cnt + 1)
  {
  }

  /** Without a maximum length, a get hands over what comes next, says how much was left, is cut short
      exactly if the rest and its terminator do not fit, and exhausts the data exactly if it is not. */
  lemma {:induction false} GetAdvances(text: string, offset: nat, room: nat)
    requires offset <= |text|
    ensures var g, rest := Get(text, offset, room, 0), Left(text, offset);
            && g.indicator == CHAR_SIZE * |rest|
            && (g.truncated <==> room < CHAR_SIZE * (|rest| + 1)) && (g.truncated <==> g.next >= 0)
            && -1 <= g.next <= |text| && g.piece + Left(text, g.next) == rest
            && (g.truncated && room >= 2 * CHAR_SIZE ==> g.next > offset)
            && CHAR_SIZE * |g.piece| <= room
  {
    var cnt := |text| - offset;
    var (bytes, truncated) := OctetsToCopy(CHAR_SIZE * (cnt + 1), CHAR_SIZE, room, 0);
    hide OctetsToCopy;
    FillsRoom(cnt, room);
    if bytes > 0 {
      var chars := bytes / 2 - 1;
      assert text[offset..offset + chars] + text[offset + chars..] == text[offset..];
    }
  }

  // ---- a run of gets ------------------------------------------------------------------------------

  /** The gets that return data, for a column whose offset is not negative when the first is made;
      the ones after the data is exhausted return none. */
  function Gets(text: string, offset: int, rooms: seq<nat>): (gets: seq<Got>)
    requires -1 <= offset <= |text|
    ensures |gets| <= |rooms|
    decreases rooms
  {
    if rooms == [] || offset < 0 then []
    else
      GetAdvances(text, offset, rooms[0]);
      var g := Get(text, offset, rooms[0], 0);
      [g] + Gets(text, g.next, rooms[1..])
  }

  function Pieced(gets: seq<Got>): string {
    if gets == [] then "" else gets[0].piece + Pieced(gets[1..])
  }

  /** The offset after a run. */
  function Reached(offset: int, gets: seq<Got>): int {
    if gets == [] then offset else gets[|gets| - 1].next
  }

  lemma {:induction false} FirstOfGets(text: string, offset: nat, rooms: seq<nat>)
    requires offset <= |text| && rooms != []
    ensures var g := Get(text, offset, rooms[0], 0);
            && -1 <= g.next <= |text|
            && var gets, later := Gets(text, offset, rooms), Gets(text, g.next, rooms[1..]);
            && gets == [g] + later && gets[0] == g && gets[1..] == later
            && Reached(offset, gets) == Reached(g.next, later)
  {
    GetAdvances(text, offset, rooms[0]);
    var g := Get(text, offset, rooms[0], 0);
    hide Get;
    assert Gets(text, offset, rooms) == [g] + Gets(text, g.next, rooms[1..]);
  }

  /** The pieces, whatever the buffers, are the text from where the run started to where it got. */
  lemma {:induction false} PiecesAreTheText(text: string, offset: int, rooms: seq<nat>)
    requires -1 <= offset <= |text|
    ensures var gets := Gets(text, offset, rooms);
            && -1 <= Reached(offset, gets) <= |text|
            && Pieced(gets) + Left(text, Reached(offset, gets)) == Left(text, offset)
    decreases rooms
  {
    if rooms == [] || offset < 0 {
      assert "" + Left(text, offset) == Left(text, offset);
    } else {
      var g := Get(text, offset, rooms[0], 0);
      GetAdvances(text, offset, rooms[0]);
      FirstOfGets(text, offset, rooms);
      PiecesAreTheText(text, g.next, rooms[1..]);
      var later := Gets(text, g.next, rooms[1..]);
      hide Get, Left, Gets;
      var left := Left(text, Reached(g.next, later));
      assert (g.piece + Pieced(later)) + left == g.piece + (Pieced(later) + left);
    }
  }

  /** Each get of a run says how many bytes there were before it. All but the last are cut short, and
      the last is not exactly if the data is exhausted. */
  lemma {:induction false} GetsReport(text: string, offset: int, rooms: seq<nat>, i: nat)
    requires -1 <= offset <= |text| && i < |Gets(text, offset, rooms)|
    ensures var gets := Gets(text, offset, rooms);
            && 0 <= Reached(offset, gets[..i]) <= |text|
            && gets[i].indicator == CHAR_SIZE * |Left(text, Reached(offset, gets[..i]))|
            && (gets[i].truncated <==> i < |gets| - 1 || Reached(offset, gets) >= 0)
    decreases rooms
  {
    var g := Get(text, offset, rooms[0], 0);
    GetAdvances(text, offset, rooms[0]);
    FirstOfGets(text, offset, rooms);
    var gets, later := Gets(text, offset, rooms), Gets(text, g.next, rooms[1..]);
    if i == 0 {
      assert gets[..0] == [];
      if later == [] && g.next >= 0 {
        assert Reached(offset, gets) == g.next;
      } else if later != [] {
        assert g.next >= 0;
      }
    } else {
      GetsReport(text, g.next, rooms[1..], i - 1);
      hide Get, Left, Gets;
      assert gets[..i] == [g] + later[..i - 1] && gets[i] == later[i - 1];
      assert Reached(offset, gets[..i]) == Reached(g.next, later[..i - 1]);
    }
  }

  lemma {:induction false} AlwaysAdvances(text: string, offset: nat, rooms: seq<nat>)
    requires offset <= |text| && |rooms| >= 1 && |rooms| >= |text| - offset
    requires forall i :: 0 <= i < |rooms| ==> rooms[i] >= 2 * CHAR_SIZE
    ensures Reached(offset, Gets(text, offset, rooms)) == -1
    decreases rooms
  {
    var g := Get(text, offset, rooms[0], 0);
    GetAdvances(text, offset, rooms[0]);
    var later := Gets(text, g.next, rooms[1..]);
    assert Gets(text, offset, rooms) == [g] + later;
    if g.next >= 0 {
      hide Get, Left;
      AlwaysAdvances(text, g.next, rooms[1..]);
    }
  }

  /** With buffers of at least two characters, as many gets as there are characters (or one) are enough
      to get the whole text, and nothing is left then. */
  lemma {:induction false} BuffersOfTwoReassemble(text: string, offset: nat, rooms: seq<nat>)
    requires offset <= |text| && |rooms| >= 1 && |rooms| >= |text| - offset
    requires forall i :: 0 <= i < |rooms| ==> rooms[i] >= 2 * CHAR_SIZE
    ensures Pieced(Gets(text, offset, rooms)) == text[offset..] && Reached(offset, Gets(text, offset, rooms)) == -1
  {
    AlwaysAdvances(text, offset, rooms);
    PiecesAreTheText(text, offset, rooms);
    assert Pieced(Gets(text, offset, rooms)) + "" == Pieced(Gets(text, offset, rooms));
  }

  /** A buffer of less than two characters gets nothing but the terminator, or not even that. */
  lemma {:induction false} SmallBuffersStand(text: string, offset: nat, room: nat)
    requires offset < |text|
    ensures Get(text, offset, room, 0).next == offset <==> room < 2 * CHAR_SIZE
  {
    GetAdvances(text, offset, room);
    FillsRoom(|text| - offset, room);
  }

  // ---- the copy -----------------------------------------------------------------------------------

  /** What is written to the application's buffer: the piece and the character it is closed with. */
  function Written(text: string, offset: nat, room: nat, maxLength: nat): string
    requires offset <= |text|
  {
    var (bytes, truncated) := OctetsToCopy(CHAR_SIZE * (|text| - offset + 1), CHAR_SIZE, room, maxLength);
    if bytes == 0 then "" else
      var piece := Get(text, offset, room, maxLength).piece;
      piece + [if truncated then '\0' else (text + ['\0'])[offset + |piece|]]
  }

  /** Without a maximum length, every piece is closed with a NUL if there is room for one. */
  lemma {:induction false} PieceIsTerminated(text: string, offset: nat, room: nat)
    requires offset <= |text|
    ensures Written(text, offset, room, 0)
         == if room < CHAR_SIZE then "" else Get(text, offset, room, 0).piece + ['\0']
  {
    FillsRoom(|text| - offset, room);
    hide OctetsToCopy;
  }

  /** How long a piece is: it fills the buffer but for its NUL, or is all the indicator says. */
  lemma {:induction false} PieceLength(text: string, offset: nat, room: nat)
    requires offset <= |text| && room >= CHAR_SIZE
    ensures var g := Get(text, offset, room, 0);
            |g.piece| == if g.truncated then room / CHAR_SIZE - 1 else g.indicator / CHAR_SIZE
  {
    FillsRoom(|text| - offset, room);
    hide OctetsToCopy;
  }

  /** The piece is in front of the buffer it was written to. */
  lemma {:induction false} PieceInFront(dst: array<char>, base: seq<char>, text: string, offset: nat, room: nat)
    requires offset <= |text| && room >= CHAR_SIZE && |Written(text, offset, room, 0)| <= dst.Length == |base|
    requires Wrote(dst, base, 0, Written(text, offset, room, 0))
    ensures var g := Get(text, offset, room, 0);
            var n := if g.truncated then room / CHAR_SIZE - 1 else g.indicator / CHAR_SIZE;
            n <= dst.Length && dst[..n] == g.piece
  {
    hide Get, Written;
    PieceIsTerminated(text, offset, room);
    PieceLength(text, offset, room);
    var piece := Get(text, offset, room, 0).piece;
    WroteFront(dst, base, piece + ['\0']);
    assert dst[..|piece|] == dst[..|piece| + 1][..|piece|];
  }

  /** With one, it may not be: the last character copied is then one of the text's, and the get is not
      reported as cut short. */
  lemma {:induction false} MaxLengthIsUnterminated(text: string, offset: nat, room: nat, maxLength: nat)
    requires offset <= |text| && 0 < maxLength < CHAR_SIZE * (|text| - offset + 1) && maxLength <= room
    ensures Written(text, offset, room, maxLength) == text[offset..offset + maxLength / CHAR_SIZE]
    ensures !Get(text, offset, room, maxLength).truncated
  {
    var n := maxLength / CHAR_SIZE;
    if n > 0 {
      assert text[offset..offset + n] == text[offset..offset + n - 1] + [text[offset + n - 1]];
    }
  }

  /** A maximum length is what the indicator says, however much is left; and a get is only cut short when the
      buffer has room for less than that, or for less than the rest and its NUL. */
  lemma {:induction false} MaxLengthIsReported(text: string, offset: nat, room: nat, maxLength: nat)
    requires offset <= |text| && maxLength > 0
    ensures var g, rest := Get(text, offset, room, maxLength), CHAR_SIZE * (|text| - offset + 1);
            g.indicator == maxLength && (g.truncated <==> room < maxLength && room < rest)
  {
  }

  predicate IsTerminated(written: string) {
    written != "" && written[|written| - 1] == '\0'
  }

  /** A piece of a text without NULs is closed with one exactly if there is room for a character, and the
      maximum length, if any, is enough for the rest of the text and its NUL, or more than there is room
      for. */
  lemma {:induction false} TerminatedIff(text: string, offset: nat, room: nat, maxLength: nat)
    requires offset <= |text| && '\0' !in text
    ensures IsTerminated(Written(text, offset, room, maxLength))
       <==> && room >= CHAR_SIZE
            && (maxLength == 0 || maxLength >= CHAR_SIZE * (|text| - offset + 1) || room < maxLength)
  {
    var w := Written(text, offset, room, maxLength);
    if w != "" {
      assert |w| - 1 < |text| - offset ==> (text + ['\0'])[offset + |w| - 1] in text;
    }
  }

  lemma {:induction false} WholeChars(avail: nat, room: nat, maxLength: nat)
    ensures OctetsToCopy(avail, CHAR_SIZE, room, maxLength).0 % CHAR_SIZE == 0
  {
  }

  method Transfer(text: string, offset: nat, room: nat, maxLength: nat, dst: array<char>) returns (g: Got)
    requires offset <= |text| && room <= CHAR_SIZE * dst.Length
    modifies dst
    ensures g == Get(text, offset, room, maxLength)
    ensures |Written(text, offset, room, maxLength)| <= dst.Length
    ensures Wrote(dst, old(dst[..]), 0, Written(text, offset, room, maxLength))
  {
    hide Wrote, OctetsToCopy;
    var cnt := |text| - offset;
    var indicator := if 0 < maxLength then maxLength else CHAR_SIZE * cnt;
    var (bytes, truncated) := OctetsToCopy(CHAR_SIZE * (cnt + 1), CHAR_SIZE, room, maxLength);
    WholeChars(CHAR_SIZE * (cnt + 1), room, maxLength);
    ghost var base := dst[..];
    WroteNothing(dst, 0);
    if bytes == 0 {
      return Got("", indicator, truncated, offset);
    }
    var source := text + ['\0'];
    var chars := bytes / CHAR_SIZE - 1;
    var last := source[offset + chars];
    var end := Put(dst, 0, source[offset..offset + chars], base, 0, "");
    assert "" + source[offset..offset + chars] == text[offset..offset + chars];
    var closing := if truncated then '\0' else last;
    end := Put(dst, end, [closing], base, 0, text[offset..offset + chars]);
    return Got(text[offset..offset + chars], indicator, truncated, if cnt <= chars then -1 else offset + chars);
  }
}
