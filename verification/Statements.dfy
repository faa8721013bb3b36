/** The statement: its result set, its counters, and the state of piecewise gets. */
module Statements {
  import opened Buffers
  import Markers
  import opened Paging
  import opened Pieces
  import opened Wrappers

  datatype SqlState = HY000 | HY010 | HYC00 | S07009

  datatype Return = Success | WithInfo | NoData | Error(state: SqlState)

  datatype RowStatus = RowSuccess | RowNoRow | RowOther

  /** `resultset_st`: the page at hand. */
  datatype PageState = PageState(attached: bool, forced: bool, pending: seq<Row>, cursor: bool, vrows: nat)

  const EMPTY := PageState(false, false, [], false, 0)

  /** The number of rows that could not be transferred. */
  function Failures(rows: seq<Row>): (n: nat)
    ensures n <= |rows|
  {
    if rows == [] then 0
    else Failures(rows[..|rows| - 1]) + if rows[|rows| - 1].transfers then 0 else 1
  }

  /** What a fetch returns. */
  function Verdict(f: Fetched): Return {
    if f.end == Failed then Error(HY000)
    else if f.rows == [] then NoData
    else if Failures(f.rows) == |f.rows| then Error(HY000)
    else Success
  }

  lemma {:induction false} AllFail(rows: seq<Row>)
    ensures Failures(rows) == |rows| <==> forall i :: 0 <= i < |rows| ==> !rows[i].transfers
  {
    if rows != [] {
      AllFail(rows[..|rows| - 1]);
    }
  }

  /** What a fetch returns, by what there was to fetch: an error exactly if the answers break off before it
      is filled, or if there are rows and none transfers; "no data" exactly if nothing breaks off and there
      is no row. */
  lemma {:induction false} VerdictIs(s: ResultSet, server: Server, room: nat)
    ensures var f := Paging.Fetch(s, server, room);
            var broken := BreaksOff(s, server, room);
            var ret := Verdict(f);
            && (ret == Error(HY000)
                <==> broken || (f.rows != [] && forall i :: 0 <= i < |f.rows| ==> !f.rows[i].transfers))
            && (ret == NoData <==> !broken && f.rows == [])
            && (ret == Success <==> !broken && exists i :: 0 <= i < |f.rows| && f.rows[i].transfers)
  {
    hide Paging.Fetch, BreaksOff, Failures;
    var f := Paging.Fetch(s, server, room);
    FailsIff(s, server, room);
    AllFail(f.rows);
  }

  /** What `clear_resultset` leaves. */
  function Cleared(s: ResultSet, onClose: bool): ResultSet {
    var empty := s.(attached := false, forced := false, pending := [], cursor := false, vrows := 0,
        past := s.past + s.vrows);
    if onClose then empty.(tvRows := 0, nset := 0, past := 0) else empty
  }

  lemma {:induction false} NextIsWithin(text: string, offset: nat, room: nat, maxLength: nat)
    requires offset <= |text|
    ensures -1 <= Get(text, offset, room, maxLength).next <= |text|
  {
  }

  /** The values of the last row visited, or what was there before if there is none. */
  function LastOf(rows: seq<Row>, before: seq<string>): seq<string> {
    if rows == [] then before else rows[|rows| - 1].columns
  }

  /** The rows that can be transferred are in the rowset, each at its place; past all the rows, the
      rowset and the status array are as given. */
  ghost predicate InPlace(rows: seq<Row>, rowset: array<Row>, status: array<RowStatus>,
                          rest: seq<Row>, marks: seq<RowStatus>)
    reads rowset, status
  {
    && |rows| <= rowset.Length == status.Length == |rest| == |marks|
    && (forall i :: 0 <= i < |rows| && rows[i].transfers ==> rowset[i] == rows[i] && status[i] == RowSuccess)
    && forall i :: |rows| <= i < rowset.Length ==> rowset[i] == rest[i] && status[i] == marks[i]
  }

  lemma {:induction false} NothingYet(rowset: array<Row>, status: array<RowStatus>)
    requires rowset.Length == status.Length
    ensures InPlace([], rowset, status, rowset[..], status[..]) && Failures([]) == 0
  {
  }

  /** The marks of the rows that a result set is short of. */
  function NoRowsFrom(marks: seq<RowStatus>, i: nat): (r: seq<RowStatus>)
    ensures |r| == |marks| && forall k :: 0 <= k < |marks| ==> r[k] == if k < i then marks[k] else RowNoRow
  {
    seq(|marks|, k requires 0 <= k < |marks| => if k < i then marks[k] else RowNoRow)
  }

  /** Hand a row over, if all of it can be. */
  method PutRow(row: Row, rowset: array<Row>, status: array<RowStatus>, i: nat, ghost done: seq<Row>,
                ghost rest: seq<Row>, ghost marks: seq<RowStatus>)
    requires InPlace(done, rowset, status, rest, marks) && |done| == i < rowset.Length
    modifies rowset, status
    ensures InPlace(done + [row], rowset, status, rest, marks)
  {
    if row.transfers {
      rowset[i], status[i] := row, RowSuccess;
    }
  }

  method NoMoreRows(status: array<RowStatus>, rowset: array<Row>, i: nat, ghost rows: seq<Row>,
                    ghost rest: seq<Row>, ghost marks: seq<RowStatus>)
    requires InPlace(rows, rowset, status, rest, marks) && i == |rows|
    modifies status
    ensures InPlace(rows, rowset, status, rest, NoRowsFrom(marks, i))
  {
    for j := i to status.Length
      invariant forall k :: 0 <= k < i ==> status[k] == old(status[k])
      invariant forall k :: i <= k < j ==> status[k] == RowNoRow
    {
      status[j] := RowNoRow;
    }
  }

  /** Whether a query is executed when it is prepared: it is whole, and its markers count to none - or, in 16
      bits, to less. */
  predicate CanBeEarly(sql: string) {
    && Markers.After(Markers.NEUTRAL, sql) == Markers.NEUTRAL
    && (Markers.CountOf(sql) % 0x1_0000 == 0 || Markers.CountOf(sql) % 0x1_0000 >= 0x8000)
  }

  /** A query without question marks, quotes and escapes is executed early, as is one whose markers are all
      quoted or escaped. One marker, or up to 32767, prevent it; 32768, up to 65535, do not. */
  lemma {:induction false} EarlyQueries(sql: string)
    ensures '?' !in sql && '"' !in sql && '\'' !in sql && '\\' !in sql ==> CanBeEarly(sql)
    ensures CanBeEarly(sql) ==> Markers.After(Markers.NEUTRAL, sql) == Markers.NEUTRAL
    ensures Markers.After(Markers.NEUTRAL, sql) == Markers.NEUTRAL && Markers.CountOf(sql) < 65536 ==>
              (CanBeEarly(sql) <==> Markers.CountOf(sql) == 0 || Markers.CountOf(sql) > 32767)
  {
    hide Markers.After, Markers.CountOf;
    if '?' !in sql && '"' !in sql && '\'' !in sql && '\\' !in sql {
      Markers.StaysSame("", sql);
      Markers.NoMarkNoCount(sql);
    }
  }

  lemma {:induction false} EarlyIfNotPositive(sql: string)
    ensures CanBeEarly(sql)
       <==> Markers.After(Markers.NEUTRAL, sql) == Markers.NEUTRAL && Markers.Wrapped(Markers.CountOf(sql)) <= 0
  {
    hide Markers.After, Markers.CountOf;
  }

  /** The statement after preparing a query, which may have been executed early. */
  function Prepared(s: ResultSet, server: Server, executed: bool): ResultSet {
    var closed := (if s.attached then Cleared(s, true) else s).(tvRows := 0, nset := 0, past := 0, early := false);
    if !executed then closed
    else
      var (state, ok) := Paging.Execute(closed, server);
      state.(early := ok)
  }

  /** What preparing leaves: nothing of what was there but the requests, and the answer to the early
      execution, if it was made. Only a page makes it stand in for the next execution. */
  lemma {:induction false} PreparedIs(s: ResultSet, server: Server)
    requires s.attached || (!s.forced && s.pending == [] && !s.cursor && s.vrows == 0)
    ensures Prepared(s, server, false) == ResultSet(false, false, [], false, 0, 0, 0, false, s.requests, 0)
    ensures var n := s.requests + 1;
            Prepared(s, server, true)
            == match server(s.requests)
               case Page(rows, cursor) =>
                 ResultSet(true, rows == [], rows, cursor, 0, 0, if rows == [] then 0 else 1, true, n, 0)
               case Misplaced(rows, cursor) => ResultSet(true, rows == [], rows, cursor, 0, 0, 0, false, n, 0)
               case Unreadable => ResultSet(true, false, [], false, 0, 0, 0, false, n, 0)
               case Refused => ResultSet(false, false, [], false, 0, 0, 0, false, n, 0)
  {
  }

  /** Early execution goes unnoticed: when it has succeeded, executing the query succeeds as it would have
      without it, sends nothing more, and leaves what it would have left; so any fetches get the same. When
      it has failed, executing the query sends it again, to be answered by the next answer. */
  lemma {:induction false} EarlyIsTransparent(s: ResultSet, server: Server, sizes: seq<nat>)
    requires s.attached || (!s.forced && s.pending == [] && !s.cursor && s.vrows == 0)
    ensures var early, late := Prepared(s, server, true), Prepared(s, server, false);
            var (state, ok) := Paging.Execute(early, server);
            var (state', ok') := Paging.Execute(late, server);
            && early.requests == s.requests + 1 && late.requests == s.requests
            && (if server(s.requests).Page? then
                  && ok && ok' && state == state' && state.requests == s.requests + 1
                  && state.pending == server(s.requests).rows
                  && Run(state, server, sizes) == Run(state', server, sizes)
                else !ok' && state.requests == s.requests + 2 && ok == server(s.requests + 1).Page?)
  {
    hide Run;
    PreparedIs(s, server);
  }

  /** A fetch that already has some rows. */
  function Continued(done: seq<Row>, f: Fetched): Fetched {
    f.(rows := done + f.rows)
  }

  /** The fetch that starts with a row. */
  function After(row: Row, f: Fetched): Fetched {
    f.(rows := [row] + f.rows)
  }

  lemma {:induction false} OneMore(done: seq<Row>, row: Row, f: Fetched, before: seq<string>)
    ensures Continued(done, After(row, f)) == Continued(done + [row], f)
    ensures Failures(done + [row]) == Failures(done) + if row.transfers then 0 else 1
    ensures LastOf(done + [row], before) == row.columns
  {
    assert done + ([row] + f.rows) == done + [row] + f.rows;
    assert (done + [row])[..|done|] == done;
  }

  lemma {:induction false} NothingBefore(f: Fetched)
    ensures Continued([], f) == f
  {
    assert [] + f.rows == f.rows;
  }

  lemma {:induction false} NothingMore(done: seq<Row>, s: ResultSet, end: End)
    ensures Continued(done, Fetched(s, [], end)) == Fetched(s, done, end)
  {
    assert done + [] == done;
  }

  lemma {:induction false} FetchFull(s: ResultSet, server: Server, done: seq<Row>)
    ensures Continued(done, Paging.Fetch(s, server, 0)) == Fetched(s, done, Filled)
  {
    NothingMore(done, s, Filled);
  }

  /** An execution that succeeds either brings rows, or forces "no data", or used up the early one. */
  lemma {:induction false} ExecuteAdvances(s: ResultSet, server: Server)
    requires s.pending == []
    ensures var (next, ok) := Paging.Execute(s, server);
            ok && !next.forced ==> next.pending != [] || (s.early && !next.early)
  {
  }

  /** One turn of the loop of the fetch. */
  lemma {:induction false} FetchTurn(s: ResultSet, server: Server, room: nat)
    requires room > 0
    ensures s.pending != [] ==>
              Paging.Fetch(s, server, room) == After(s.pending[0], Paging.Fetch(Visit(s), server, room - 1))
    ensures s.pending == [] ==>
              var (next, ok) := Paging.Execute(s, server);
              Paging.Fetch(s, server, room)
              == if !s.cursor then Fetched(s, [], NoMore)
                 else if !ok then Fetched(next, [], Failed)
                 else if next.forced then Fetched(next, [], NoMore)
                 else Paging.Fetch(next, server, room)
  {
  }

  // ---- piecewise gets ---------------------------------------------------------------------------

  /** The column being got and the offset the next get starts at: -1 after the end. */
  datatype Getting = Getting(column: int, offset: int)

  const AT_REST := Getting(-1, 0)

  predicate IsGetting(g: Getting, row: seq<string>) {
    if g.column < 0 then g.offset == 0 else 0 < g.column <= |row| && -1 <= g.offset <= |row[g.column - 1]|
  }

  /** The outcome of a call: what it leaves, what it returns, and what it hands over. */
  datatype Called = Called(state: Getting, ret: Return, piece: string, indicator: nat)

  /** `gd_checks`, made when it is not the column being got. */
  function GetFault(attached: bool, rowsetSize: nat, column: nat): Option<SqlState> {
    if !attached then Some(HY010)
    else if 1 < rowsetSize then Some(HYC00)
    else if column < 1 then Some(S07009)
    else None
  }

  /** One call for a column of the row, of a statement with a result set or without. */
  function CallGet(g: Getting, row: seq<string>, attached: bool, rowsetSize: nat, column: nat, room: nat,
                   maxLength: nat): Called
    requires IsGetting(g, row)
  {
    var fault := GetFault(attached, rowsetSize, column);
    if g.column == column && g.offset < 0 then Called(g, NoData, "", 0)
    else if g.column != column && fault.Some? then Called(AT_REST, Error(fault.value), "", 0)
    else if column == 0 || column > |row| then Called(AT_REST, Error(HY000), "", 0)
    else
      var got := Get(row[column - 1], if g.column == column then g.offset else 0, room, maxLength);
      Called(Getting(column, got.next), if got.truncated then WithInfo else Success, got.piece, got.indicator)
  }

  lemma {:induction false} CallIsWithin(g: Getting, row: seq<string>, rowsetSize: nat, column: nat, room: nat)
    requires IsGetting(g, row) && 0 < column <= |row| && rowsetSize <= 1
    ensures IsGetting(CallGet(g, row, true, rowsetSize, column, room, 0).state, row)
  {
    hide Get;
    if !(g.column == column && g.offset < 0) {
      NextIsWithin(row[column - 1], if g.column == column then g.offset else 0, room, 0);
    }
  }

  /** One call after the other for the same column of a result set's row, with buffers of so many bytes. */
  function CallGets(g: Getting, row: seq<string>, rowsetSize: nat, column: nat, rooms: seq<nat>): (calls: seq<Called>)
    requires IsGetting(g, row) && 0 < column <= |row| && rowsetSize <= 1
    ensures |calls| == |rooms|
    decreases rooms
  {
    if rooms == [] then []
    else
      CallIsWithin(g, row, rowsetSize, column, rooms[0]);
      var c := CallGet(g, row, true, rowsetSize, column, rooms[0], 0);
      [c] + CallGets(c.state, row, rowsetSize, column, rooms[1..])
  }

  /** Where a call for the column starts. */
  function StartOf(g: Getting, column: nat): int {
    if g.column == column then g.offset else 0
  }

  /** The calls are the gets of a run, with "truncated" for those cut short, and then "no data". */
  lemma {:induction false} CallsAreGets(g: Getting, row: seq<string>, rowsetSize: nat, column: nat, rooms: seq<nat>,
                                        i: nat)
    requires IsGetting(g, row) && 0 < column <= |row| && rowsetSize <= 1 && i < |rooms|
    ensures var gets := Gets(row[column - 1], StartOf(g, column), rooms);
            var c := CallGets(g, row, rowsetSize, column, rooms)[i];
            if i < |gets| then
              && c.piece == gets[i].piece && c.indicator == gets[i].indicator
              && c.ret == if gets[i].truncated then WithInfo else Success
            else c.ret == NoData && c.piece == ""
    decreases rooms
  {
    var text, offset := row[column - 1], StartOf(g, column);
    CallIsWithin(g, row, rowsetSize, column, rooms[0]);
    var c := CallGet(g, row, true, rowsetSize, column, rooms[0], 0);
    hide Get;
    if offset >= 0 {
      FirstOfGets(text, offset, rooms);
    }
    if i > 0 {
      CallsAreGets(c.state, row, rowsetSize, column, rooms[1..], i - 1);
    }
  }

  function Handed(calls: seq<Called>): string {
    if calls == [] then "" else calls[0].piece + Handed(calls[1..])
  }

  lemma {:induction false} HandedIsPieced(calls: seq<Called>, gets: seq<Got>)
    requires |gets| <= |calls|
    requires forall i :: 0 <= i < |calls| ==> calls[i].piece == if i < |gets| then gets[i].piece else ""
    ensures Handed(calls) == Pieced(gets)
    decreases calls
  {
    if calls != [] {
      var later := if gets == [] then [] else gets[1..];
      forall i | 0 <= i < |calls| - 1
        ensures calls[1..][i].piece == if i < |later| then later[i].piece else ""
      {
        assert calls[1..][i] == calls[i + 1];
      }
      HandedIsPieced(calls[1..], later);
      assert gets == [] ==> "" + Pieced(later) == Pieced(gets);
    }
  }

  lemma {:induction false} LeftIs(text: string, offset: nat)
    requires offset <= |text|
    ensures Left(text, offset) == text[offset..]
  {
  }

  /** Any run of calls hands over the text from its start, cut short in all calls but the last that
      returns data; that one and the calls after it say so exactly if the text is exhausted. */
  lemma {:induction false} CallsHandOver(g: Getting, row: seq<string>, rowsetSize: nat, column: nat, rooms: seq<nat>)
    requires IsGetting(g, row) && 0 < column <= |row| && rowsetSize <= 1 && 0 <= StartOf(g, column)
    ensures var text, offset := row[column - 1], StartOf(g, column);
            var calls, gets := CallGets(g, row, rowsetSize, column, rooms), Gets(text, offset, rooms);
            && -1 <= Reached(offset, gets) <= |text|
            && Handed(calls) + Left(text, Reached(offset, gets)) == text[offset..]
            && forall i :: 0 <= i < |calls| ==>
                 calls[i].ret == if i >= |gets| then NoData
                                 else if i < |gets| - 1 || Reached(offset, gets) >= 0 then WithInfo
                                 else Success
  {
    var text, offset := row[column - 1], StartOf(g, column);
    var calls, gets := CallGets(g, row, rowsetSize, column, rooms), Gets(text, offset, rooms);
    hide CallGets, Gets, Get, Reached, Left, CallGet;
    PiecesAreTheText(text, offset, rooms);
    forall i | 0 <= i < |calls|
      ensures calls[i].piece == if i < |gets| then gets[i].piece else ""
      ensures calls[i].ret == if i >= |gets| then NoData
                              else if i < |gets| - 1 || Reached(offset, gets) >= 0 then WithInfo else Success
    {
      CallsAreGets(g, row, rowsetSize, column, rooms, i);
      if i < |gets| {
        GetsReport(text, offset, rooms, i);
      }
    }
    HandedIsPieced(calls, gets);
    assert Left(text, offset) == text[offset..] by {
      LeftIs(text, offset);
    }
  }

  /** With buffers of at least two characters, as many calls as characters - or one - get a whole column:
      the last that returns data succeeds, and any further call finds none. */
  lemma {:induction false} ColumnIsGot(row: seq<string>, rowsetSize: nat, column: nat, rooms: seq<nat>)
    returns (n: nat)
    requires 0 < column <= |row| && rowsetSize <= 1 && |rooms| >= 1 && |rooms| >= |row[column - 1]|
    requires forall i :: 0 <= i < |rooms| ==> rooms[i] >= 2 * CHAR_SIZE
    ensures var calls := CallGets(AT_REST, row, rowsetSize, column, rooms);
            && Handed(calls) == row[column - 1] && 0 < n <= |calls|
            && forall i :: 0 <= i < |calls| ==>
                 calls[i].ret == if i < n - 1 then WithInfo else if i == n - 1 then Success else NoData
  {
    var text := row[column - 1];
    hide CallGets, Gets, Get, CallGet;
    BuffersOfTwoReassemble(text, 0, rooms);
    CallsHandOver(AT_REST, row, rowsetSize, column, rooms);
    n := |Gets(text, 0, rooms)|;
    assert text[0..] == text;
    var handed := Handed(CallGets(AT_REST, row, rowsetSize, column, rooms));
    assert handed + "" == handed;
  }

  class Statement {
    const server: Server
    const earlyExecution: bool

    var rset: PageState
    var tvRows: nat
    var nset: nat
    var earlyExecuted: bool
    var requests: nat
    ghost var past: nat

    /** The values of the last row unpacked, and the column being got, if any, and from where on. */
    var current: seq<string>
    var gdCol: int
    var gdOffset: int

    var rowsProcessed: nat

    constructor (server: Server, earlyExecution: bool)
      ensures this.server == server && this.earlyExecution == earlyExecution
      ensures Abs() == ResultSet(false, false, [], false, 0, 0, 0, false, 0, 0) && GetIsReset() && Valid()
    {
      this.server, this.earlyExecution := server, earlyExecution;
      rset, tvRows, nset, earlyExecuted, requests, past := EMPTY, 0, 0, false, 0, 0;
      current, gdCol, gdOffset, rowsProcessed := [], -1, 0, 0;
    }

    ghost function Abs(): ResultSet
      reads this
    {
      ResultSet(rset.attached, rset.forced, rset.pending, rset.cursor, rset.vrows, tvRows, nset, earlyExecuted,
                requests, past)
    }

    /** The visited rows of the sets add up, and a get that is under way is within its column. */
    ghost predicate Valid()
      reads this
    {
      && IsBalanced(Abs()) && (rset.attached || rset == EMPTY)
      && if gdCol < 0 then gdOffset == 0
         else 0 < gdCol <= |current| && -1 <= gdOffset <= |current[gdCol - 1]|
    }

    ghost predicate GetIsReset()
      reads this
    {
      gdCol == -1 && gdOffset == 0
    }

    /** `STMT_GD_RESET`. */
    method ResetGet()
      modifies this`gdCol, this`gdOffset
      ensures GetIsReset()
    {
      gdCol, gdOffset := -1, 0;
    }

    /** `clear_resultset`. */
    method ClearResultSet(onClose: bool)
      modifies this`rset, this`tvRows, this`nset, this`past,
               this`gdCol, this`gdOffset
      ensures Abs() == Cleared(old(Abs()), onClose) && GetIsReset()
      ensures rset == PageState(false, false, [], false, 0)
      ensures tvRows == (if onClose then 0 else old(tvRows)) && nset == if onClose then 0 else old(nset)
      ensures past == if onClose then 0 else old(past + rset.vrows)
    {
      past, rset := past + rset.vrows, EMPTY;
      assert Abs() == Cleared(old(Abs()), false);
      if onClose {
        nset, tvRows, past := 0, 0, 0;
      }
      gdCol, gdOffset := -1, 0;
    }

    /** `attach_answer`. */
    method AttachAnswer(a: Answer) returns (ok: bool)
      requires !a.Refused? && (rset.attached || rset == EMPTY)
      modifies this`rset, this`nset, this`past, this`gdCol,
               this`gdOffset, this`tvRows
      ensures Abs() == Attach(old(Abs()), a) && ok == a.Page?
      ensures GetIsReset() || (gdCol == old(gdCol) && gdOffset == old(gdOffset))
    {
      if rset.attached {
        ClearResultSet(false);
      }
      assert Abs() == Cleared(old(Abs()), false);
      rset := rset.(attached := true);
      if !a.Unreadable? {
        rset := rset.(pending := a.rows, cursor := a.cursor, forced := a.rows == []);
      }
      if a.Page? && !rset.forced {
        nset := nset + 1;
      }
      return a.Page?;
    }

    /** `EsSQLExecute`. */
    method Execute() returns (ok: bool)
      requires Valid()
      modifies this`rset, this`nset, this`past, this`gdCol,
               this`gdOffset, this`tvRows, this`earlyExecuted, this`requests
      ensures (Abs(), ok) == Paging.Execute(old(Abs()), server)
      ensures if old(earlyExecuted && rset.attached) then
                ok && requests == old(requests) && rset == old(rset)
              else
                requests == old(requests) + 1 && ok == server(old(requests)).Page?
      ensures !earlyExecuted && (GetIsReset() || (gdCol == old(gdCol) && gdOffset == old(gdOffset))) && Valid()
    {
      if earlyExecuted {
        earlyExecuted := false;
        if rset.attached {
          return true;
        }
      }
      var answer := server(requests);
      requests := requests + 1;
      if answer.Refused? {
        return false;
      }
      ok := AttachAnswer(answer);
    }

    /** `EsSQLPrepareW`: what is pending is discarded. The query is executed early, if that is on, unless it
        ends within quotes or its markers count to more than none. */
    method Prepare(sql: string)
      requires Valid()
      modifies this`rset, this`nset, this`past, this`gdCol,
               this`gdOffset, this`tvRows, this`earlyExecuted, this`requests
      ensures Valid()
      ensures Abs() == Prepared(old(Abs()), server, earlyExecution && CanBeEarly(sql))
      ensures requests == old(requests) + if earlyExecution && CanBeEarly(sql) then 1 else 0
      ensures earlyExecuted <==> earlyExecution && CanBeEarly(sql) && server(old(requests)).Page?
    {
      hide Paging.Execute, CanBeEarly, Markers.After, Markers.CountOf, Markers.Wrapped;
      EarlyIfNotPositive(sql);
      if rset.attached {
        ClearResultSet(true);
      }
      nset, tvRows, earlyExecuted, past := 0, 0, false, 0;
      assert Abs() == Prepared(old(Abs()), server, false);
      if earlyExecution {
        var counted, markers := Markers.CountParamMarkers(sql);
        if counted && markers <= 0 {
          var ok := Execute();
          if ok {
            earlyExecuted := true;
          }
        }
      }
    }

    /** Unpack the next row. */
    method UnpackRow(ghost room: nat) returns (row: Row)
      requires Valid() && GetIsReset() && rset.pending != [] && room > 0
      modifies this`rset, this`current, this`tvRows
      ensures Valid() && row == old(rset.pending[0]) && current == row.columns
      ensures Paging.Fetch(old(Abs()), server, room) == After(row, Paging.Fetch(Abs(), server, room - 1))
    {
      FetchTurn(Abs(), server, room);
      hide Paging.Fetch;
      row := rset.pending[0];
      rset, current := rset.(pending := rset.pending[1..], vrows := rset.vrows + 1), row.columns;
      tvRows := tvRows + 1;
      assert Abs() == Visit(old(Abs()));
    }

    /** With no row left in the page: ask for the next, if there is a cursor, and go on if it has rows. */
    method NextPage(ghost room: nat) returns (end: End)
      requires Valid() && GetIsReset() && rset.pending == [] && room > 0
      modifies this`rset, this`tvRows, this`nset, this`past, this`gdCol, this`gdOffset, this`earlyExecuted,
          this`requests
      ensures Valid() && GetIsReset()
      ensures Paging.Fetch(old(Abs()), server, room)
           == if end == Filled then Paging.Fetch(Abs(), server, room) else Fetched(Abs(), [], end)
      ensures end == Filled ==> rset.pending != [] || (!earlyExecuted && old(earlyExecuted))
    {
      hide IsBalanced;
      FetchTurn(Abs(), server, room);
      if rset.cursor {
        ExecuteAdvances(Abs(), server);
        hide Paging.Fetch, Paging.Execute;
        var ok := Execute();
        if !ok {
          return Failed;
        }
        if !rset.forced {
          return Filled;
        }
      }
      return NoMore;
    }

    /** A fetch is under way, with so many rows, of which some failed. */
    ghost predicate Fetching(f: Fetched, rowset: array<Row>, status: array<RowStatus>, i: nat, errors: nat,
                             done: seq<Row>, rest: seq<Row>, marks: seq<RowStatus>, before: seq<string>)
      reads this, rowset, status
    {
      && Valid() && GetIsReset() && i == |done| <= rowset.Length && errors == Failures(done)
      && current == LastOf(done, before)
      && f == Continued(done, Paging.Fetch(Abs(), server, rowset.Length - i))
      && InPlace(done, rowset, status, rest, marks)
    }

    /** What the turns of the loop that bring no row use up. */
    ghost function Patience(): nat
      reads this
    {
      if rset.pending != [] then 0 else if earlyExecuted then 2 else 1
    }

    /** The turn of the loop that takes a row. */
    method TakeRow(rowset: array<Row>, status: array<RowStatus>, i: nat, errors: nat,
                   ghost f: Fetched, ghost done: seq<Row>, ghost rest: seq<Row>, ghost marks: seq<RowStatus>,
                   ghost before: seq<string>)
      returns (errors': nat, ghost done': seq<Row>)
      requires Fetching(f, rowset, status, i, errors, done, rest, marks, before) && i < rowset.Length
      requires rset.pending != []
      modifies this`rset, this`current, this`tvRows, rowset, status
      ensures Fetching(f, rowset, status, i + 1, errors', done', rest, marks, before)
    {
      ghost var room := rowset.Length - i;
      hide Failures, IsBalanced, Paging.Fetch, Paging.Execute, Visit, InPlace, Continued, After, LastOf;
      var row := UnpackRow(room);
      PutRow(row, rowset, status, i, done, rest, marks);
      errors' := if row.transfers then errors else errors + 1;
      OneMore(done, row, Paging.Fetch(Abs(), server, room - 1), before);
      done' := done + [row];
    }

    /** One turn of the loop over the rowset. */
    method Turn(rowset: array<Row>, status: array<RowStatus>, i: nat, errors: nat,
                ghost f: Fetched, ghost done: seq<Row>, ghost rest: seq<Row>, ghost marks: seq<RowStatus>,
                ghost before: seq<string>)
      returns (i': nat, errors': nat, end: End, ghost done': seq<Row>)
      requires Fetching(f, rowset, status, i, errors, done, rest, marks, before) && i < rowset.Length
      modifies this`rset, this`current, this`tvRows, this`nset, this`past, this`gdCol, this`gdOffset,
          this`earlyExecuted,
               this`requests, rowset, status
      ensures end == Filled ==>
                && Fetching(f, rowset, status, i', errors', done', rest, marks, before)
                && (i' == i + 1 || (i' == i && Patience() < old(Patience())))
      ensures end != Filled ==>
                && Valid() && GetIsReset() && f == Fetched(Abs(), done, end) && done' == done && i' == i == |done|
                && errors' == errors == Failures(done) && InPlace(done, rowset, status, rest, marks)
                && current == LastOf(done, before)
    {
      ghost var room := rowset.Length - i;
      i', errors', end, done' := i, errors, Filled, done;
      hide Failures, IsBalanced, Paging.Fetch, Paging.Execute, Visit, InPlace, Continued, After, LastOf;
      if rset.pending == [] {
        end := NextPage(room);
        NothingMore(done, Abs(), end);
      } else {
        errors', done' := TakeRow(rowset, status, i, errors, f, done, rest, marks, before);
        i' := i + 1;
      }
    }

    /** The loop over the rows of the rowset. */
    method FetchRows(rowset: array<Row>, status: array<RowStatus>) returns (i: nat, errors: nat, end: End)
      requires Valid() && GetIsReset() && rowset.Length == status.Length
      modifies this, rowset, status
      ensures Valid() && GetIsReset() && rowsProcessed == old(rowsProcessed)
      ensures var f := Paging.Fetch(old(Abs()), server, rowset.Length);
              && Abs() == f.state && i == |f.rows| && errors == Failures(f.rows) && end == f.end
              && current == LastOf(f.rows, old(current))
              && InPlace(f.rows, rowset, status, old(rowset[..]), old(status[..]))
    {
      ghost var f := Paging.Fetch(Abs(), server, rowset.Length);
      ghost var done: seq<Row>, rest, marks := [], rowset[..], status[..];
      i, errors, end := 0, 0, Filled;
      NothingYet(rowset, status);
      NothingBefore(f);
      hide Patience, Failures, InPlace, Paging.Fetch, Continued;
      while i < rowset.Length && end == Filled
        invariant end == Filled ==> Fetching(f, rowset, status, i, errors, done, rest, marks, old(current))
        invariant end != Filled ==>
                    && Valid() && GetIsReset() && f == Fetched(Abs(), done, end) && i == |done|
                    && errors == Failures(done) && InPlace(done, rowset, status, rest, marks)
                    && current == LastOf(done, old(current))
        invariant rowsProcessed == old(rowsProcessed) && i <= rowset.Length
        decreases rowset.Length - i, end == Filled, Patience()
      {
        hide Fetching;
        i, errors, end, done := Turn(rowset, status, i, errors, f, done, rest, marks, old(current));
      }
      if end == Filled {
        FetchFull(Abs(), server, done);
      }
    }

    /** `EsSQLFetch`, into a rowset bound by the application. */
    method Fetch(rowset: array<Row>, status: array<RowStatus>) returns (ret: Return)
      requires Valid() && rowset.Length == status.Length
      modifies this, rowset, status
      ensures Valid()
      ensures !old(rset.attached) ==>
                ret == Error(HY010) && unchanged(this) && rowset[..] == old(rowset[..]) && status[..] == old(status[..])
      ensures var f := Paging.Fetch(old(Abs()), server, rowset.Length);
              old(rset.attached) ==>
                && Abs() == f.state && GetIsReset() && current == LastOf(f.rows, old(current))
                && InPlace(f.rows, rowset, status, old(rowset[..]),
                           if f.end == NoMore then NoRowsFrom(old(status[..]), |f.rows|) else old(status[..]))
                && rowsProcessed == (if f.end == Failed then old(rowsProcessed) else |f.rows|)
      ensures var rows := Paging.Fetch(old(Abs()), server, rowset.Length).rows;
              var broken := BreaksOff(old(Abs()), server, rowset.Length);
              old(rset.attached) ==>
                && (ret == Error(HY000)
                    <==> broken || (rows != [] && forall i :: 0 <= i < |rows| ==> !rows[i].transfers))
                && (ret == NoData <==> !broken && rows == [])
                && (ret == Success <==> !broken && exists i :: 0 <= i < |rows| && rows[i].transfers)
    {
      if !rset.attached {
        return Error(HY010);
      }
      ResetGet();
      ghost var f := Paging.Fetch(Abs(), server, rowset.Length);
      hide Failures, IsBalanced, Paging.Fetch, InPlace, BreaksOff, LastOf, NoRowsFrom;
      VerdictIs(Abs(), server, rowset.Length);
      var i, errors, end := FetchRows(rowset, status);
      if end == Failed {
        return Error(HY000);
      } else if end == NoMore {
        NoMoreRows(status, rowset, i, f.rows, old(rowset[..]), old(status[..]));
      }
      rowsProcessed := i;
      if i == 0 {
        return NoData;
      }
      return if errors > 0 && i <= errors then Error(HY000) else Success;
    }

    /** `EsSQLGetData` of a string column as wide characters, into a buffer with so many bytes of room.
        A get on the same column goes on where the last one stopped; any failure resets it. */
    method GetData(column: nat, rowsetSize: nat, room: nat, maxLength: nat, dst: array<char>) returns (ret: Return,
                   ind: nat)
      requires Valid() && room <= CHAR_SIZE * dst.Length
      modifies this`gdCol, this`gdOffset, dst
      ensures Valid()
      ensures var resumed := old(gdCol) == column;
              && (ret == Error(HY010) <==> !resumed && !rset.attached)
              && (ret == Error(HYC00) <==> !resumed && rset.attached && rowsetSize > 1)
              && (ret == Error(S07009) <==> !resumed && rset.attached && rowsetSize <= 1 && column == 0)
              && (ret == Error(HY000) <==> !resumed && rset.attached && rowsetSize <= 1 && column > |current|)
              && (ret.Error? ==> ret.state in {HY010, HYC00, S07009, HY000} && GetIsReset() && dst[..] == old(dst[..]))
              && (ret == NoData <==> resumed && old(gdOffset) < 0)
              && (ret == NoData ==> gdCol == column && gdOffset == -1 && dst[..] == old(dst[..]))
      ensures !ret.Error? && ret != NoData ==>
                && 1 <= column <= |current|
                && var text, offset := current[column - 1], if old(gdCol) == column then old(gdOffset) else 0;
                var g := Get(text, offset, room, maxLength);
                && gdCol == column && gdOffset == g.next && ind == g.indicator
                && ret == (if g.truncated then WithInfo else Success)
                && |Written(text, offset, room, maxLength)| <= dst.Length
                && Wrote(dst, old(dst[..]), 0, Written(text, offset, room, maxLength))
      ensures IsGetting(old(Getting(gdCol, gdOffset)), current)
      ensures var c := CallGet(old(Getting(gdCol, gdOffset)), current, rset.attached, rowsetSize, column, room,
                               maxLength);
              Getting(gdCol, gdOffset) == c.state && ret == c.ret
    {
      hide Get, Written, Wrote, IsBalanced;
      ind := 0;
      if gdCol == column {
        if gdOffset < 0 {
          return NoData, ind;
        }
      } else {
        if 0 <= gdCol {
          ResetGet();
        }
        var fault := GetFault(rset.attached, rowsetSize, column);
        if fault.Some? {
          ResetGet();
          return Error(fault.value), ind;
        }
      }
      if column > |current| {
        ResetGet();
        return Error(HY000), ind;
      }
      var text := current[column - 1];
      var g := Transfer(text, gdOffset, room, maxLength, dst);
      NextIsWithin(text, gdOffset, room, maxLength);
      gdCol, gdOffset := column, g.next;
      return if g.truncated then WithInfo else Success, g.indicator;
    }

    /** One call on a column that is not exhausted, with a buffer of at least two characters: it does not fail,
        and the piece that has been put into the buffer is what comes next. */
    method GetPiece(column: nat, room: nat, dst: array<char>) returns (piece: string, more: bool)
      requires Valid() && rset.attached && 1 <= column <= |current| && (gdCol == column ==> gdOffset >= 0)
      requires 2 * CHAR_SIZE <= room <= CHAR_SIZE * dst.Length
      modifies this`gdCol, this`gdOffset, dst
      ensures Valid() && gdCol == column && (more <==> gdOffset >= 0)
      ensures var text, start := current[column - 1], if old(gdCol) == column then old(gdOffset) else 0;
              piece + Left(text, gdOffset) == text[start..] && (more ==> gdOffset > start)
    {
      hide Get, Written, Wrote, IsBalanced, CallGet;
      ghost var text, start := current[column - 1], if gdCol == column then gdOffset else 0;
      GetAdvances(text, start, room);
      ghost var base := dst[..];
      var ret, ind := GetData(column, 1, room, 0, dst);
      PieceInFront(dst, base, text, start, room);
      return dst[..if ret == WithInfo then room / CHAR_SIZE - 1 else ind / CHAR_SIZE], ret == WithInfo;
    }

    /** An application that gets a string column of the row it has fetched, one call after the other into the
        same buffer: no call fails, what it has got in the end is the column, and a further call would find
        no data. */
    method GetColumn(column: nat, room: nat, dst: array<char>) returns (got: string)
      requires Valid() && rset.attached && 1 <= column <= |current| && gdCol != column
      requires 2 * CHAR_SIZE <= room <= CHAR_SIZE * dst.Length
      modifies this`gdCol, this`gdOffset, dst
      ensures Valid() && got == current[column - 1] && gdCol == column && gdOffset == -1
    {
      hide IsBalanced;
      ghost var text := current[column - 1];
      var more;
      got, more := GetPiece(column, room, dst);
      assert text[0..] == text;
      while more
        invariant Valid() && gdCol == column && (more <==> gdOffset >= 0) && got + Left(text, gdOffset) == text
        decreases more, |text| - gdOffset
      {
        ghost var start := gdOffset;
        var piece;
        piece, more := GetPiece(column, room, dst);
        assert (got + piece) + Left(text, gdOffset) == got + (piece + Left(text, gdOffset));
        got := got + piece;
      }
    }
  }
}
