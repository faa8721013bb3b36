/** Fetching rowsets of any size out of server pages linked by cursors. */
module Paging {
  /** A row of the result, and whether all of it can be transferred to the application. */
  datatype Row = Row(columns: seq<string>, transfers: bool)

  /** What comes back for a request: a page; a page whose columns are at fault, found out only once its
      rows are attached; an answer that cannot be read; or none, or an error, or a bad status. */
  datatype Answer =
    | Page(rows: seq<Row>, cursor: bool)
    | Misplaced(rows: seq<Row>, cursor: bool)
    | Unreadable
    | Refused

  /** The server, as the answers to the requests it will get. */
  type Server = nat -> Answer

  /** The result set: whether there is one, whether it was forced to be "no data", the rows its
      iterator has left, whether it ends in a cursor, and the visited rows in it; then those visited in
      all sets and the number of sets since the last close, the early execution, and the requests sent.
      `past` are the rows visited in the sets since the last close but for the current one. */
  datatype ResultSet = ResultSet(
    attached: bool, forced: bool, pending: seq<Row>, cursor: bool, vrows: nat,
    tvRows: nat, nset: nat, early: bool, requests: nat, past: nat)

  predicate HasCursor(a: Answer) {
    (a.Page? || a.Misplaced?) && a.cursor
  }

  /** The rows an answer brings. */
  function RowsIn(a: Answer): seq<Row> {
    if a.Page? || a.Misplaced? then a.rows else []
  }

  /** `attach_answer`: the former result set is cleared first. */
  function Attach(s: ResultSet, a: Answer): ResultSet {
    if a.Refused? then s
    else
      var forced := !a.Unreadable? && a.rows == [];
      s.(attached := true, vrows := 0, past := s.past + s.vrows, pending := RowsIn(a), forced := forced,
         cursor := HasCursor(a), nset := if a.Page? && !forced then s.nset + 1 else s.nset)
  }

  function Post(s: ResultSet, server: Server): (ResultSet, bool) {
    var a := server(s.requests);
    (Attach(s.(requests := s.requests + 1), a), a.Page?)
  }

  /** `EsSQLExecute`: nothing is sent if the query has been executed early. */
  function Execute(s: ResultSet, server: Server): (ResultSet, bool) {
    if s.early && s.attached then (s.(early := false), true) else Post(s.(early := false), server)
  }

  // ---- one fetch --------------------------------------------------------------------------------

  datatype End = Filled | NoMore | Failed

  datatype Fetched = Fetched(state: ResultSet, rows: seq<Row>, end: End)

  function Visit(s: ResultSet): ResultSet
    requires s.pending != []
  {
    s.(pending := s.pending[1..], vrows := s.vrows + 1, tvRows := s.tvRows + 1)
  }

  /** The loop of `EsSQLFetch`, with room for so many more rows. It stops even if the server never
      does: only a page that is not empty makes it go on, and the early execution only once. */
  function Fetch(s: ResultSet, server: Server, room: nat): Fetched
    decreases room, if s.pending != [] then 0 else if s.early then 2 else 1
  {
    if room == 0 then Fetched(s, [], Filled)
    else if s.pending != [] then
      var f := Fetch(Visit(s), server, room - 1);
      f.(rows := [s.pending[0]] + f.rows)
    else if !s.cursor then Fetched(s, [], NoMore)
    else
      var (next, ok) := Execute(s, server);
      if !ok then Fetched(next, [], Failed)
      else if next.forced then Fetched(next, [], NoMore)
      else Fetch(next, server, room)
  }

  // ---- no row lost, none twice --------------------------------------------------------------------

  /** The rows brought by the answers to a stretch of requests, in order. */
  function Arrived(server: Server, from: nat, upto: nat): seq<Row>
    requires from <= upto
    decreases upto - from
  {
    if from == upto then [] else RowsIn(server(from)) + Arrived(server, from + 1, upto)
  }

  lemma {:induction false} ArrivedJoins(server: Server, from: nat, mid: nat, upto: nat)
    requires from <= mid <= upto
    ensures Arrived(server, from, upto) == Arrived(server, from, mid) + Arrived(server, mid, upto)
    decreases mid - from
  {
    if from == mid {
      assert Arrived(server, from, mid) == [];
    } else {
      ArrivedJoins(server, from + 1, mid, upto);
    }
  }

  /** The visited rows of all sets add up to the total. */
  predicate IsBalanced(s: ResultSet) {
    s.tvRows == s.past + s.vrows
  }

  /** An execution with nothing pending loses no row. */
  lemma {:induction false} ExecuteConserves(s: ResultSet, server: Server)
    requires s.pending == []
    ensures var next := Execute(s, server).0;
            && s.requests <= next.requests <= s.requests + 1
            && next.pending == Arrived(server, s.requests, next.requests)
            && next.tvRows == s.tvRows && (IsBalanced(s) ==> IsBalanced(next))
  {
    if s.early && s.attached {
      assert Arrived(server, s.requests, s.requests) == [];
    } else {
      var rows := RowsIn(server(s.requests));
      assert Arrived(server, s.requests + 1, s.requests + 1) == [];
      assert rows + [] == rows;
    }
  }

  lemma {:induction false} RowVisited(pending: seq<Row>, arrived: seq<Row>, rows: seq<Row>, left: seq<Row>)
    requires pending != [] && pending[1..] + arrived == rows + left
    ensures pending + arrived == ([pending[0]] + rows) + left
  {
    assert pending == [pending[0]] + pending[1..];
    assert pending + arrived == [pending[0]] + (pending[1..] + arrived);
  }

  /** What was pending and what has arrived is what has been fetched and what is pending now. */
  lemma {:induction false} FetchConserves(s: ResultSet, server: Server, room: nat)
    ensures var f := Fetch(s, server, room);
            && s.requests <= f.state.requests
            && s.pending + Arrived(server, s.requests, f.state.requests) == f.rows + f.state.pending
    decreases room, if s.pending != [] then 0 else if s.early then 2 else 1
  {
    var f := Fetch(s, server, room);
    if room == 0 || (s.pending == [] && !s.cursor) {
      assert Arrived(server, s.requests, s.requests) == [];
      assert s.pending + [] == [] + s.pending;
    } else if s.pending != [] {
      var g := Fetch(Visit(s), server, room - 1);
      FetchConserves(Visit(s), server, room - 1);
      hide Fetch, Arrived;
      RowVisited(s.pending, Arrived(server, s.requests, g.state.requests), g.rows, g.state.pending);
    } else {
      var (next, ok) := Execute(s, server);
      ExecuteConserves(s, server);
      if ok && !next.forced {
        hide Execute;
        FetchConserves(next, server, room);
        hide Fetch, Arrived;
        ArrivedJoins(server, s.requests, next.requests, f.state.requests);
        assert s.pending + Arrived(server, s.requests, f.state.requests) == Arrived(server, s.requests,
            f.state.requests);
      } else {
        hide Execute;
        assert [] + next.pending == next.pending == s.pending + next.pending;
      }
    }
  }

  lemma {:induction false} ForcedIsEmpty(s: ResultSet, server: Server)
    requires s.pending == [] && Execute(s, server).1 && Execute(s, server).0.forced
    ensures Execute(s, server).0.pending == []
  {
  }

  /** The counts of a fetch: it is short of rows unless it was filled, and what it got is counted. */
  lemma {:induction false} FetchCounts(s: ResultSet, server: Server, room: nat)
    ensures var f := Fetch(s, server, room);
            && f.state.tvRows == s.tvRows + |f.rows| && (IsBalanced(s) ==> IsBalanced(f.state))
            && |f.rows| <= room && (f.end == Filled <==> |f.rows| == room)
            && (f.end == NoMore ==> f.state.pending == [])
    decreases room, if s.pending != [] then 0 else if s.early then 2 else 1
  {
    if room == 0 {
    } else if s.pending != [] {
      FetchCounts(Visit(s), server, room - 1);
    } else if s.cursor {
      var (next, ok) := Execute(s, server);
      ExecuteConserves(s, server);
      if ok && next.forced {
        ForcedIsEmpty(s, server);
      }
      hide Execute;
      if ok && !next.forced {
        FetchCounts(next, server, room);
      }
    }
  }

  /** The pages with rows among the answers to a stretch of requests. */
  function PagesIn(server: Server, from: nat, upto: nat): nat
    requires from <= upto
    decreases upto - from
  {
    if from == upto then 0
    else (if server(from).Page? && server(from).rows != [] then 1 else 0) + PagesIn(server, from + 1, upto)
  }

  lemma {:induction false} PagesInJoin(server: Server, from: nat, mid: nat, upto: nat)
    requires from <= mid <= upto
    ensures PagesIn(server, from, upto) == PagesIn(server, from, mid) + PagesIn(server, mid, upto)
    decreases mid - from
  {
    if from < mid {
      PagesInJoin(server, from + 1, mid, upto);
    }
  }

  /** The result sets counted by a fetch are the pages with rows that have arrived. */
  lemma {:induction false} FetchCountsPages(s: ResultSet, server: Server, room: nat)
    ensures var state := Fetch(s, server, room).state;
            s.requests <= state.requests && state.nset == s.nset + PagesIn(server, s.requests, state.requests)
    decreases room, if s.pending != [] then 0 else if s.early then 2 else 1
  {
    if room == 0 || (s.pending == [] && !s.cursor) {
    } else if s.pending != [] {
      FetchCountsPages(Visit(s), server, room - 1);
    } else {
      var (next, ok) := Execute(s, server);
      assert next.nset == s.nset + PagesIn(server, s.requests, next.requests);
      if ok && !next.forced {
        FetchCountsPages(next, server, room);
        PagesInJoin(server, s.requests, next.requests, Fetch(s, server, room).state.requests);
      }
    }
  }

  // ---- runs of fetches ----------------------------------------------------------------------------

  /** Fetches one after the other, each with a rowset of its own size; failures are tried again. */
  function Run(s: ResultSet, server: Server, sizes: seq<nat>): (ResultSet, seq<Row>)
    decreases sizes
  {
    if sizes == [] then (s, [])
    else
      var f := Fetch(s, server, sizes[0]);
      var (state, rows) := Run(f.state, server, sizes[1..]);
      (state, f.rows + rows)
  }

  lemma {:induction false} RunsJoin(pending: seq<Row>, first: seq<Row>, later: seq<Row>, rows: seq<Row>, left: seq<Row>,
                                    rows': seq<Row>, left': seq<Row>)
    requires pending + first == rows + left && left + later == rows' + left'
    ensures pending + (first + later) == (rows + rows') + left'
  {
    assert pending + (first + later) == (rows + left) + later;
    assert (rows + left) + later == rows + (left + later);
  }

  /** Over any run, with rowsets of any sizes and whatever the server answers, every row of every page
      that has arrived is visited exactly once and in order, but for those still pending. */
  lemma {:induction false} EveryRowOnce(s: ResultSet, server: Server, sizes: seq<nat>)
    ensures var (state, rows) := Run(s, server, sizes);
            && s.requests <= state.requests
            && s.pending + Arrived(server, s.requests, state.requests) == rows + state.pending
            && state.tvRows == s.tvRows + |rows| && (IsBalanced(s) ==> IsBalanced(state))
    decreases sizes
  {
    if sizes == [] {
      assert Arrived(server, s.requests, s.requests) == [];
    } else {
      var f := Fetch(s, server, sizes[0]);
      FetchConserves(s, server, sizes[0]);
      FetchCounts(s, server, sizes[0]);
      EveryRowOnce(f.state, server, sizes[1..]);
      var (state, rows) := Run(f.state, server, sizes[1..]);
      ArrivedJoins(server, s.requests, f.state.requests, state.requests);
      RunsJoin(s.pending, Arrived(server, s.requests, f.state.requests), Arrived(server, f.state.requests,
               state.requests),
               f.rows, f.state.pending, rows, state.pending);
      hide Fetch, Arrived;
    }
  }

  // ---- rows visited and rows delivered --------------------------------------------------------------

  /** A fetch that fails returns an error and sets no count: the rows it has visited are not delivered,
      and the next fetch goes on after them. */
  function Delivered(f: Fetched): seq<Row> {
    if f.end == Failed then [] else f.rows
  }

  function Deliveries(s: ResultSet, server: Server, sizes: seq<nat>): seq<Row>
    decreases sizes
  {
    if sizes == [] then []
    else
      var f := Fetch(s, server, sizes[0]);
      Delivered(f) + Deliveries(f.state, server, sizes[1..])
  }

  /** The early execution stands in for the next one, and what it brought is forced to be "no data". */
  predicate IsHeld(s: ResultSet) {
    s.early && s.attached && s.forced
  }

  /** The rows there are for a fetch before the answer to a request. */
  function RowsBefore(s: ResultSet, server: Server, k: nat): seq<Row>
    requires s.requests <= k
  {
    s.pending + Arrived(server, s.requests, k)
  }

  /** The answers up to a request are pages with rows and a cursor, and that one is not a page. */
  ghost predicate BreaksAt(s: ResultSet, server: Server, k: nat) {
    && s.cursor && !IsHeld(s) && s.requests <= k && !server(k).Page?
    && forall j: nat :: s.requests <= j < k ==> server(j).Page? && RowsIn(server(j)) != [] && HasCursor(server(j))
  }

  /** One step towards the request that breaks a fetch off. */
  lemma {:induction false} NextOfBroken(s: ResultSet, server: Server, k: nat)
    requires BreaksAt(s, server, k) && s.pending == []
    ensures var (next, ok) := Execute(s, server);
            if k == s.requests && !(s.early && s.attached) then !ok && RowsBefore(s, server, k) == []
            else
              && ok && !next.forced && BreaksAt(next, server, k)
              && RowsBefore(next, server, k) == RowsBefore(s, server, k)
              && (next.pending != [] || (s.early && !next.early))
  {
  }

  /** A fetch that breaks off at a request has visited the rows there were before it. */
  lemma {:induction false} BrokenFetch(s: ResultSet, server: Server, room: nat, k: nat)
    requires BreaksAt(s, server, k) && |RowsBefore(s, server, k)| < room
    ensures Fetch(s, server, room).end == Failed && Fetch(s, server, room).rows == RowsBefore(s, server, k)
    decreases room, if s.pending != [] then 0 else if s.early then 2 else 1
  {
    hide Execute, Arrived;
    if s.pending != [] {
      var later := Arrived(server, s.requests, k);
      assert s.pending + later == [s.pending[0]] + (s.pending[1..] + later);
      BrokenFetch(Visit(s), server, room - 1, k);
    } else {
      NextOfBroken(s, server, k);
      var (next, ok) := Execute(s, server);
      if ok {
        BrokenFetch(next, server, room, k);
      }
    }
  }

  /** A failed fetch has broken off at a request. */
  lemma {:induction false} FailedFetch(s: ResultSet, server: Server, room: nat) returns (k: nat)
    requires Fetch(s, server, room).end == Failed
    ensures BreaksAt(s, server, k) && |RowsBefore(s, server, k)| < room
    decreases room, if s.pending != [] then 0 else if s.early then 2 else 1
  {
    if s.pending != [] {
      k := FailedFetch(Visit(s), server, room - 1);
      assert |s.pending + Arrived(server, s.requests, k)| == 1 + |s.pending[1..] + Arrived(server, s.requests, k)|;
    } else if s.early && s.attached {
      k := FailedFetch(s.(early := false), server, room);
    } else if server(s.requests).Page? {
      var next := Execute(s, server).0;
      k := FailedFetch(next, server, room);
      NextOfBroken(s, server, k);
    } else {
      k := s.requests;
      NextOfBroken(s, server, k);
    }
  }

  /** The answers break off before there are rows enough to fill a fetch. */
  ghost predicate BreaksOff(s: ResultSet, server: Server, room: nat) {
    exists k: nat :: BreaksAt(s, server, k) && |RowsBefore(s, server, k)| < room
  }

  /** Exactly then does it fail. */
  lemma {:induction false} FailsIff(s: ResultSet, server: Server, room: nat)
    ensures Fetch(s, server, room).end == Failed <==> BreaksOff(s, server, room)
  {
    hide Fetch, Arrived;
    forall k: nat | BreaksAt(s, server, k) && |RowsBefore(s, server, k)| < room
      ensures Fetch(s, server, room).end == Failed
    {
      BrokenFetch(s, server, room, k);
    }
    if Fetch(s, server, room).end == Failed {
      var k := FailedFetch(s, server, room);
    }
  }

  /** A fetch drops rows: the answers break off, and there are rows before that, but too few to fill it. */
  ghost predicate Drops(s: ResultSet, server: Server, room: nat) {
    exists k: nat :: BreaksAt(s, server, k) && 0 < |RowsBefore(s, server, k)| < room
  }

  /** It does exactly if it fails after it has visited a row. */
  lemma {:induction false} DropsIff(s: ResultSet, server: Server, room: nat)
    ensures Drops(s, server, room) <==> Fetch(s, server, room).end == Failed && Fetch(s, server, room).rows != []
  {
    hide Fetch, Arrived;
    forall k: nat | BreaksAt(s, server, k) && 0 < |RowsBefore(s, server, k)| < room
      ensures Fetch(s, server, room).end == Failed && Fetch(s, server, room).rows != []
    {
      BrokenFetch(s, server, room, k);
    }
    if Fetch(s, server, room).end == Failed && Fetch(s, server, room).rows != [] {
      var k := FailedFetch(s, server, room);
      BrokenFetch(s, server, room, k);
    }
  }

  /** No fetch of the run drops rows. */
  ghost predicate NothingDropped(s: ResultSet, server: Server, sizes: seq<nat>)
    decreases sizes
  {
    sizes == []
    || (!Drops(s, server, sizes[0]) && NothingDropped(Fetch(s, server, sizes[0]).state, server, sizes[1..]))
  }

  lemma {:induction false} DeliveriesAreFewer(s: ResultSet, server: Server, sizes: seq<nat>)
    ensures var visited, delivered := Run(s, server, sizes).1, Deliveries(s, server, sizes);
            if NothingDropped(s, server, sizes) then delivered == visited else |delivered| < |visited|
    decreases sizes
  {
    hide Fetch, Drops;
    if sizes != [] {
      var f := Fetch(s, server, sizes[0]);
      DropsIff(s, server, sizes[0]);
      DeliveriesAreFewer(f.state, server, sizes[1..]);
    }
  }

  /** The rows delivered and those pending are all rows that have arrived, in order, exactly if no fetch
      of the run drops rows. */
  lemma {:induction false} EveryRowDelivered(s: ResultSet, server: Server, sizes: seq<nat>)
    ensures var state, delivered := Run(s, server, sizes).0, Deliveries(s, server, sizes);
            && s.requests <= state.requests
            && (delivered + state.pending == s.pending + Arrived(server, s.requests, state.requests)
                <==> NothingDropped(s, server, sizes))
  {
    hide Fetch, Arrived, NothingDropped, Deliveries, Run;
    EveryRowOnce(s, server, sizes);
    DeliveriesAreFewer(s, server, sizes);
    var (state, visited) := Run(s, server, sizes);
    var delivered := Deliveries(s, server, sizes);
    assert |visited + state.pending| == |visited| + |state.pending|;
    assert |delivered + state.pending| == |delivered| + |state.pending|;
  }

  /** Some server can make a fetch drop rows exactly if there is a cursor to go on with, no early execution
      is held, and there is room for more rows than are pending, and for two. */
  lemma {:induction false} CanDrop(s: ResultSet, room: nat)
    ensures (exists server: Server :: Drops(s, server, room))
       <==> s.cursor && !IsHeld(s) && room > |s.pending| && room >= 2
  {
    hide Fetch;
    if s.cursor && !IsHeld(s) && room > |s.pending| && room >= 2 {
      var row := Row([], true);
      var server: Server := (k: nat) => if k == s.requests && s.pending == [] then Page([row], true) else Refused;
      var k := if s.pending == [] then s.requests + 1 else s.requests;
      assert Arrived(server, k, k) == [];
      if s.pending == [] {
        assert Arrived(server, s.requests, k) == [row] + Arrived(server, k, k);
        assert |RowsBefore(s, server, k)| == 1;
      }
      assert BreaksAt(s, server, k) && 0 < |RowsBefore(s, server, k)| < room;
      assert Drops(s, server, room);
    }
  }

  /** Rowsets of one row never drop one: such a fetch ends as soon as it has visited a row. */
  lemma {:induction false} SingleRowsAreSafe(s: ResultSet, server: Server, sizes: seq<nat>)
    requires forall i :: 0 <= i < |sizes| ==> sizes[i] <= 1
    ensures NothingDropped(s, server, sizes)
    decreases sizes
  {
    hide Fetch, BreaksAt, RowsBefore;
    if sizes != [] {
      SingleRowsAreSafe(Fetch(s, server, sizes[0]).state, server, sizes[1..]);
    }
  }

  /** A row is lost to the application: it is the last of its page, and the next request is refused. */
  lemma {:induction false} RowIsLost(s: ResultSet, server: Server, row: Row)
    requires s.pending == [row] && s.cursor && !s.early && server(s.requests) == Refused
    ensures Drops(s, server, 2) && !NothingDropped(s, server, [2])
    ensures var f := Fetch(s, server, 2);
            f.end == Failed && f.rows == [row] && f.state.pending == [] && Delivered(f) == []
  {
    assert Arrived(server, s.requests, s.requests) == [];
    assert RowsBefore(s, server, s.requests) == [row];
    assert BreaksAt(s, server, s.requests);
    var v := Visit(s);
    assert v.pending == [];
    assert Fetch(v, server, 1).end == Failed && Fetch(v, server, 1).rows == [];
  }

  // ---- the sizes of the rowsets do not matter -------------------------------------------------------

  /** A filled fetch and the next are one fetch with the room of both. */
  lemma {:induction false} FilledFetchesJoin(s: ResultSet, server: Server, a: nat, b: nat)
    requires Fetch(s, server, a).end == Filled
    ensures var first := Fetch(s, server, a);
            var second := Fetch(first.state, server, b);
            Fetch(s, server, a + b) == second.(rows := first.rows + second.rows)
    decreases a, if s.pending != [] then 0 else if s.early then 2 else 1
  {
    if a == 0 {
      var second := Fetch(s, server, b);
      assert [] + second.rows == second.rows;
    } else if s.pending != [] {
      FilledFetchesJoin(Visit(s), server, a - 1, b);
      var first := Fetch(Visit(s), server, a - 1);
      var second := Fetch(first.state, server, b);
      assert [s.pending[0]] + (first.rows + second.rows) == ([s.pending[0]] + first.rows) + second.rows;
    } else {
      var (next, ok) := Execute(s, server);
      FilledFetchesJoin(next, server, a, b);
    }
  }

  /** A fetch that came to the end would have done so with more room. */
  lemma {:induction false} EndedFetchIsSame(s: ResultSet, server: Server, a: nat, b: nat)
    requires Fetch(s, server, a).end != Filled
    ensures Fetch(s, server, a + b) == Fetch(s, server, a)
    decreases a, if s.pending != [] then 0 else if s.early then 2 else 1
  {
    if s.pending != [] {
      EndedFetchIsSame(Visit(s), server, a - 1, b);
    } else if s.cursor {
      var (next, ok) := Execute(s, server);
      if ok && !next.forced {
        EndedFetchIsSame(next, server, a, b);
      }
    }
  }

  /** Every answer to a stretch of requests is a page, and none that is empty has a cursor. */
  ghost predicate IsSmooth(server: Server, from: nat, upto: nat) {
    forall k: nat :: from <= k < upto ==> server(k).Page? && (RowsIn(server(k)) == [] ==> !HasCursor(server(k)))
  }

  /** No empty page is known that has a cursor. */
  predicate IsSteady(s: ResultSet) {
    s.forced ==> !s.cursor
  }

  lemma {:induction false} FetchOfSmooth(s: ResultSet, server: Server, room: nat)
    requires IsSmooth(server, s.requests, Fetch(s, server, room).state.requests) && IsSteady(s)
    ensures var f := Fetch(s, server, room);
            IsSteady(f.state) && f.end != Failed && (f.end == NoMore ==> !f.state.cursor)
    decreases room, if s.pending != [] then 0 else if s.early then 2 else 1
  {
    if room == 0 {
    } else if s.pending != [] {
      FetchOfSmooth(Visit(s), server, room - 1);
    } else if s.cursor {
      var (next, ok) := Execute(s, server);
      ExecuteConserves(s, server);
      assert s.requests < next.requests ==> server(s.requests).Page? by {
        FetchConserves(next, server, room);
      }
      if ok && !next.forced {
        FetchOfSmooth(next, server, room);
      }
    }
  }

  function Total(sizes: seq<nat>): nat {
    if sizes == [] then 0 else sizes[0] + Total(sizes[1..])
  }

  /** If no answer to the requests of a run fails or is an empty page with a cursor, the fetches get what
      one fetch with the room of all of them would: the rows and the state after it depend on how many rows
      were asked for, and not on how they were split into rowsets. */
  lemma {:induction false} SizesDoNotMatter(s: ResultSet, server: Server, sizes: seq<nat>)
    requires IsSmooth(server, s.requests, Run(s, server, sizes).0.requests) && IsSteady(s)
    ensures var whole := Fetch(s, server, Total(sizes));
            Run(s, server, sizes) == (whole.state, whole.rows)
    decreases sizes
  {
    if sizes != [] {
      var a, rest := sizes[0], sizes[1..];
      var first := Fetch(s, server, a);
      FetchConserves(s, server, a);
      EveryRowOnce(first.state, server, rest);
      FetchOfSmooth(s, server, a);
      hide IsSmooth;
      SizesDoNotMatter(first.state, server, rest);
      FetchCounts(s, server, a);
      if first.end == Filled {
        FilledFetchesJoin(s, server, a, Total(rest));
      } else {
        EndedFetchIsSame(s, server, a, Total(rest));
        assert Fetch(first.state, server, Total(rest)).rows == [];
        assert first.rows + [] == first.rows;
      }
    }
  }

  /** The last page to come is the first without a cursor; without a cursor, it has been seen. */
  ghost predicate EndsAt(s: ResultSet, server: Server, last: nat) {
    if s.cursor then
      && s.requests <= last && !HasCursor(server(last))
      && forall k: nat :: s.requests <= k < last ==> HasCursor(server(k))
    else s.requests == last + 1
  }

  ghost predicate AllPages(server: Server, from: nat, last: nat) {
    forall k: nat :: from <= k <= last ==> server(k).Page?
  }

  lemma {:induction false} FetchStopsAtLast(s: ResultSet, server: Server, last: nat, room: nat)
    requires AllPages(server, s.requests, last) && EndsAt(s, server, last)
    ensures var state := Fetch(s, server, room).state; s.requests <= state.requests && EndsAt(state, server, last)
    decreases room, if s.pending != [] then 0 else if s.early then 2 else 1
  {
    if room == 0 {
    } else if s.pending != [] {
      FetchStopsAtLast(Visit(s), server, last, room - 1);
    } else if s.cursor {
      var a := server(s.requests);
      assert a.Page?;
      var (next, ok) := Execute(s, server);
      if ok && !next.forced {
        FetchStopsAtLast(next, server, last, room);
      }
    }
  }

  lemma {:induction false} RunStopsAtLast(s: ResultSet, server: Server, last: nat, sizes: seq<nat>)
    requires AllPages(server, s.requests, last) && EndsAt(s, server, last)
    ensures EndsAt(Run(s, server, sizes).0, server, last)
    decreases sizes
  {
    hide Fetch, EndsAt;
    if sizes != [] {
      FetchStopsAtLast(s, server, last, sizes[0]);
      RunStopsAtLast(Fetch(s, server, sizes[0]).state, server, last, sizes[1..]);
    }
  }

  /** Fetching for more rows than there are gets all the rows of all the pages, in order. */
  lemma {:induction false} EverythingIsFetched(s: ResultSet, server: Server, last: nat, sizes: seq<nat>)
    requires IsSmooth(server, s.requests, last + 1) && IsSteady(s) && EndsAt(s, server, last)
    requires s.requests <= last + 1 && Total(sizes) > |s.pending| + |Arrived(server, s.requests, last + 1)|
    ensures Run(s, server, sizes).1 == s.pending + Arrived(server, s.requests, last + 1)
    ensures Run(s, server, sizes).0.pending == [] && !Run(s, server, sizes).0.cursor
  {
    hide Fetch, Run, Arrived;
    var f := Fetch(s, server, Total(sizes));
    RunStopsAtLast(s, server, last, sizes);
    SizesDoNotMatter(s, server, sizes);
    FetchConserves(s, server, Total(sizes));
    FetchCounts(s, server, Total(sizes));
    FetchOfSmooth(s, server, Total(sizes));
    ArrivedJoins(server, s.requests, f.state.requests, last + 1);
    hide IsSmooth;
    var brought := s.pending + Arrived(server, s.requests, f.state.requests);
    assert |brought| == |f.rows| + |f.state.pending|;
    assert f.end == NoMore;
    assert f.rows + [] == f.rows;
  }

  // ---- when "no data" is not the end ----------------------------------------------------------------

  /** What "no more rows" leaves: nothing pending, and a cursor only after an empty page. */
  lemma {:induction false} NoMoreLeaves(s: ResultSet, server: Server, room: nat)
    requires Fetch(s, server, room).end == NoMore
    ensures var state := Fetch(s, server, room).state;
            && state.pending == [] && (state.cursor ==> state.forced && !state.early)
            && (state.cursor ==> s.requests < state.requests || s.early)
    decreases room, if s.pending != [] then 0 else if s.early then 2 else 1
  {
    FetchCounts(s, server, room);
    if s.pending != [] {
      NoMoreLeaves(Visit(s), server, room - 1);
    } else if s.cursor {
      var (next, ok) := Execute(s, server);
      if ok && !next.forced {
        ExecuteConserves(s, server);
        hide Execute;
        NoMoreLeaves(next, server, room);
        FetchConserves(next, server, room);
      }
    }
  }

  /** A server that has answered as the other did, and answers with one last row from then on. */
  function OneMoreRow(server: Server, answered: nat): Server {
    (k: nat) => if k < answered then server(k) else Page([Row([], true)], false)
  }

  ghost predicate SameAnswers(server: Server, other: Server, upto: nat) {
    forall k: nat :: k < upto ==> other(k) == server(k)
  }

  lemma {:induction false} OneMoreIsGot(state: ResultSet, server: Server)
    requires state.pending == [] && state.cursor && !state.early
    ensures Fetch(state, OneMoreRow(server, state.requests), 1).rows == [Row([], true)]
  {
    var other := OneMoreRow(server, state.requests);
    var (next, ok) := Execute(state, other);
    assert next.pending == [Row([], true)] && !next.forced && ok;
    assert Fetch(next, other, 1).rows == [Row([], true)] + Fetch(Visit(next), other, 0).rows;
  }

  /** "No more rows" is final - whatever the server still answers, no further fetch gets a row - exactly if
      no cursor is left. */
  lemma {:induction false} NoMoreIsFinal(s: ResultSet, server: Server, room: nat)
    requires Fetch(s, server, room).end == NoMore
    ensures var state := Fetch(s, server, room).state;
            !state.cursor
            <==> forall other: Server, n: nat :: SameAnswers(server, other, state.requests) ==>
                                                   Fetch(state, other, n).rows == []
  {
    var state := Fetch(s, server, room).state;
    NoMoreLeaves(s, server, room);
    if state.cursor {
      var other := OneMoreRow(server, state.requests);
      assert SameAnswers(server, other, state.requests);
      OneMoreIsGot(state, server);
      assert Fetch(state, other, 1).rows != [];
    }
  }

  /** No page without rows comes before one that has some. */
  ghost predicate NoGap(server: Server, from: nat, last: nat) {
    forall j: nat, k: nat :: from <= j < k <= last && RowsIn(server(j)) == [] ==> RowsIn(server(k)) == []
  }

  lemma {:induction false} ArrivedNothing(server: Server, from: nat, upto: nat)
    requires from <= upto
    ensures Arrived(server, from, upto) == [] <==> forall k: nat :: from <= k < upto ==> RowsIn(server(k)) == []
    decreases upto - from
  {
    if from < upto {
      ArrivedNothing(server, from + 1, upto);
    }
  }

  /** The pages a fetch has passed: all had rows but the last, which has none if a cursor is left. One that
      is held passes none. */
  lemma {:induction false} PagesPassed(s: ResultSet, server: Server, last: nat, room: nat)
    requires EndsAt(s, server, last) && AllPages(server, s.requests, last) && Fetch(s, server, room).end == NoMore
    ensures var state := Fetch(s, server, room).state;
            && EndsAt(state, server, last) && s.requests <= state.requests
            && (forall k: nat :: s.requests <= k < state.requests - 1 ==> RowsIn(server(k)) != [])
            && (if IsHeld(s) && s.cursor then state.requests == s.requests && state.cursor
                else state.cursor ==> s.requests < state.requests && RowsIn(server(state.requests - 1)) == [])
    decreases room, if s.pending != [] then 0 else if s.early then 2 else 1
  {
    if s.pending != [] {
      PagesPassed(Visit(s), server, last, room - 1);
    } else if s.cursor {
      var a := server(s.requests);
      assert a.Page?;
      var (next, ok) := Execute(s, server);
      if ok && !next.forced {
        PagesPassed(next, server, last, room);
      }
    }
  }

  lemma {:induction false} AllOrRest(rows: seq<Row>, pending: seq<Row>, first: seq<Row>, rest: seq<Row>)
    requires pending + first == rows + []
    ensures rows == pending + (first + rest) <==> rest == []
  {
    assert pending + (first + rest) == (pending + first) + rest;
    assert |rows + rest| == |rows| + |rest|;
  }

  /** A gap can only be ahead of where the fetch has stopped. */
  lemma {:induction false} GapIsAhead(state: ResultSet, server: Server, from: nat, last: nat)
    requires from <= state.requests <= last + 1 && (!state.cursor ==> state.requests == last + 1)
    requires forall k: nat :: from <= k < state.requests - 1 ==> RowsIn(server(k)) != []
    requires state.cursor ==> from < state.requests && RowsIn(server(state.requests - 1)) == []
    ensures NoGap(server, from, last) <==> forall k: nat :: state.requests <= k <= last ==> RowsIn(server(k)) == []
  {
    var m := state.requests;
    if NoGap(server, from, last) && state.cursor {
      forall k: nat | m <= k <= last
        ensures RowsIn(server(k)) == []
      {
        assert from <= m - 1 < k <= last;
      }
    }
  }

  lemma {:induction false} NoRowsNoGap(server: Server, from: nat, last: nat)
    requires from <= last + 1
    ensures Arrived(server, from, last + 1) == [] ==> NoGap(server, from, last)
  {
    hide RowsIn;
    ArrivedNothing(server, from, last + 1);
  }

  /** With a server that sends nothing but pages, the first "no more rows" comes after every row was
      fetched exactly if no page without rows comes before one that has some - the one at hand included, if
      it is held. */
  lemma {:induction false} NoMoreMeansAll(s: ResultSet, server: Server, last: nat, room: nat)
    requires EndsAt(s, server, last) && AllPages(server, s.requests, last) && s.requests <= last + 1
    requires Fetch(s, server, room).end == NoMore
    ensures Fetch(s, server, room).rows == s.pending + Arrived(server, s.requests, last + 1)
       <==> && NoGap(server, s.requests, last)
            && (s.cursor && IsHeld(s) ==> Arrived(server, s.requests, last + 1) == [])
  {
    hide Fetch, Arrived, NoGap, IsHeld;
    var f := Fetch(s, server, room);
    var m := f.state.requests;
    FetchConserves(s, server, room);
    FetchCounts(s, server, room);
    PagesPassed(s, server, last, room);
    assert m <= last + 1 && (!f.state.cursor ==> m == last + 1);
    hide EndsAt;
    ArrivedJoins(server, s.requests, m, last + 1);
    ArrivedNothing(server, m, last + 1);
    AllOrRest(f.rows, s.pending, Arrived(server, s.requests, m), Arrived(server, m, last + 1));
    if s.cursor && IsHeld(s) {
      NoRowsNoGap(server, m, last);
    } else {
      GapIsAhead(f.state, server, s.requests, last);
    }
  }

  /** An empty page with a cursor ends a fetch, though the next page has a row, which the next fetch gets. */
  lemma {:induction false} EmptyPageEndsFetch(s: ResultSet, server: Server, row: Row)
    requires s.attached && s.cursor && s.pending == [] && !s.early
    requires server(s.requests) == Page([], true) && server(s.requests + 1) == Page([row], false)
    ensures var first := Fetch(s, server, 1);
            && first.end == NoMore && first.rows == []
            && Fetch(first.state, server, 1).rows == [row]
  {
    var next := Fetch(s, server, 1).state;
    var after := Execute(next, server).0;
    assert after.pending == [row] && !after.forced;
    assert Fetch(after, server, 1).rows == [row] + Fetch(Visit(after), server, 0).rows;
  }
}
