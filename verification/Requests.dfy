/** The two-pass request serialiser: a length pass, then the pass that writes. */
module Requests {
  import opened Buffers
  import opened JsonText

  // ---- the request --------------------------------------------------------------------------------

  datatype Octets = UpToNul | Count(n: nat)

  /** A bound parameter: its server type, and what is at its data pointer. A wide value is given as
      the UTF-8 text it converts to. */
  datatype Param =
    | Null(typeName: string)
    | Boolean(typeName: string, truth: bool)
    | Narrow(typeName: string, size: nat, data: string, octets: Octets)
    | Wide(typeName: string, size: nat, chars: nat, utf8: string)

  /** What a request is made of: the statement's own parts, then those of the connection. */
  datatype Request = Request(
    cursor: string, sql: string, sqlCnt: nat, params: seq<Param>,
    longestType: string, fetchSize: string, lenient: bool, includeFrozen: bool,
    timeZone: string, applyTimeZone: bool, catalog: string, version: string)

  predicate IsPlain(s: string) {
    forall i :: 0 <= i < |s| ==> Sequence(s[i]) == [s[i]]
  }

  /** `get_octet_len`. */
  function OctetLen(data: string, octets: Octets): nat {
    match octets
    case UpToNul => FirstNul(data)
    case Count(n) => n
  }

  /** The octets are there, and so is the NUL that is looked for: also after a length of 0. */
  predicate IsReadable(p: Param) {
    p.Narrow? ==>
      && OctetLen(p.data, p.octets) <= |p.data|
      && (OctetLen(p.data, p.octets) == 0 || p.octets.UpToNul? ==> '\0' in p.data)
  }

  /** The text that is sent of a narrow parameter; a length of 0 reads up to the NUL again. */
  function NarrowText(p: Param): string
    requires p.Narrow? && IsReadable(p)
  {
    TextAt(p.data, 0, OctetLen(p.data, p.octets))
  }

  predicate IsSound(p: Param, longestType: string) {
    IsReadable(p) && IsPlain(p.typeName) && |p.typeName| <= |longestType|
  }

  predicate AreSound(params: seq<Param>, longestType: string) {
    forall i :: 0 <= i < |params| ==> IsSound(params[i], longestType)
  }

  const TIME_ZONE_Z := "\"Z\""

  /** What the parts of a request have in common: the names of types need no escaping, the longest is
      the longest, and the time zone is not shorter than the literal that replaces it. */
  predicate IsSoundRequest(r: Request) {
    && AreSound(r.params, r.longestType) && IsPlain(r.longestType)
    && |r.timeZone| >= |TIME_ZONE_Z|
    && r.sqlCnt <= |r.sql| && (r.sqlCnt == 0 ==> '\0' in r.sql)
  }

  function Sql(r: Request): string
    requires IsSoundRequest(r)
  {
    TextAt(r.sql, 0, r.sqlCnt)
  }

  // ---- the body -----------------------------------------------------------------------------------

  const KEY_CURSOR := "\"cursor\": "

  const KEY_QUERY := "\"query\": "

  const KEY_PARAMS := ", \"params\": "

  const KEY_FETCH := ", \"fetch_size\": "

  const KEY_MULTIVAL := ", \"field_multi_value_leniency\": "

  const KEY_FROZEN := ", \"index_include_frozen\": "

  const KEY_TIME_ZONE := ", \"time_zone\": "

  const KEY_CATALOG := ", \"catalog\": "

  const KEY_VERSION := ", \"version\": "

  const MODE := ", \"mode\": \"ODBC\""

  const CLIENT := ", \"client_id\": \"odbc64\""

  const KEY_BINARY := ", \"binary_format\": "

  const PARAM_TYPE := "{\"type\": \""

  const PARAM_VALUE := "\", \"value\": "

  function Quoted(s: string): string {
    "\"" + s + "\""
  }

  function BoolText(b: bool): (s: string)
    ensures 4 <= |s| <= 5
  {
    if b then "true" else "false"
  }

  function ValueText(p: Param): string
    requires IsReadable(p)
  {
    match p
    case Null(_) => "null"
    case Boolean(_, truth) => BoolText(truth)
    case Narrow(_, _, _, _) => Quoted(Escape(NarrowText(p)))
    case Wide(_, _, _, utf8) => Quoted(Escape(utf8))
  }

  function ParamText(p: Param): string
    requires IsReadable(p)
  {
    PARAM_TYPE + p.typeName + PARAM_VALUE + ValueText(p) + "}"
  }

  function Separator(i: nat): string {
    if i == 0 then "" else ", "
  }

  function ParamTexts(params: seq<Param>, longestType: string): string
    requires AreSound(params, longestType)
  {
    if params == [] then ""
    else
      var n := |params| - 1;
      ParamTexts(params[..n], longestType) + (Separator(n) + ParamText(params[n]))
  }

  function ParamsText(r: Request): string
    requires IsSoundRequest(r)
  {
    if r.params == [] then "" else KEY_PARAMS + ("[" + ParamTexts(r.params, r.longestType) + "]")
  }

  function FetchText(r: Request): string {
    if r.fetchSize == "" then "" else KEY_FETCH + r.fetchSize
  }

  function FlagsText(r: Request): string {
    KEY_MULTIVAL + BoolText(r.lenient) + KEY_FROZEN + BoolText(r.includeFrozen)
    + KEY_TIME_ZONE + (if r.applyTimeZone then r.timeZone else TIME_ZONE_Z)
  }

  function CatalogText(r: Request): string {
    if r.catalog == "" then "" else KEY_CATALOG + Quoted(r.catalog)
  }

  function QueryText(r: Request): string
    requires IsSoundRequest(r)
  {
    KEY_QUERY + Quoted(Escape(Sql(r)))
  }

  function OpeningText(r: Request): string
    requires IsSoundRequest(r)
  {
    if r.cursor != "" then KEY_CURSOR + Quoted(r.cursor)
    else QueryText(r) + ParamsText(r) + FetchText(r) + FlagsText(r) + CatalogText(r) + (KEY_VERSION + Quoted(r.version))
  }

  const CLOSING := MODE + CLIENT + KEY_BINARY + "false" + "}"

  function BodyText(r: Request): string
    requires IsSoundRequest(r)
  {
    "{" + OpeningText(r) + CLOSING
  }

  // ---- the length pass ----------------------------------------------------------------------------

  /** A string longer than its parameter's size: SQLSTATE 22001. */
  predicate IsTooLong(p: Param) {
    match p
    case Narrow(_, size, data, octets) => size < OctetLen(data, octets)
    case Wide(_, size, chars, _) => size < chars
    case _ => false
  }

  predicate AnyTooLong(params: seq<Param>) {
    exists i :: 0 <= i < |params| && IsTooLong(params[i])
  }

  /** What the length pass counts for a value, before it has been converted. */
  function ValueRoom(p: Param): nat
    requires IsReadable(p)
  {
    match p
    case Null(_) => 4
    case Boolean(_, _) => 5
    case Narrow(_, _, _, _) => |Escape(NarrowText(p))| + 2
    case Wide(_, _, _, utf8) => 6 * |utf8| + 2
  }

  function ParamRoom(p: Param, longestType: string): nat
    requires IsReadable(p)
  {
    |PARAM_TYPE| + |longestType| + |PARAM_VALUE| + ValueRoom(p) + 1
  }

  function ParamRooms(params: seq<Param>, longestType: string): nat
    requires AreSound(params, longestType)
  {
    if params == [] then 0
    else
      var n := |params| - 1;
      ParamRooms(params[..n], longestType) + |Separator(n)| + ParamRoom(params[n], longestType)
  }

  function ParamsRoom(r: Request): nat
    requires IsSoundRequest(r)
  {
    if r.params == [] then 0 else |KEY_PARAMS| + 1 + ParamRooms(r.params, r.longestType) + 1
  }

  lemma {:induction false} ValueFits(p: Param)
    requires IsReadable(p)
    ensures |ValueText(p)| <= ValueRoom(p)
  {
    hide Escape;
    if p.Wide? {
      SixfoldIsEnough(p.utf8);
    }
  }

  lemma {:induction false} ParamFits(p: Param, longestType: string)
    requires IsSound(p, longestType)
    ensures |ParamText(p)| <= ParamRoom(p, longestType)
  {
    ValueFits(p);
    hide ValueText, ValueRoom;
  }

  lemma {:induction false} ParamsFit(params: seq<Param>, longestType: string)
    requires AreSound(params, longestType)
    ensures |ParamTexts(params, longestType)| <= ParamRooms(params, longestType)
  {
    hide ParamText, ParamRoom;
    if params != [] {
      var n := |params| - 1;
      ParamFits(params[n], longestType);
      ParamsFit(params[..n], longestType);
    }
  }

  lemma {:induction false} RoomsGrow(params: seq<Param>, longestType: string, i: nat)
    requires AreSound(params, longestType) && i < |params|
    ensures ParamRooms(params[..i], longestType) + |Separator(i)| + ParamRoom(params[i], longestType)
         == ParamRooms(params[..i + 1], longestType) <= ParamRooms(params, longestType)
    decreases |params|
  {
    hide ParamRoom;
    var next := params[..i + 1];
    assert next[..i] == params[..i] && next[i] == params[i];
    if i + 1 == |params| {
      assert next == params;
    } else {
      var front := params[..|params| - 1];
      RoomsGrow(front, longestType, i);
      assert front[..i + 1] == next && front[..i] == params[..i];
    }
  }

  /** `statement_len_json`: enough for the body, whatever the values turn out to be. */
  function BodyRoom(r: Request): nat
    requires IsSoundRequest(r)
  {
    |CLOSING| + 1
    + if r.cursor != "" then |KEY_CURSOR| + |r.cursor| + 2
      else |KEY_QUERY| + |Escape(Sql(r))| + 2
           + ParamsRoom(r)
           + |FetchText(r)|
           + |KEY_MULTIVAL| + 5 + |KEY_FROZEN| + 5 + |KEY_TIME_ZONE| + |r.timeZone|
           + |CatalogText(r)|
           + |KEY_VERSION| + |r.version| + 2
  }

  lemma {:induction false} BodyFits(r: Request)
    requires IsSoundRequest(r)
    ensures |BodyText(r)| <= BodyRoom(r)
  {
    hide Escape, ParamTexts, ParamRooms, AreSound, TextAt, FetchText, CatalogText;
    ParamsFit(r.params, r.longestType);
  }

  /** What is counted for a value but may not be needed: a `true` is shorter than a `false`, and of the UTF-8
      octets of a wide string not every one needs six characters. */
  function ValueSlack(p: Param): int
    requires IsReadable(p)
  {
    match p
    case Null(_) => 0
    case Boolean(_, truth) => if truth then 1 else 0
    case Narrow(_, _, _, _) => 0
    case Wide(_, _, _, utf8) => 6 * |utf8| - |Escape(utf8)|
  }

  /** For parameters, also what their type names are shorter than the longest. */
  function ParamsSlack(params: seq<Param>, longestType: string): int
    requires AreSound(params, longestType)
  {
    if params == [] then 0
    else
      var p := params[|params| - 1];
      ParamsSlack(params[..|params| - 1], longestType) + |longestType| - |p.typeName| + ValueSlack(p)
  }

  lemma {:induction false} ParamExceeds(p: Param, longestType: string)
    requires IsSound(p, longestType)
    ensures ParamRoom(p, longestType) == |ParamText(p)| + |longestType| - |p.typeName| + ValueSlack(p)
  {
    hide Escape, NarrowText;
  }

  lemma {:induction false} ParamsExceed(params: seq<Param>, longestType: string)
    requires AreSound(params, longestType)
    ensures ParamRooms(params, longestType) == |ParamTexts(params, longestType)| + ParamsSlack(params, longestType)
  {
    hide Escape, NarrowText;
    if params != [] {
      var n := |params| - 1;
      ParamExceeds(params[n], longestType);
      hide ParamRoom, ParamText, ValueSlack;
      ParamsExceed(params[..n], longestType);
    }
  }

  lemma {:induction false} NoSlack(longestType: string)
    ensures ParamsSlack([], longestType) == 0
  {
  }

  lemma {:induction false} ParamsTextExceeds(r: Request)
    requires IsSoundRequest(r)
    ensures ParamsRoom(r) == |ParamsText(r)| + ParamsSlack(r.params, r.longestType)
  {
    hide ParamTexts, ParamRooms, ParamsSlack;
    ParamsExceed(r.params, r.longestType);
    NoSlack(r.longestType);
  }

  lemma {:induction false} FlagsExceed(r: Request)
    requires IsSoundRequest(r)
    ensures |KEY_MULTIVAL| + 5 + |KEY_FROZEN| + 5 + |KEY_TIME_ZONE| + |r.timeZone|
         == |FlagsText(r)| + (if r.lenient then 1 else 0) + (if r.includeFrozen then 1 else 0)
            + (if r.applyTimeZone then 0 else |r.timeZone| - |"\"Z\""|)
  {
    hide AreSound, TextAt;
  }

  /** What the length pass counts is what is written, and just this much more: nothing for a cursor; else what
      the parameters may do without, and what shorter flags and the time zone that is not applied leave. */
  lemma {:induction false} BodyExceeds(r: Request)
    requires IsSoundRequest(r)
    ensures BodyRoom(r) - |BodyText(r)|
         == if r.cursor != "" then 0
            else ParamsSlack(r.params, r.longestType)
                 + (if r.lenient then 1 else 0) + (if r.includeFrozen then 1 else 0)
                 + (if r.applyTimeZone then 0 else |r.timeZone| - |"\"Z\""|)
  {
    hide Escape, ParamsText, ParamsRoom, AreSound, TextAt, FetchText, CatalogText, FlagsText, ParamsSlack;
    ParamsTextExceeds(r);
    FlagsExceed(r);
  }

  lemma {:induction false} NoRooms(longestType: string)
    ensures ParamRooms([], longestType) == 0
  {
  }

  /** What `convert_param_val` returns when it has nowhere to write. */
  method ValueLen(p: Param) returns (len: nat)
    requires IsReadable(p)
    ensures len == ValueRoom(p)
  {
    match p
    case Null(_) => return 4;
    case Boolean(_, _) => return |"false"|;
    case Narrow(_, _, data, octets) =>
      len := EscapedLen(NarrowText(p));
      return len + 2;
    case Wide(_, _, _, utf8) =>
      return 6 * |utf8| + 2;
  }

  lemma {:induction false} PlainEscapesToItself(s: string)
    requires IsPlain(s)
    ensures Escape(s) == s
  {
    if s != "" {
      PlainEscapesToItself(s[..|s| - 1]);
    }
  }

  /** The length pass over the parameters; it stops at the first string that is too long. */
  method ParamsLen(params: seq<Param>, longestType: string) returns (len: nat, tooLong: bool)
    requires AreSound(params, longestType) && IsPlain(longestType)
    ensures tooLong <==> exists i :: 0 <= i < |params| && IsTooLong(params[i])
    ensures !tooLong ==> len == 1 + ParamRooms(params, longestType) + 1
  {
    hide IsTooLong, ParamRooms, Escape, FirstNul, TextAt, IsPlain, IsReadable;
    len, tooLong := 1, false;
    NoRooms(longestType);
    assert params[..0] == [];
    for i := 0 to |params|
      invariant len == 1 + ParamRooms(params[..i], longestType)
      invariant forall j :: 0 <= j < i ==> !IsTooLong(params[j])
    {
      RoomsGrow(params, longestType, i);
      var p := params[i];
      if IsTooLong(p) {
        return len, true;
      }
      var typeLen := EscapedLen(longestType);
      PlainEscapesToItself(longestType);
      var valueLen := ValueLen(p);
      len := len + |Separator(i)| + |PARAM_TYPE| + typeLen + |PARAM_VALUE| + valueLen + 1;
    }
    assert params[..|params|] == params;
    len := len + 1;
  }

  method FetchLen(r: Request) returns (len: nat)
    ensures len == |FetchText(r)|
  {
    return if r.fetchSize != "" then |KEY_FETCH| + |r.fetchSize| else 0;
  }

  method CatalogLen(r: Request) returns (len: nat)
    ensures len == |CatalogText(r)|
  {
    return if r.catalog != "" then |KEY_CATALOG| + |r.catalog| + 2 else 0;
  }

  lemma {:induction false} NoneTooLong()
    ensures !AnyTooLong([])
  {
  }

  method StatementLen(r: Request) returns (len: nat, tooLong: bool)
    requires IsSoundRequest(r)
    ensures tooLong <==> r.cursor == "" && AnyTooLong(r.params)
    ensures !tooLong ==> len == BodyRoom(r) >= |BodyText(r)|
  {
    hide Escape, TextAt, AreSound, BodyText, IsPlain, ParamRooms, IsTooLong, FetchText, CatalogText;
    BodyFits(r);
    tooLong := false;
    var n: int := 1;
    if r.cursor != "" {
      n := n + |KEY_CURSOR| + |r.cursor| + 2;
    } else {
      var escaped := EscapedLen(Sql(r));
      n := n + |KEY_QUERY| + escaped + 2;
      if r.params != [] {
        var params;
        params, tooLong := ParamsLen(r.params, r.longestType);
        if tooLong {
          return 0, true;
        }
        n := n + |KEY_PARAMS| + params;
      } else {
        NoneTooLong();
      }
      var fetch := FetchLen(r);
      var catalog := CatalogLen(r);
      n := n + fetch + |KEY_MULTIVAL| + 5 + |KEY_FROZEN| + 5 + |KEY_TIME_ZONE| + |r.timeZone| + catalog;
      n := n + |KEY_VERSION| + |r.version| + 2;
    }
    len := n + |MODE| + |CLIENT| + |KEY_BINARY| + |"false"| + 1;
  }
}
