/** The writing pass of the request serialiser. */
module RequestWriter {
  import opened Buffers
  import opened JsonText
  import opened Requests

  /** The buffer starts with `done`, and is as it was from `limit` on. */
  ghost predicate Built(body: array<char>, done: string, limit: nat, base: seq<char>)
    reads body
  {
    |done| <= limit <= |base| == body.Length && body[..|done|] == done && body[limit..] == base[limit..]
  }

  lemma {:induction false} Extends(body: array<char>, before: seq<char>, done: string, text: string, limit: nat,
                                   base: seq<char>)
    requires |before| == |base| == body.Length && |done| + |text| <= limit <= |base|
    requires before[..|done|] == done && before[limit..] == base[limit..]
    requires body[..|done|] == before[..|done|] && body[limit..] == before[limit..]
    requires body[|done|..|done| + |text|] == text
    ensures Built(body, done + text, limit, base)
  {
    assert body[..|done| + |text|] == body[..|done|] + body[|done|..|done| + |text|];
  }

  method Append(body: array<char>, pos: nat, text: string, ghost done: string, ghost limit: nat, ghost base: seq<char>)
    returns (end: nat)
    requires Built(body, done, limit, base) && pos == |done| && pos + |text| <= limit
    modifies body
    ensures end == pos + |text| && Built(body, done + text, limit, base)
  {
    ghost var before := body[..];
    WroteNothing(body, pos);
    end := Put(body, pos, text, before, pos, "");
    assert "" + text == text;
    Outside(before, body[..], pos, text, pos, limit - pos);
    assert body[..][..pos] == body[..pos] && body[..][limit..] == body[limit..];
    assert body[..][pos..pos + |text|] == body[pos..pos + |text|];
    Extends(body, before, done, text, limit, base);
  }

  method AppendEscaped(src: array<char>, inlen: nat, body: array<char>, pos: nat, ghost s: string,
                       ghost done: string, ghost limit: nat, ghost base: seq<char>)
    returns (end: nat)
    requires Built(body, done, limit, base) && pos == |done| && pos + |Escape(s)| <= limit
    requires src != body && inlen <= src.Length && s == TextAt(src[..], 0, inlen)
    requires inlen == 0 ==> '\0' in src[..]
    modifies body
    ensures end == pos + |Escape(s)| && Built(body, done + Escape(s), limit, base)
  {
    hide Escape, TextAt, Fit;
    ghost var before := body[..];
    WholeFits(s, body.Length - pos);
    assert src[0..] == src[..];
    var n := EscapeInto(src, 0, inlen, body, pos, body.Length - pos);
    Outside(before, body[..], pos, Escape(s), pos, limit - pos);
    assert body[..][..pos] == body[..pos] && body[..][limit..] == body[limit..];
    assert body[..][pos..pos + n] == body[pos..pos + n];
    Extends(body, before, done, Escape(s), limit, base);
    return pos + n;
  }

  lemma {:induction false} EmptyEscape()
    ensures Escape("") == ""
  {
  }

  /** A wide value: its UTF-8 form is put in place, and escaped there. */
  method AppendWide(utf8: string, body: array<char>, pos: nat, ghost done: string, ghost limit: nat,
                    ghost base: seq<char>)
    returns (end: nat)
    requires Built(body, done, limit, base) && pos == |done| && pos + 6 * |utf8| <= limit
    modifies body
    ensures end == pos + |Escape(utf8)| && Built(body, done + Escape(utf8), limit, base)
  {
    hide Escape;
    var octets := |utf8|;
    if octets == 0 {
      EmptyEscape();
      assert done + "" == done;
      return pos;
    }
    end := Append(body, pos, utf8, done, limit, base);
    ghost var before := body[..];
    assert body[pos..pos + octets] == utf8 by {
      assert body[..pos + octets][pos..] == body[pos..pos + octets];
      assert (done + utf8)[pos..] == utf8;
    }
    assert body[..pos] == done by {
      assert body[..pos + octets][..pos] == body[..pos];
      assert (done + utf8)[..pos] == done;
    }
    SixfoldIsEnough(utf8);
    var n := EscapeOverlapping(body, pos, octets, 6 * octets);
    assert body[limit..] == before[limit..] by {
      var rest := pos + 6 * octets;
      assert body[rest..][limit - rest..] == body[limit..];
      assert before[rest..][limit - rest..] == before[limit..];
    }
    Extends(body, before, done, Escape(utf8), limit, base);
    return pos + n;
  }

  // ---- parameters ---------------------------------------------------------------------------------

  lemma {:induction false} Requote(done: string, s: string)
    ensures done + "\"" + s + "\"" == done + Quoted(s)
  {
  }

  /** The value of a parameter; `memory` is what its data pointer refers to. */
  method AppendValue(p: Param, memory: array<char>, body: array<char>, pos: nat,
                     ghost done: string, ghost limit: nat, ghost base: seq<char>)
    returns (end: nat)
    requires Built(body, done, limit, base) && pos == |done|
    requires IsReadable(p) && pos + ValueRoom(p) <= limit
    requires memory != body && (p.Narrow? ==> memory[..] == p.data)
    modifies body
    ensures end == pos + |ValueText(p)| && Built(body, done + ValueText(p), limit, base)
  {
    hide Built, Escape, TextAt, FirstNul;
    match p
    case Null(_) =>
      end := Append(body, pos, "null", done, limit, base);
    case Boolean(_, truth) =>
      end := Append(body, pos, BoolText(truth), done, limit, base);
    case Narrow(_, _, data, octets) =>
      ghost var s := NarrowText(p);
      end := Append(body, pos, "\"", done, limit, base);
      end := AppendEscaped(memory, OctetLen(data, octets), body, end, s, done + "\"", limit, base);
      end := Append(body, end, "\"", done + "\"" + Escape(s), limit, base);
      Requote(done, Escape(s));
    case Wide(_, _, _, utf8) =>
      SixfoldIsEnough(utf8);
      end := Append(body, pos, "\"", done, limit, base);
      end := AppendWide(utf8, body, end, done + "\"", limit, base);
      end := Append(body, end, "\"", done + "\"" + Escape(utf8), limit, base);
      Requote(done, Escape(utf8));
  }

  /** The type of a parameter and the key of its value. */
  method AppendKey(typeName: string, body: array<char>, pos: nat, ghost done: string, ghost limit: nat,
                   ghost base: seq<char>)
    returns (end: nat)
    requires Built(body, done, limit, base) && pos == |done|
    requires pos + |PARAM_TYPE| + |typeName| + |PARAM_VALUE| <= limit
    modifies body
    ensures end == pos + |PARAM_TYPE| + |typeName| + |PARAM_VALUE|
    ensures Built(body, done + (PARAM_TYPE + typeName + PARAM_VALUE), limit, base)
  {
    hide Built;
    end := Append(body, pos, PARAM_TYPE, done, limit, base);
    end := Append(body, end, typeName, done + PARAM_TYPE, limit, base);
    Reassociate(done, PARAM_TYPE, typeName);
    end := Append(body, end, PARAM_VALUE, done + (PARAM_TYPE + typeName), limit, base);
    Reassociate(done, PARAM_TYPE + typeName, PARAM_VALUE);
  }

  method AppendParam(p: Param, memory: array<char>, longestType: string, body: array<char>, pos: nat,
                     ghost done: string, ghost limit: nat, ghost base: seq<char>)
    returns (end: nat)
    requires Built(body, done, limit, base) && pos == |done|
    requires IsSound(p, longestType) && pos + ParamRoom(p, longestType) <= limit
    requires memory != body && (p.Narrow? ==> memory[..] == p.data)
    modifies body
    ensures end == pos + |ParamText(p)| && Built(body, done + ParamText(p), limit, base)
  {
    hide Built, ValueText, ValueRoom, IsReadable, IsPlain;
    ValueFits(p);
    ghost var key := PARAM_TYPE + p.typeName + PARAM_VALUE;
    end := AppendKey(p.typeName, body, pos, done, limit, base);
    end := AppendValue(p, memory, body, end, done + key, limit, base);
    end := Append(body, end, "}", done + key + ValueText(p), limit, base);
    assert done + key + ValueText(p) + "}" == done + (key + ValueText(p) + "}");
  }

  /** Where the values of the parameters are. */
  ghost predicate AreBound(params: seq<Param>, memory: seq<array<char>>)
    reads memory
  {
    |memory| == |params| && forall i :: 0 <= i < |params| && params[i].Narrow? ==> memory[i][..] == params[i].data
  }

  lemma {:induction false} NoParams(longestType: string)
    ensures ParamTexts([], longestType) == ""
  {
  }

  lemma {:induction false} OneMoreParam(params: seq<Param>, longestType: string, i: nat)
    requires AreSound(params, longestType) && i < |params|
    ensures ParamTexts(params[..i + 1], longestType)
         == ParamTexts(params[..i], longestType) + (Separator(i) + ParamText(params[i]))
  {
    hide ParamText;
    assert params[..i + 1][..i] == params[..i];
  }

  method AppendParams(params: seq<Param>, memory: seq<array<char>>, longestType: string, body: array<char>, pos: nat,
                      ghost done: string, ghost limit: nat, ghost base: seq<char>)
    returns (end: nat)
    requires Built(body, done, limit, base) && pos == |done|
    requires AreSound(params, longestType) && pos + ParamRooms(params, longestType) <= limit
    requires AreBound(params, memory) && body !in memory
    modifies body
    ensures end == pos + |ParamTexts(params, longestType)|
    ensures Built(body, done + ParamTexts(params, longestType), limit, base)
  {
    hide Built, ParamText, ParamRoom, IsReadable, IsPlain, ParamTexts, ParamRooms;
    end := pos;
    NoParams(longestType);
    assert params[..0] == [] && done + "" == done;
    for i := 0 to |params|
      invariant end == pos + |ParamTexts(params[..i], longestType)|
      invariant Built(body, done + ParamTexts(params[..i], longestType), limit, base)
      invariant AreBound(params, memory)
    {
      RoomsGrow(params, longestType, i);
      ParamsFit(params[..i], longestType);
      OneMoreParam(params, longestType, i);
      ghost var sofar := ParamTexts(params[..i], longestType);
      end := Append(body, end, Separator(i), done + sofar, limit, base);
      end := AppendParam(params[i], memory[i], longestType, body, end, done + sofar + Separator(i), limit, base);
      assert done + sofar + Separator(i) + ParamText(params[i])
          == done + (sofar + (Separator(i) + ParamText(params[i])));
    }
    assert params[..|params|] == params;
  }

  // ---- the body -----------------------------------------------------------------------------------

  method AppendQuoted(body: array<char>, pos: nat, text: string, ghost done: string, ghost limit: nat,
                      ghost base: seq<char>)
    returns (end: nat)
    requires Built(body, done, limit, base) && pos == |done| && pos + |text| + 2 <= limit
    modifies body
    ensures end == pos + |Quoted(text)| && Built(body, done + Quoted(text), limit, base)
  {
    hide Built;
    end := Append(body, pos, "\"", done, limit, base);
    end := Append(body, end, text, done + "\"", limit, base);
    end := Append(body, end, "\"", done + "\"" + text, limit, base);
    Requote(done, text);
  }

  method AppendQuery(r: Request, sql: array<char>, body: array<char>, pos: nat,
                     ghost done: string, ghost limit: nat, ghost base: seq<char>)
    returns (end: nat)
    requires Built(body, done, limit, base) && pos == |done|
    requires IsSoundRequest(r) && pos + |QueryText(r)| <= limit
    requires sql != body && sql[..] == r.sql
    modifies body
    ensures end == pos + |QueryText(r)| && Built(body, done + QueryText(r), limit, base)
  {
    hide Built, Escape, TextAt, AreSound, IsPlain;
    ghost var s := Sql(r);
    end := Append(body, pos, KEY_QUERY, done, limit, base);
    end := Append(body, end, "\"", done + KEY_QUERY, limit, base);
    end := AppendEscaped(sql, r.sqlCnt, body, end, s, done + KEY_QUERY + "\"", limit, base);
    end := Append(body, end, "\"", done + KEY_QUERY + "\"" + Escape(s), limit, base);
    Requote(done + KEY_QUERY, Escape(s));
    assert done + KEY_QUERY + Quoted(Escape(s)) == done + (KEY_QUERY + Quoted(Escape(s)));
  }

  method AppendParamsMember(r: Request, memory: seq<array<char>>, body: array<char>, pos: nat,
                            ghost done: string, ghost limit: nat, ghost base: seq<char>)
    returns (end: nat)
    requires Built(body, done, limit, base) && pos == |done|
    requires IsSoundRequest(r) && pos + ParamsRoom(r) <= limit
    requires AreBound(r.params, memory) && body !in memory
    modifies body
    ensures end == pos + |ParamsText(r)| && Built(body, done + ParamsText(r), limit, base)
  {
    hide Built, ParamTexts, ParamRooms, AreSound, IsPlain, AreBound;
    if r.params == [] {
      assert done + "" == done;
      return pos;
    }
    ghost var texts := ParamTexts(r.params, r.longestType);
    ParamsFit(r.params, r.longestType);
    end := Append(body, pos, KEY_PARAMS, done, limit, base);
    end := Append(body, end, "[", done + KEY_PARAMS, limit, base);
    end := AppendParams(r.params, memory, r.longestType, body, end, done + KEY_PARAMS + "[", limit, base);
    end := Append(body, end, "]", done + KEY_PARAMS + "[" + texts, limit, base);
    assert done + KEY_PARAMS + "[" + texts + "]" == done + (KEY_PARAMS + ("[" + texts + "]"));
  }

  method AppendFetch(r: Request, body: array<char>, pos: nat, ghost done: string, ghost limit: nat,
                     ghost base: seq<char>)
    returns (end: nat)
    requires Built(body, done, limit, base) && pos == |done| && pos + |FetchText(r)| <= limit
    modifies body
    ensures end == pos + |FetchText(r)| && Built(body, done + FetchText(r), limit, base)
  {
    hide Built;
    if r.fetchSize == "" {
      assert done + "" == done;
      return pos;
    }
    end := Append(body, pos, KEY_FETCH, done, limit, base);
    end := Append(body, end, r.fetchSize, done + KEY_FETCH, limit, base);
    assert done + KEY_FETCH + r.fetchSize == done + (KEY_FETCH + r.fetchSize);
  }

  method AppendFlags(r: Request, body: array<char>, pos: nat, ghost done: string, ghost limit: nat,
                     ghost base: seq<char>)
    returns (end: nat)
    requires Built(body, done, limit, base) && pos == |done| && pos + |FlagsText(r)| <= limit
    modifies body
    ensures end == pos + |FlagsText(r)| && Built(body, done + FlagsText(r), limit, base)
  {
    hide Built, BoolText;
    ghost var zone := if r.applyTimeZone then r.timeZone else TIME_ZONE_Z;
    ghost var text := KEY_MULTIVAL;
    end := Append(body, pos, KEY_MULTIVAL, done, limit, base);
    end := Append(body, end, BoolText(r.lenient), done + text, limit, base);
    Reassociate(done, text, BoolText(r.lenient));
    text := text + BoolText(r.lenient);
    end := Append(body, end, KEY_FROZEN, done + text, limit, base);
    Reassociate(done, text, KEY_FROZEN);
    text := text + KEY_FROZEN;
    end := Append(body, end, BoolText(r.includeFrozen), done + text, limit, base);
    Reassociate(done, text, BoolText(r.includeFrozen));
    text := text + BoolText(r.includeFrozen);
    end := Append(body, end, KEY_TIME_ZONE, done + text, limit, base);
    Reassociate(done, text, KEY_TIME_ZONE);
    text := text + KEY_TIME_ZONE;
    if r.applyTimeZone {
      end := Append(body, end, r.timeZone, done + text, limit, base);
    } else {
      end := Append(body, end, TIME_ZONE_Z, done + text, limit, base);
    }
    Reassociate(done, text, zone);
  }

  method AppendCatalog(r: Request, body: array<char>, pos: nat, ghost done: string, ghost limit: nat,
                       ghost base: seq<char>)
    returns (end: nat)
    requires Built(body, done, limit, base) && pos == |done| && pos + |CatalogText(r)| <= limit
    modifies body
    ensures end == pos + |CatalogText(r)| && Built(body, done + CatalogText(r), limit, base)
  {
    hide Built;
    if r.catalog == "" {
      assert done + "" == done;
      return pos;
    }
    end := Append(body, pos, KEY_CATALOG, done, limit, base);
    end := AppendQuoted(body, end, r.catalog, done + KEY_CATALOG, limit, base);
    Reassociate(done, KEY_CATALOG, Quoted(r.catalog));
  }

  /** The length pass, part by part. */
  lemma {:induction false} PartsFit(r: Request)
    requires IsSoundRequest(r) && r.cursor == ""
    ensures |ParamsText(r)| <= ParamsRoom(r)
    ensures 1 + |QueryText(r)| + ParamsRoom(r) + |FetchText(r)| + |FlagsText(r)| + |CatalogText(r)|
            + |KEY_VERSION| + |r.version| + 2 + |CLOSING| <= BodyRoom(r)
  {
    hide Escape, ParamTexts, ParamRooms, AreSound, TextAt, FetchText, CatalogText, IsPlain;
    ParamsFit(r.params, r.longestType);
  }

  method AppendOpening(r: Request, sql: array<char>, memory: seq<array<char>>, body: array<char>, pos: nat,
                       ghost done: string, ghost limit: nat, ghost base: seq<char>)
    returns (end: nat)
    requires Built(body, done, limit, base) && pos == |done| == 1
    requires IsSoundRequest(r) && BodyRoom(r) <= limit
    requires sql != body && sql[..] == r.sql && AreBound(r.params, memory) && body !in memory
    modifies body
    ensures end == pos + |OpeningText(r)| && Built(body, done + OpeningText(r), limit, base)
  {
    hide Built, ParamsText, ParamsRoom, FetchText, FlagsText, CatalogText, Escape, TextAt, AreBound, AreSound, IsPlain;
    if r.cursor != "" {
      end := Append(body, pos, KEY_CURSOR, done, limit, base);
      end := AppendQuoted(body, end, r.cursor, done + KEY_CURSOR, limit, base);
      Reassociate(done, KEY_CURSOR, Quoted(r.cursor));
      return;
    }
    PartsFit(r);
    hide QueryText, Quoted;
    end := AppendQuery(r, sql, body, pos, done, limit, base);
    ghost var text := QueryText(r);
    end := AppendParamsMember(r, memory, body, end, done + text, limit, base);
    Reassociate(done, text, ParamsText(r));
    text := text + ParamsText(r);
    end := AppendFetch(r, body, end, done + text, limit, base);
    Reassociate(done, text, FetchText(r));
    text := text + FetchText(r);
    end := AppendFlags(r, body, end, done + text, limit, base);
    Reassociate(done, text, FlagsText(r));
    text := text + FlagsText(r);
    end := AppendCatalog(r, body, end, done + text, limit, base);
    Reassociate(done, text, CatalogText(r));
    text := text + CatalogText(r);
    end := Append(body, end, KEY_VERSION, done + text, limit, base);
    end := AppendQuoted(body, end, r.version, done + text + KEY_VERSION, limit, base);
    Reassociate(done + text, KEY_VERSION, Quoted(r.version));
    Reassociate(done, text, KEY_VERSION + Quoted(r.version));
  }

  lemma {:induction false} Finished(body: array<char>, text: string, limit: nat, base: seq<char>)
    requires Built(body, text, limit, base)
    ensures body[..|text|] == text && body[limit..] == base[limit..]
  {
  }

  /** `serialize_to_json`: the body is written whole, within what the length pass has counted. */
  method SerializeToJson(r: Request, sql: array<char>, memory: seq<array<char>>, body: array<char>) returns (cnt: nat)
    requires IsSoundRequest(r) && BodyRoom(r) <= body.Length
    requires sql != body && sql[..] == r.sql && AreBound(r.params, memory) && body !in memory
    modifies body
    ensures cnt == |BodyText(r)| <= BodyRoom(r) && body[..cnt] == BodyText(r)
    ensures body[BodyRoom(r)..] == old(body[BodyRoom(r)..])
  {
    ghost var base, limit := body[..], BodyRoom(r);
    BodyFits(r);
    assert Built(body, "", limit, base);
    hide Built, OpeningText, AreBound, IsSoundRequest, BodyRoom, AreBound;
    cnt := Append(body, 0, "{", "", limit, base);
    assert "" + "{" == "{";
    cnt := AppendOpening(r, sql, memory, body, cnt, "{", limit, base);
    cnt := Append(body, cnt, CLOSING, "{" + OpeningText(r), limit, base);
    Finished(body, BodyText(r), limit, base);
  }

  /** `serialize_statement`: a buffer that is too small is replaced by one of the length counted. */
  method SerializeStatement(r: Request, sql: array<char>, memory: seq<array<char>>, dest: array<char>)
    returns (body: array<char>, cnt: nat, tooLong: bool)
    requires IsSoundRequest(r)
    requires sql != dest && sql[..] == r.sql && AreBound(r.params, memory) && dest !in memory
    modifies dest
    ensures tooLong <==> r.cursor == "" && AnyTooLong(r.params)
    ensures !tooLong ==> cnt <= body.Length && body[..cnt] == BodyText(r)
    ensures !tooLong ==> (body == dest <==> BodyRoom(r) <= dest.Length)
    ensures body != dest ==> fresh(body) && dest[..] == old(dest[..])
  {
    hide BodyText, BodyRoom, AnyTooLong, AreBound, IsSoundRequest;
    body, cnt := dest, 0;
    var len;
    len, tooLong := StatementLen(r);
    if tooLong {
      return;
    }
    if dest.Length < len {
      body := new char[len];
    }
    cnt := SerializeToJson(r, sql, memory, body);
  }
}
