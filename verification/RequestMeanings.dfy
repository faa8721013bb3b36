/** What the body of a request says, read as a JSON text. */
module RequestMeanings {
  import opened Decimals
  import opened JsonText
  import opened Json
  import opened Requests

  // ---- what is sent -------------------------------------------------------------------------------

  function Named(name: string, value: JsonValue): Member {
    Member(Codes(name), value)
  }

  function SentValue(p: Param): JsonValue
    requires Requests.IsReadable(p)
  {
    match p
    case Null(_) => JsonValue.Null
    case Boolean(_, truth) => Bool(truth)
    case Narrow(_, _, _, _) => Str(Codes(NarrowText(p)))
    case Wide(_, _, _, utf8) => Str(Codes(utf8))
  }

  function SentObject(p: Param): JsonValue
    requires Requests.IsReadable(p)
  {
    Obj([Named("type", Str(Codes(p.typeName))), Named("value", SentValue(p))])
  }

  function SentObjects(params: seq<Param>, longestType: string): (objects: seq<JsonValue>)
    requires AreSound(params, longestType)
    ensures |objects| == |params| && forall i :: 0 <= i < |params| ==> objects[i] == SentObject(params[i])
  {
    seq(|params|, i requires 0 <= i < |params| => SentObject(params[i]))
  }

  /** What is copied as it is needs no escaping, the fetch size is a number, and the time zone quoted. */
  predicate IsLegible(r: Request) {
    && IsPlain(r.cursor) && IsPlain(r.catalog) && IsPlain(r.version)
    && (r.fetchSize == "" || IsJsonNumber(r.fetchSize))
    && |r.timeZone| >= 2 && r.timeZone == Quoted(r.timeZone[1..|r.timeZone| - 1])
    && IsPlain(r.timeZone[1..|r.timeZone| - 1])
  }

  /** The text between the quotes of a time zone parameter. */
  function ZoneOf(r: Request): string
    requires IsLegible(r)
  {
    if r.applyTimeZone then r.timeZone[1..|r.timeZone| - 1] else "Z"
  }

  function SentParams(r: Request): seq<Member>
    requires IsSoundRequest(r)
  {
    if r.params == [] then [] else [Named("params", Arr(SentObjects(r.params, r.longestType)))]
  }

  function FetchMeaning(r: Request): seq<Member> {
    if r.fetchSize == "" then [] else [Named("fetch_size", Number(r.fetchSize))]
  }

  function FlagsMeaning(r: Request): seq<Member>
    requires IsLegible(r)
  {
    [Named("field_multi_value_leniency", Bool(r.lenient)), Named("index_include_frozen", Bool(r.includeFrozen)),
     Named("time_zone", Str(Codes(ZoneOf(r))))]
  }

  function CatalogMeaning(r: Request): seq<Member> {
    if r.catalog == "" then [] else [Named("catalog", Str(Codes(r.catalog)))]
  }

  const CLOSING_MEANING :=
    [Named("mode", Str(Codes("ODBC"))), Named("client_id", Str(Codes("odbc64"))), Named("binary_format", Bool(false))]

  /** The members that are sent, in order. */
  function SentMembers(r: Request): seq<Member>
    requires IsSoundRequest(r) && IsLegible(r)
  {
    if r.cursor != "" then [Named("cursor", Str(Codes(r.cursor)))] + CLOSING_MEANING
    else
      [Named("query", Str(Codes(Sql(r))))]
      + (SentParams(r)
         + (FetchMeaning(r)
            + (FlagsMeaning(r)
               + (CatalogMeaning(r) + ([Named("version", Str(Codes(r.version)))] + CLOSING_MEANING)))))
  }

  // ---- the members as they are written --------------------------------------------------------------

  function QuotedField(name: string, s: string): Field {
    Field(name, Quoted(s), Str(Codes(s)))
  }

  function BoolField(name: string, b: bool): Field {
    Field(name, BoolText(b), Bool(b))
  }

  function Opening(r: Request): Field
    requires IsSoundRequest(r)
  {
    if r.cursor != "" then QuotedField("cursor", r.cursor)
    else Field("query", Quoted(Escape(Sql(r))), Str(Codes(Sql(r))))
  }

  function TypeField(p: Param): Field {
    QuotedField("type", p.typeName)
  }

  function ValueField(p: Param): Field
    requires Requests.IsReadable(p)
  {
    Field("value", ValueText(p), SentValue(p))
  }

  function ParamItems(params: seq<Param>, longestType: string): (items: seq<Item>)
    requires AreSound(params, longestType)
    ensures |items| == |params|
    ensures forall i :: 0 <= i < |params| ==> items[i] == Item(ParamText(params[i]), SentObject(params[i]))
  {
    seq(|params|, i requires 0 <= i < |params| => Item(ParamText(params[i]), SentObject(params[i])))
  }

  function ParamsField(r: Request): seq<Field>
    requires IsSoundRequest(r)
  {
    if r.params == [] then []
    else [Field("params", "[" + ParamTexts(r.params, r.longestType) + "]", Arr(SentObjects(r.params, r.longestType)))]
  }

  function FetchField(r: Request): seq<Field> {
    if r.fetchSize == "" then [] else [Field("fetch_size", r.fetchSize, Number(r.fetchSize))]
  }

  function FlagFields(r: Request): seq<Field>
    requires IsLegible(r)
  {
    [BoolField("field_multi_value_leniency", r.lenient), BoolField("index_include_frozen", r.includeFrozen),
     QuotedField("time_zone", ZoneOf(r))]
  }

  function CatalogField(r: Request): seq<Field> {
    if r.catalog == "" then [] else [QuotedField("catalog", r.catalog)]
  }

  function VersionField(r: Request): seq<Field> {
    [QuotedField("version", r.version)]
  }

  const CLOSING_FIELDS := [QuotedField("mode", "ODBC"), QuotedField("client_id", "odbc64"), BoolField("binary_format",
                                       false)]

  /** The members after the first. */
  function Others(r: Request): seq<Field>
    requires IsSoundRequest(r) && IsLegible(r)
  {
    if r.cursor != "" then CLOSING_FIELDS
    else
      ParamsField(r) + (FetchField(r) + (FlagFields(r) + (CatalogField(r) + (VersionField(r) + CLOSING_FIELDS))))
  }

  // ---- the text of the members is the body --------------------------------------------------------

  lemma {:induction false} OneTail(f: Field)
    ensures TailText([f]) == ", " + FieldText(f)
  {
    assert [f][1..] == [] && ", " + FieldText(f) + "" == ", " + FieldText(f);
  }

  lemma {:induction false} ThreeTails(f: Field, g: Field, h: Field)
    ensures TailText([f, g, h]) == ", " + FieldText(f) + (", " + FieldText(g)) + (", " + FieldText(h))
  {
    OneTail(f);
    OneTail(g);
    OneTail(h);
    TailsJoin([f], [g]);
    TailsJoin([f] + [g], [h]);
    assert [f] + [g] + [h] == [f, g, h];
    hide TailText, FieldText;
  }

  lemma {:induction false} KeyAndValue(name: string, text: string, value: JsonValue)
    ensures ", " + FieldText(Field(name, text, value)) == ", \"" + name + "\": " + text
  {
    assert ", " + ("\"" + name + "\": " + text) == ", \"" + name + "\": " + text;
  }

  lemma {:induction false} ParamsTail(r: Request)
    requires IsSoundRequest(r)
    ensures TailText(ParamsField(r)) == ParamsText(r)
  {
    hide ParamTexts, AreSound, SentObjects, IsPlain;
    if r.params != [] {
      var text, value := "[" + ParamTexts(r.params, r.longestType) + "]", Arr(SentObjects(r.params, r.longestType));
      OneTail(Field("params", text, value));
      KeyAndValue("params", text, value);
    }
  }

  lemma {:induction false} FetchTail(r: Request)
    ensures TailText(FetchField(r)) == FetchText(r)
  {
    if r.fetchSize != "" {
      OneTail(Field("fetch_size", r.fetchSize, Number(r.fetchSize)));
      KeyAndValue("fetch_size", r.fetchSize, Number(r.fetchSize));
    }
  }

  lemma {:induction false} CatalogTail(r: Request)
    ensures TailText(CatalogField(r)) == CatalogText(r)
  {
    if r.catalog != "" {
      OneTail(QuotedField("catalog", r.catalog));
      KeyAndValue("catalog", Quoted(r.catalog), Str(Codes(r.catalog)));
      hide Codes, Quoted;
    }
  }

  lemma {:induction false} VersionTail(r: Request)
    ensures TailText(VersionField(r)) == KEY_VERSION + Quoted(r.version)
  {
    OneTail(QuotedField("version", r.version));
    KeyAndValue("version", Quoted(r.version), Str(Codes(r.version)));
    hide Codes, Quoted;
  }

  /** How a key with its separators is spelled. */
  function Key(name: string): string {
    ", \"" + name + "\": "
  }

  lemma {:induction false} ThreeMembers(a: string, s: string, u: JsonValue, b: string, t: string, v: JsonValue,
                                        c: string, z: string, w: JsonValue)
    ensures TailText([Field(a, s, u), Field(b, t, v), Field(c, z, w)]) == Key(a) + s + (Key(b) + t) + (Key(c) + z)
  {
    ThreeTails(Field(a, s, u), Field(b, t, v), Field(c, z, w));
    KeyAndValue(a, s, u);
    KeyAndValue(b, t, v);
    KeyAndValue(c, z, w);
    hide TailText, FieldText;
  }

  lemma {:induction false} FlagKeys()
    ensures Key("field_multi_value_leniency") == KEY_MULTIVAL
  {
  }

  lemma {:induction false} ZoneKeys()
    ensures Key("index_include_frozen") == KEY_FROZEN && Key("time_zone") == KEY_TIME_ZONE
  {
  }

  lemma {:induction false} Sixfold(a: string, b: string, c: string, d: string, e: string, f: string)
    ensures a + b + (c + d) + (e + f) == a + b + c + d + e + f
  {
  }

  lemma {:induction false} ZoneText(r: Request)
    requires IsLegible(r)
    ensures Quoted(ZoneOf(r)) == if r.applyTimeZone then r.timeZone else TIME_ZONE_Z
  {
  }

  lemma {:induction false} FlagsTail(r: Request)
    requires IsLegible(r)
    ensures TailText(FlagFields(r)) == FlagsText(r)
  {
    ZoneText(r);
    FlagKeys();
    ZoneKeys();
    hide BoolText, Quoted, Codes, TailText, IsLegible, ZoneOf, Key;
    ThreeMembers("field_multi_value_leniency", BoolText(r.lenient), Bool(r.lenient),
                 "index_include_frozen", BoolText(r.includeFrozen), Bool(r.includeFrozen),
                 "time_zone", Quoted(ZoneOf(r)), Str(Codes(ZoneOf(r))));
    Sixfold(KEY_MULTIVAL, BoolText(r.lenient), KEY_FROZEN, BoolText(r.includeFrozen), KEY_TIME_ZONE, Quoted(ZoneOf(r)));
  }

  lemma {:induction false} ClosingKeys()
    ensures Key("mode") + Quoted("ODBC") == MODE && Key("client_id") + Quoted("odbc64") == CLIENT
    ensures Key("binary_format") == KEY_BINARY && BoolText(false) == "false"
  {
  }

  lemma {:induction false} ClosingGrouped(a: string, b: string, c: string, d: string)
    ensures a + b + (c + d) + "}" == a + b + c + d + "}"
  {
  }

  lemma {:induction false} ClosingTail()
    ensures TailText(CLOSING_FIELDS) + "}" == CLOSING
  {
    ClosingKeys();
    hide TailText, Codes, Key, Quoted, BoolText;
    ThreeMembers("mode", Quoted("ODBC"), Str(Codes("ODBC")), "client_id", Quoted("odbc64"), Str(Codes("odbc64")),
                 "binary_format", BoolText(false), Bool(false));
    ClosingGrouped(MODE, CLIENT, KEY_BINARY, "false");
  }

  lemma {:induction false} OthersText(r: Request)
    requires IsSoundRequest(r) && IsLegible(r) && r.cursor == ""
    ensures TailText(Others(r))
         == ParamsText(r) + (FetchText(r) + (FlagsText(r) + (CatalogText(r) + (KEY_VERSION + Quoted(r.version)
            + TailText(CLOSING_FIELDS)))))
  {
    var version := VersionField(r) + CLOSING_FIELDS;
    var catalog := CatalogField(r) + version;
    var flags := FlagFields(r) + catalog;
    var fetch := FetchField(r) + flags;
    ParamsTail(r);
    FetchTail(r);
    FlagsTail(r);
    CatalogTail(r);
    VersionTail(r);
    hide TailText, ParamsText, FetchText, FlagsText, CatalogText, ParamsField, FetchField, FlagFields, CatalogField,
         VersionField, IsSoundRequest, IsLegible, Quoted;
    TailsJoin(VersionField(r), CLOSING_FIELDS);
    TailsJoin(CatalogField(r), version);
    TailsJoin(FlagFields(r), catalog);
    TailsJoin(FetchField(r), flags);
    TailsJoin(ParamsField(r), fetch);
  }

  lemma {:induction false} OpeningField(name: string, text: string, value: JsonValue)
    ensures FieldText(Field(name, text, value)) == "\"" + name + "\": " + text
  {
  }

  lemma {:induction false} OpeningIsField(r: Request)
    requires IsSoundRequest(r)
    ensures FieldText(Opening(r)) == if r.cursor != "" then KEY_CURSOR + Quoted(r.cursor) else QueryText(r)
  {
    hide Codes, Escape, IsSoundRequest, Quoted, TextAt;
    if r.cursor != "" {
      OpeningField("cursor", Quoted(r.cursor), Str(Codes(r.cursor)));
    } else {
      OpeningField("query", Quoted(Escape(Sql(r))), Str(Codes(Sql(r))));
    }
  }

  lemma {:induction false} ClosedAfter(opening: string, closing: string)
    ensures "{" + opening + (closing + "}") == "{" + opening + closing + "}"
  {
  }

  lemma {:induction false} Regrouped(query: string, a: string, b: string, c: string, d: string, e: string,
                                     closing: string)
    ensures "{" + (query + a + b + c + d + e) + (closing + "}")
         == "{" + query + (a + (b + (c + (d + (e + closing))))) + "}"
  {
    assert a + (b + (c + (d + (e + closing)))) == a + b + c + d + e + closing;
    assert query + a + b + c + d + e == query + (a + b + c + d + e);
  }

  lemma {:induction false} BodyIsMembers(r: Request)
    requires IsSoundRequest(r) && IsLegible(r)
    ensures BodyText(r) == "{" + FieldText(Opening(r)) + TailText(Others(r)) + "}"
  {
    ClosingTail();
    OpeningIsField(r);
    if r.cursor == "" {
      OthersText(r);
    }
    hide TailText, FieldText, IsSoundRequest, IsLegible, Quoted, QueryText, ParamsText, FetchText, FlagsText,
         CatalogText,
         ParamsField, FetchField, FlagFields, CatalogField, VersionField, Opening;
    var closing := TailText(CLOSING_FIELDS);
    if r.cursor != "" {
      ClosedAfter(KEY_CURSOR + Quoted(r.cursor), closing);
    } else {
      hide Others;
      Regrouped(QueryText(r), ParamsText(r), FetchText(r), FlagsText(r), CatalogText(r),
                KEY_VERSION + Quoted(r.version),
                closing);
    }
  }

  // ---- each member reads as its value ---------------------------------------------------------------

  lemma {:induction false} PlainReads(s: string)
    requires IsPlain(s)
    ensures Reads(Quoted(s), Str(Codes(s)))
  {
    PlainEscapesToItself(s);
    StringReads(s);
    hide Reads, Escape, Codes;
  }

  lemma {:induction false} BoolReads(b: bool)
    ensures Reads(BoolText(b), Bool(b))
  {
    LiteralsRead();
    hide Reads;
  }

  lemma {:induction false} ValueReads(p: Param)
    requires Requests.IsReadable(p)
    ensures Reads(ValueText(p), SentValue(p))
  {
    LiteralsRead();
    hide Reads, Escape, Codes, TextAt;
    match p
    case Null(_) =>
    case Boolean(_, truth) =>
    case Narrow(_, _, _, _) => StringReads(NarrowText(p));
    case Wide(_, _, _, utf8) => StringReads(utf8);
  }

  lemma {:induction false} LettersArePlain()
    ensures forall c :: '0' <= c <= 'Z' || '_' <= c <= 'z' ==> Sequence(c) == [c]
  {
  }

  lemma {:induction false} NamesArePlain()
    ensures IsPlain("type") && IsPlain("value") && IsPlain("cursor") && IsPlain("query") && IsPlain("params")
    ensures IsPlain("catalog") && IsPlain("version") && IsPlain("Z")
  {
    LettersArePlain();
    hide Sequence;
  }

  lemma {:induction false} ClosingNamesArePlain()
    ensures IsPlain("mode") && IsPlain("ODBC") && IsPlain("client_id") && IsPlain("odbc64") && IsPlain("binary_format")
  {
    LettersArePlain();
    hide Sequence;
  }

  lemma {:induction false} LongNamesArePlain()
    ensures IsPlain("fetch_size") && IsPlain("time_zone") && IsPlain("index_include_frozen")
  {
    LettersArePlain();
    hide Sequence;
  }

  lemma {:induction false} LongestNameIsPlain()
    ensures IsPlain("field_multi_value_leniency")
  {
    LettersArePlain();
    hide Sequence;
  }

  lemma {:induction false} FieldReads(name: string, text: string, value: JsonValue)
    requires IsPlain(name) && Reads(text, value)
    ensures Json.IsReadable(Field(name, text, value))
  {
    PlainEscapesToItself(name);
    hide Reads, IsPlain;
  }

  lemma {:induction false} Spelled(name: string, value: string)
    ensures "{" + ("\"" + "type" + "\": " + Quoted(name)) + (", \"" + "value" + "\": " + value) + "}"
         == PARAM_TYPE + name + PARAM_VALUE + value + "}"
  {
    assert "{" + ("\"" + "type" + "\": " + ("\"" + name + "\"")) == PARAM_TYPE + name + "\"";
    assert "\"" + (", \"" + "value" + "\": ") == PARAM_VALUE;
    assert PARAM_TYPE + name + "\"" + (", \"" + "value" + "\": " + value)
        == PARAM_TYPE + name + ("\"" + (", \"" + "value" + "\": ")) + value;
  }

  lemma {:induction false} ParamTextIsObject(p: Param)
    requires Requests.IsReadable(p)
    ensures ParamText(p) == "{" + FieldText(TypeField(p)) + TailText([ValueField(p)]) + "}"
    ensures SentObject(p) == Obj([MemberOf(TypeField(p))] + MembersOf([ValueField(p)]))
  {
    OneTail(ValueField(p));
    KeyAndValue("value", ValueText(p), SentValue(p));
    OpeningField("type", Quoted(p.typeName), Str(Codes(p.typeName)));
    assert [ValueField(p)][1..] == [];
    assert MembersOf([ValueField(p)]) == [MemberOf(ValueField(p))] + [] == [MemberOf(ValueField(p))];
    hide TailText, FieldText, Codes, ValueText, SentValue;
    Spelled(p.typeName, ValueText(p));
  }

  lemma {:induction false} AlwaysObject(first: Field, fields: seq<Field>)
    requires Json.IsReadable(first) && AreReadable(fields)
    ensures Reads("{" + FieldText(first) + TailText(fields) + "}", Obj([MemberOf(first)] + MembersOf(fields)))
  {
    hide ReadValue, FieldText, TailText, Json.IsReadable, AreReadable, MemberOf, MembersOf;
    var text := "{" + FieldText(first) + TailText(fields) + "}";
    forall rest: string
      ensures ReadValue(text + rest) == Good(Obj([MemberOf(first)] + MembersOf(fields)), rest)
    {
      ObjectReads(first, fields, rest);
    }
  }

  lemma {:induction false} ParamReads(p: Param)
    requires Requests.IsReadable(p) && IsPlain(p.typeName)
    ensures Reads(ParamText(p), SentObject(p)) && ParamText(p) != "" && ParamText(p)[0] == '{'
  {
    hide ParamText, SentObject, FieldText, TailText, MembersOf, MemberOf, ValueText, SentValue, Codes, Quoted,
         ReadValue,
         IsPlain;
    ParamTextIsObject(p);
    NamesArePlain();
    PlainReads(p.typeName);
    ValueReads(p);
    hide Reads, Json.IsReadable;
    FieldReads("type", Quoted(p.typeName), Str(Codes(p.typeName)));
    FieldReads("value", ValueText(p), SentValue(p));
    var fields := [ValueField(p)];
    assert AreReadable(fields);
    AlwaysObject(TypeField(p), fields);
  }

  lemma {:induction false} ParamsAreItems(params: seq<Param>, longestType: string)
    requires AreSound(params, longestType)
    ensures ParamTexts(params, longestType) == ItemsText(ParamItems(params, longestType))
  {
    hide ParamText, SentObject;
    var items := ParamItems(params, longestType);
    if params != [] {
      var n := |params| - 1;
      ParamsAreItems(params[..n], longestType);
      assert items[..n] == ParamItems(params[..n], longestType);
      var sofar := ItemsText(items[..n]);
      assert sofar + (Separator(n) + ParamText(params[n])) == sofar + Separator(n) + ParamText(params[n]);
    }
  }

  lemma {:induction false} ItemsAreReadable(params: seq<Param>, longestType: string)
    requires AreSound(params, longestType)
    ensures var items := ParamItems(params, longestType);
            && (forall i :: 0 <= i < |items| ==> Reads(items[i].text, items[i].value))
            && (forall i :: 0 <= i < |items| ==> items[i].text != "" && items[i].text[0] == '{')
  {
    hide Reads, ParamText, SentObject, IsPlain, Requests.IsReadable;
    forall i | 0 <= i < |params|
      ensures Reads(ParamText(params[i]), SentObject(params[i]))
      ensures ParamText(params[i]) != "" && ParamText(params[i])[0] == '{'
    {
      ParamReads(params[i]);
    }
  }

  lemma {:induction false} ParamsRead(r: Request)
    requires IsSoundRequest(r)
    ensures AreReadable(ParamsField(r))
  {
    if r.params != [] {
      var items := ParamItems(r.params, r.longestType);
      ItemsAreReadable(r.params, r.longestType);
      hide Reads, ItemsText, ParamText, SentObject, IsPlain, ParamTexts;
      ParamsAreItems(r.params, r.longestType);
      ArrayReads(items);
      assert ValuesOf(items) == SentObjects(r.params, r.longestType);
      NamesArePlain();
      FieldReads("params", "[" + ParamTexts(r.params, r.longestType) + "]", Arr(SentObjects(r.params, r.longestType)));
    }
  }

  lemma {:induction false} FlagsRead(r: Request)
    requires IsLegible(r)
    ensures AreReadable(FlagFields(r))
  {
    LongestNameIsPlain();
    LongNamesArePlain();
    NamesArePlain();
    assert IsPlain(ZoneOf(r));
    hide IsPlain, Reads, Quoted, BoolText, Codes, Json.IsReadable, ZoneOf, IsLegible;
    BoolReads(r.lenient);
    BoolReads(r.includeFrozen);
    PlainReads(ZoneOf(r));
    FieldReads("field_multi_value_leniency", BoolText(r.lenient), Bool(r.lenient));
    FieldReads("index_include_frozen", BoolText(r.includeFrozen), Bool(r.includeFrozen));
    FieldReads("time_zone", Quoted(ZoneOf(r)), Str(Codes(ZoneOf(r))));
  }

  lemma {:induction false} ClosingReads()
    ensures AreReadable(CLOSING_FIELDS)
  {
    ClosingNamesArePlain();
    hide IsPlain, Reads, Quoted, BoolText, Codes, Json.IsReadable;
    PlainReads("ODBC");
    PlainReads("odbc64");
    BoolReads(false);
    FieldReads("mode", Quoted("ODBC"), Str(Codes("ODBC")));
    FieldReads("client_id", Quoted("odbc64"), Str(Codes("odbc64")));
    FieldReads("binary_format", BoolText(false), Bool(false));
  }

  lemma {:induction false} TextFieldsRead(r: Request)
    requires IsLegible(r)
    ensures AreReadable(FetchField(r)) && AreReadable(CatalogField(r)) && AreReadable(VersionField(r))
  {
    NamesArePlain();
    LongNamesArePlain();
    if r.fetchSize != "" {
      NumberReads(r.fetchSize);
      FieldReads("fetch_size", r.fetchSize, Number(r.fetchSize));
    }
    hide IsPlain, Reads, Quoted, Codes, Json.IsReadable;
    PlainReads(r.catalog);
    PlainReads(r.version);
    FieldReads("catalog", Quoted(r.catalog), Str(Codes(r.catalog)));
    FieldReads("version", Quoted(r.version), Str(Codes(r.version)));
  }

  lemma {:induction false} OpeningReads(r: Request)
    requires IsSoundRequest(r) && IsLegible(r)
    ensures Json.IsReadable(Opening(r))
  {
    NamesArePlain();
    hide IsPlain, Reads, Codes, Json.IsReadable, Escape, TextAt, IsSoundRequest;
    PlainReads(r.cursor);
    FieldReads("cursor", Quoted(r.cursor), Str(Codes(r.cursor)));
    if r.cursor == "" {
      StringReads(Sql(r));
      FieldReads("query", Quoted(Escape(Sql(r))), Str(Codes(Sql(r))));
    }
  }

  lemma {:induction false} ReadableJoin(a: seq<Field>, b: seq<Field>)
    requires AreReadable(a) && AreReadable(b)
    ensures AreReadable(a + b)
  {
    hide Json.IsReadable;
  }

  lemma {:induction false} OthersRead(r: Request)
    requires IsSoundRequest(r) && IsLegible(r)
    ensures AreReadable(Others(r))
  {
    ParamsRead(r);
    FlagsRead(r);
    ClosingReads();
    TextFieldsRead(r);
    hide AreReadable, IsSoundRequest, IsLegible, ParamsField, FetchField, FlagFields, CatalogField, VersionField;
    var version := VersionField(r) + CLOSING_FIELDS;
    var catalog := CatalogField(r) + version;
    var flags := FlagFields(r) + catalog;
    ReadableJoin(VersionField(r), CLOSING_FIELDS);
    ReadableJoin(CatalogField(r), version);
    ReadableJoin(FlagFields(r), catalog);
    ReadableJoin(FetchField(r), flags);
    ReadableJoin(ParamsField(r), FetchField(r) + flags);
  }

  // ---- the members are the meaning ------------------------------------------------------------------

  lemma {:induction false} MembersJoin(a: seq<Field>, b: seq<Field>)
    ensures MembersOf(a + b) == MembersOf(a) + MembersOf(b)
  {
    hide MemberOf;
    if a == [] {
      assert a + b == b && [] + MembersOf(b) == MembersOf(b);
    } else {
      assert (a + b)[1..] == a[1..] + b && (a + b)[0] == a[0];
      MembersJoin(a[1..], b);
      assert [MemberOf(a[0])] + (MembersOf(a[1..]) + MembersOf(b))
          == [MemberOf(a[0])] + MembersOf(a[1..]) + MembersOf(b);
    }
  }

  lemma {:induction false} OneMember(f: Field)
    ensures MembersOf([f]) == [MemberOf(f)]
  {
    assert [f][1..] == [] && [MemberOf(f)] + [] == [MemberOf(f)];
  }

  lemma {:induction false} ThreeAre(f: Field, g: Field, h: Field)
    ensures MembersOf([f, g, h]) == [MemberOf(f), MemberOf(g), MemberOf(h)]
  {
    OneMember(f);
    OneMember(g);
    OneMember(h);
    MembersJoin([f], [g]);
    MembersJoin([f] + [g], [h]);
    assert [f] + [g] + [h] == [f, g, h];
    hide MembersOf;
  }

  lemma {:induction false} PartsAreMembers(r: Request)
    requires IsSoundRequest(r) && IsLegible(r)
    ensures MembersOf(ParamsField(r)) == SentParams(r) && MembersOf(FetchField(r)) == FetchMeaning(r)
    ensures MembersOf(CatalogField(r)) == CatalogMeaning(r)
    ensures MembersOf(VersionField(r)) == [Named("version", Str(Codes(r.version)))]
  {
    hide IsSoundRequest, IsLegible, ParamTexts, SentObjects, Codes, Quoted;
    if r.params != [] {
      OneMember(ParamsField(r)[0]);
    }
    if r.fetchSize != "" {
      OneMember(FetchField(r)[0]);
    }
    if r.catalog != "" {
      OneMember(CatalogField(r)[0]);
    }
    OneMember(VersionField(r)[0]);
  }

  lemma {:induction false} FlagsAreMembers(r: Request)
    requires IsLegible(r)
    ensures MembersOf(FlagFields(r)) == FlagsMeaning(r) && MembersOf(CLOSING_FIELDS) == CLOSING_MEANING
  {
    hide IsLegible, Codes, Quoted, BoolText, ZoneOf, MembersOf;
    ThreeAre(BoolField("field_multi_value_leniency", r.lenient), BoolField("index_include_frozen", r.includeFrozen),
             QuotedField("time_zone", ZoneOf(r)));
    ThreeAre(QuotedField("mode", "ODBC"), QuotedField("client_id", "odbc64"), BoolField("binary_format", false));
  }

  lemma {:induction false} MeaningIsMembers(r: Request)
    requires IsSoundRequest(r) && IsLegible(r)
    ensures SentMembers(r) == [MemberOf(Opening(r))] + MembersOf(Others(r))
  {
    PartsAreMembers(r);
    FlagsAreMembers(r);
    hide MembersOf, IsSoundRequest, IsLegible, ParamsField, FetchField, FlagFields, CatalogField, VersionField,
         SentParams, FetchMeaning, FlagsMeaning, CatalogMeaning, Codes, Quoted, Escape, TextAt;
    if r.cursor == "" {
      var version := VersionField(r) + CLOSING_FIELDS;
      var catalog := CatalogField(r) + version;
      var flags := FlagFields(r) + catalog;
      MembersJoin(VersionField(r), CLOSING_FIELDS);
      MembersJoin(CatalogField(r), version);
      MembersJoin(FlagFields(r), catalog);
      MembersJoin(FetchField(r), flags);
      MembersJoin(ParamsField(r), FetchField(r) + flags);
    }
  }

  /** The body that is written is, as a JSON text, the object of exactly these members. */
  lemma {:induction false} BodyReads(r: Request)
    requires IsSoundRequest(r) && IsLegible(r)
    ensures ReadValue(BodyText(r)) == Good(Obj(SentMembers(r)), "")
  {
    hide ReadValue, BodyText, SentMembers, FieldText, TailText, MembersOf, MemberOf, Json.IsReadable, AreReadable,
         Opening, Others;
    BodyIsMembers(r);
    OpeningReads(r);
    OthersRead(r);
    MeaningIsMembers(r);
    ObjectReads(Opening(r), Others(r), "");
    assert BodyText(r) + "" == BodyText(r);
  }
}
