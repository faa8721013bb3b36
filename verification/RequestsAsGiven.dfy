/** Whether the server is sent what the application gave. */
module RequestsAsGiven {
  import opened Json
  import opened JsonText
  import opened RequestMeanings
  import opened Requests

  // ---- narrow parameters ----------------------------------------------------------------------

  /** The application's octets: as many as it says there are. */
  function GivenText(p: Param): string
    requires p.Narrow? && Requests.IsReadable(p)
  {
    p.data[..OctetLen(p.data, p.octets)]
  }

  /** An empty string given by its length, in front of what is left in the buffer. */
  predicate IsStale(p: Param) {
    p.Narrow? && p.octets == Count(0) && p.data != "" && p.data[0] != '\0'
  }

  /** The escaper takes a length of 0 for a text up to its NUL: exactly then is a text sent that was not
      given. */
  lemma {:induction false} SentAsGiven(p: Param)
    requires p.Narrow? && Requests.IsReadable(p)
    ensures NarrowText(p) == GivenText(p) <==> !IsStale(p)
    ensures IsStale(p) ==> GivenText(p) == "" && NarrowText(p) == p.data[..FirstNul(p.data)] != ""
  {
    assert p.data[0..] == p.data;
  }

  /** Without a NUL in the buffer, a length of 0 reads past it, like a text that is to end with one. */
  lemma {:induction false} EmptyReadsOn(p: Param)
    requires p.Narrow? && (p.octets.Count? ==> p.octets.n <= |p.data|)
    ensures !Requests.IsReadable(p) <==> (p.octets.UpToNul? || p.octets.n == 0) && '\0' !in p.data
  {
  }

  /** The length check of a string: of the octets of a narrow one, and the characters of a wide one. */
  lemma {:induction false} TooLongIff(p: Param)
    requires Requests.IsReadable(p)
    ensures IsTooLong(p) <==> (p.Narrow? && |GivenText(p)| > p.size) || (p.Wide? && p.chars > p.size)
  {
  }

  /** The length check holds of what is given, and so of what is sent unless a longer text is stale. */
  lemma {:induction false} LengthIsChecked(p: Param)
    requires p.Narrow? && Requests.IsReadable(p)
    ensures IsTooLong(p) <==> |GivenText(p)| > p.size
    ensures !IsTooLong(p) ==> (|NarrowText(p)| > p.size <==> IsStale(p) && FirstNul(p.data) > p.size)
  {
    assert p.data[0..] == p.data;
  }

  /** An empty KEYWORD of size 1 in front of an old value: `abc` is sent, unchecked. */
  lemma {:induction false} StaleKeyword()
    ensures var p := Narrow("KEYWORD", 1, "abc\0", Count(0));
            && Requests.IsReadable(p) && !IsTooLong(p)
            && GivenText(p) == "" && NarrowText(p) == "abc" && |NarrowText(p)| > p.size
  {
    assert "abc\0"[0..] == "abc\0" && "abc\0"[..3] == "abc";
    FirstNulAt("abc\0", 3);
  }

  // ---- the values and the statement -----------------------------------------------------------

  function ParamValue(p: Param): JsonValue
    requires Requests.IsReadable(p)
  {
    match p
    case Null(_) => JsonValue.Null
    case Boolean(_, truth) => Bool(truth)
    case Narrow(_, _, _, _) => Str(Codes(GivenText(p)))
    case Wide(_, _, _, utf8) => Str(Codes(utf8))
  }

  lemma {:induction false} CodesDiffer(a: string, b: string)
    ensures Codes(a) == Codes(b) <==> a == b
  {
    if Codes(a) == Codes(b) {
      assert |a| == |Codes(a)| && |b| == |Codes(b)|;
      forall i | 0 <= i < |a|
        ensures a[i] == b[i]
      {
        assert Codes(a)[i] == a[i] as int && Codes(b)[i] == b[i] as int;
      }
    }
  }

  lemma {:induction false} NotStale(p: Param)
    requires !p.Narrow?
    ensures !IsStale(p)
  {
  }

  lemma {:induction false} ValueAsGiven(p: Param)
    requires Requests.IsReadable(p)
    ensures SentValue(p) == ParamValue(p) <==> !IsStale(p)
  {
    hide Codes, NarrowText, IsStale, Requests.IsReadable;
    if p.Narrow? {
      SentAsGiven(p);
      CodesDiffer(NarrowText(p), GivenText(p));
    } else {
      NotStale(p);
    }
  }

  function ParamObject(p: Param): JsonValue
    requires Requests.IsReadable(p)
  {
    Obj([Named("type", Str(Codes(p.typeName))), Named("value", ParamValue(p))])
  }

  lemma {:induction false} ObjectAsGiven(p: Param)
    requires Requests.IsReadable(p)
    ensures SentObject(p) == ParamObject(p) <==> !IsStale(p)
  {
    ValueAsGiven(p);
    hide Codes, SentValue, ParamValue, IsStale, Requests.IsReadable;
    var sent, given := SentObject(p), ParamObject(p);
    assert sent == given ==> sent.members[1] == given.members[1];
  }

  function ParamObjects(params: seq<Param>, longestType: string): (objects: seq<JsonValue>)
    requires AreSound(params, longestType)
  {
    seq(|params|, i requires 0 <= i < |params| => ParamObject(params[i]))
  }

  lemma {:induction false} ObjectsAsGiven(params: seq<Param>, longestType: string)
    requires AreSound(params, longestType)
    ensures SentObjects(params, longestType) == ParamObjects(params, longestType)
       <==> forall i :: 0 <= i < |params| ==> !IsStale(params[i])
  {
    hide SentObject, ParamObject, IsStale, IsPlain, Requests.IsReadable;
    var sent, given := SentObjects(params, longestType), ParamObjects(params, longestType);
    forall i | 0 <= i < |params|
      ensures sent[i] == given[i] <==> !IsStale(params[i])
    {
      ObjectAsGiven(params[i]);
    }
  }

  function ParamsMeaning(r: Request): seq<Member>
    requires IsSoundRequest(r)
  {
    if r.params == [] then [] else [Named("params", Arr(ParamObjects(r.params, r.longestType)))]
  }

  lemma {:induction false} ParamsAsGiven(r: Request)
    requires IsSoundRequest(r)
    ensures |SentParams(r)| == |ParamsMeaning(r)|
    ensures SentParams(r) == ParamsMeaning(r) <==> forall i :: 0 <= i < |r.params| ==> !IsStale(r.params[i])
  {
    hide SentObjects, ParamObjects, IsStale, Codes, IsPlain, Requests.IsReadable;
    ObjectsAsGiven(r.params, r.longestType);
    if r.params != [] {
      assert SentParams(r)[0].value == Arr(SentObjects(r.params, r.longestType));
      assert ParamsMeaning(r)[0].value == Arr(ParamObjects(r.params, r.longestType));
    }
  }

  /** The statement as it was given. */
  function GivenSql(r: Request): string
    requires IsSoundRequest(r)
  {
    r.sql[..r.sqlCnt]
  }

  predicate IsStaleSql(r: Request) {
    r.sqlCnt == 0 && r.sql != "" && r.sql[0] != '\0'
  }

  lemma {:induction false} SqlAsGiven(r: Request)
    requires IsSoundRequest(r)
    ensures Sql(r) == GivenSql(r) <==> !IsStaleSql(r)
  {
    hide AreSound, IsPlain;
    assert r.sql[0..] == r.sql;
  }

  /** The object that was meant: the statement and the values of its parameters as they were given. */
  function Meaning(r: Request): seq<Member>
    requires IsSoundRequest(r) && IsLegible(r)
  {
    if r.cursor != "" then [Named("cursor", Str(Codes(r.cursor)))] + CLOSING_MEANING
    else
      [Named("query", Str(Codes(GivenSql(r))))]
      + (ParamsMeaning(r)
         + (FetchMeaning(r)
            + (FlagsMeaning(r)
               + (CatalogMeaning(r) + ([Named("version", Str(Codes(r.version)))] + CLOSING_MEANING)))))
  }

  /** Nothing stale is sent: no empty string is in front of what is left in its buffer. */
  ghost predicate NothingStale(r: Request) {
    r.cursor != "" || (!IsStaleSql(r) && forall i :: 0 <= i < |r.params| ==> !IsStale(r.params[i]))
  }

  lemma {:induction false} ListsDiffer<T>(a: T, b: T, x: seq<T>, y: seq<T>, rest: seq<T>)
    requires |x| == |y|
    ensures [a] + (x + rest) == [b] + (y + rest) <==> a == b && x == y
  {
    var l, m := [a] + (x + rest), [b] + (y + rest);
    if l == m {
      assert l[0] == m[0];
      assert l[1..][..|x|] == x && m[1..][..|y|] == y;
    }
  }

  lemma {:induction false} MembersAsGiven(r: Request)
    requires IsSoundRequest(r) && IsLegible(r)
    ensures SentMembers(r) == Meaning(r) <==> NothingStale(r)
  {
    hide IsSoundRequest, IsLegible, SentParams, ParamsMeaning, FetchMeaning, FlagsMeaning, CatalogMeaning, Codes, Sql,
         GivenSql, IsStale, IsStaleSql;
    if r.cursor == "" {
      SqlAsGiven(r);
      CodesDiffer(Sql(r), GivenSql(r));
      ParamsAsGiven(r);
      ListsDiffer(Named("query", Str(Codes(Sql(r)))), Named("query", Str(Codes(GivenSql(r)))), SentParams(r),
                  ParamsMeaning(r),
                  FetchMeaning(r)
                  + (FlagsMeaning(r)
                     + (CatalogMeaning(r) + ([Named("version", Str(Codes(r.version)))] + CLOSING_MEANING))));
    }
  }

  /** The body that is written is, as a JSON text, the object that was meant - the statement and the values
      of its parameters as they were given - exactly if nothing stale is sent. */
  lemma {:induction false} BodyMeans(r: Request)
    requires IsSoundRequest(r) && IsLegible(r)
    ensures ReadValue(BodyText(r)) == Good(Obj(Meaning(r)), "") <==> NothingStale(r)
  {
    hide *;
    BodyReads(r);
    MembersAsGiven(r);
  }
}
