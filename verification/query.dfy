/** The query string of the single search request (src/main.rs, lines 104-114). */
module Query {
  import opened Wrappers

  /** One `name=value` pair of the request's query string, in the order the
      request builder appends them. */
  datatype Param = Param(name: string, value: string)

  /** The value of the first parameter called `name`, as a server reading the
      query string would find it. */
  function Lookup(params: seq<Param>, name: string): (v: Option<string>)
    ensures v.Some? <==> exists i :: 0 <= i < |params| && params[i].name == name
    ensures v.Some? ==> exists i :: 0 <= i < |params| && params[i] == Param(name, v.value)
    decreases |params|
  {
    if |params| == 0 then None
    else if params[0].name == name then Some(params[0].value)
    else
      var v := Lookup(params[1..], name);
      assert forall i :: 0 < i < |params| ==> params[i] == params[1..][i - 1];
      v
  }

  /** The parameters sent to the search endpoint: the API key, the engine id
      and the query text first, then `fileType` when a file type was given and
      `siteSearch` when a domain was given. */
  function SearchParams(apiKey: string, engineId: string, query: string,
                        filetype: Option<string>, domain: Option<string>): (ps: seq<Param>)
    ensures |ps| == 3 + (if filetype.Some? then 1 else 0) + (if domain.Some? then 1 else 0)
    ensures ps[..3] == [Param("key", apiKey), Param("cx", engineId), Param("q", query)]
    ensures filetype.Some? ==> ps[3] == Param("fileType", filetype.value)
    ensures domain.Some? ==> ps[|ps| - 1] == Param("siteSearch", domain.value)
  {
    [Param("key", apiKey), Param("cx", engineId), Param("q", query)]
      + OptionalParam("fileType", filetype)
      + OptionalParam("siteSearch", domain)
  }

  /** Reading the request back: every parameter carries exactly the value the
      caller supplied, and the optional ones are present iff they were given. */
  lemma {:induction false} SearchParamsLookup(apiKey: string, engineId: string, query: string,
                                              filetype: Option<string>, domain: Option<string>)
    ensures var ps := SearchParams(apiKey, engineId, query, filetype, domain);
      && Lookup(ps, "key") == Some(apiKey)
      && Lookup(ps, "cx") == Some(engineId)
      && Lookup(ps, "q") == Some(query)
      && Lookup(ps, "fileType") == filetype
      && Lookup(ps, "siteSearch") == domain
  {
    var base := [Param("key", apiKey), Param("cx", engineId), Param("q", query)];
    var typePart := OptionalParam("fileType", filetype);
    var sitePart := OptionalParam("siteSearch", domain);
    var ps := SearchParams(apiKey, engineId, query, filetype, domain);
    LookupBase(apiKey, engineId, query);
    OptionalParamLookup("fileType", filetype);
    OptionalParamLookup("siteSearch", domain);
    LookupAppend3(base, typePart, sitePart, "key");
    LookupAppend3(base, typePart, sitePart, "cx");
    LookupAppend3(base, typePart, sitePart, "q");
    LookupAppend3(base, typePart, sitePart, "fileType");
    LookupAppend3(base, typePart, sitePart, "siteSearch");
  }

  /** `LookupAppend` for three lists. */
  lemma LookupAppend3(a: seq<Param>, b: seq<Param>, c: seq<Param>, name: string)
    ensures Lookup(a + b + c, name) == (if Lookup(a, name).Some? then Lookup(a, name)
                                        else if Lookup(b, name).Some? then Lookup(b, name)
                                        else Lookup(c, name))
  {
    LookupAppend(a + b, c, name);
    LookupAppend(a, b, name);
  }

  /** The list, empty or of one element, that an optional argument contributes. */
  function OptionalParam(name: string, arg: Option<string>): seq<Param>
  {
    if arg.Some? then [Param(name, arg.value)] else []
  }

  /** An optional parameter is found under its own name exactly when the
      argument was given, and never under another name. */
  lemma OptionalParamLookup(name: string, arg: Option<string>)
    ensures Lookup(OptionalParam(name, arg), name) == arg
    ensures forall n :: n != name ==> Lookup(OptionalParam(name, arg), n) == None
  {
  }

  /** The three fixed parameters answer for their own names only. */
  lemma LookupBase(apiKey: string, engineId: string, query: string)
    ensures var base := [Param("key", apiKey), Param("cx", engineId), Param("q", query)];
      && Lookup(base, "key") == Some(apiKey)
      && Lookup(base, "cx") == Some(engineId)
      && Lookup(base, "q") == Some(query)
      && Lookup(base, "fileType") == None
      && Lookup(base, "siteSearch") == None
  {
    var base := [Param("key", apiKey), Param("cx", engineId), Param("q", query)];
    assert base[1..] == [Param("cx", engineId), Param("q", query)];
    assert base[1..][1..] == [Param("q", query)];
    assert base[1..][1..][1..] == [];
    assert Lookup(base[1..][1..][1..], "q") == None;
    assert Lookup(base[1..][1..], "q") == Some(query);
    assert Lookup(base[1..][1..], "fileType") == None;
    assert Lookup(base[1..][1..], "siteSearch") == None;
  }

  /** No two parameters of the request share a name. */
  lemma SearchParamsDistinctNames(apiKey: string, engineId: string, query: string,
                                  filetype: Option<string>, domain: Option<string>)
    ensures var ps := SearchParams(apiKey, engineId, query, filetype, domain);
      forall i, j :: 0 <= i < j < |ps| ==> ps[i].name != ps[j].name
  {
  }

  /** Looking a name up in two concatenated lists finds it in the first list
      when it is there, and in the second one otherwise. */
  lemma {:induction false} LookupAppend(a: seq<Param>, b: seq<Param>, name: string)
    ensures Lookup(a + b, name) == (if Lookup(a, name).Some? then Lookup(a, name) else Lookup(b, name))
    decreases |a|
  {
    if |a| > 0 {
      assert (a + b)[1..] == a[1..] + b;
      LookupAppend(a[1..], b, name);
    } else {
      assert a + b == b;
    }
  }
}
