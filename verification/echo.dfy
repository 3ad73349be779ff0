/** `echo` of `echoer/_funcs.py`: the record of a request that every
    endpoint sends back, and the JSON `json.dumps` writes for it. */
module Echo {
  import opened Wrappers
  import opened Json
  import Assoc
  import Utf8
  import Markup

  /** The parts of a Flask request that `echo` reads.  The query string,
      the headers and the form keep every entry in order, repeats
      included; `environ` holds whatever values the server put there. */
  datatype Request = Request(
    remoteAddr: Option<string>,
    environ: seq<(string, Json)>,
    verb: string,
    path: string,
    args: seq<(string, string)>,
    headers: seq<(string, string)>,
    form: seq<(string, string)>,
    data: seq<Utf8.byte>)

  /** The `body` entry: the decoded request data, or the form's pairs. */
  datatype Body = Text(text: string) | FormPairs(pairs: seq<(string, string)>)

  /** The dictionary `echo` returns.  `queryParam` is the query multi-dict
      itself, as `echo` stores it; `headers` holds one (name, value) entry
      per header. */
  datatype EchoDocument = EchoDocument(
    clientHost: Option<string>,
    clientPort: Json,
    verb: string,
    path: string,
    protocol: Json,
    params: string,
    queryParam: seq<(string, string)>,
    headers: seq<(string, string)>,
    body: Body,
    opResult: Json)

  /** `environ.get(key)`, with `None` as JSON null. */
  function EnvironGet(environ: seq<(string, Json)>, key: string): (v: Json)
    ensures !Assoc.HasKey(environ, key) ==> v == JNull
    ensures Assoc.HasKey(environ, key) ==> exists i :: 0 <= i < |environ| && environ[i] == (key, v)
  {
    match Assoc.Lookup(environ, key)
    case None => JNull
    case Some(v) => v
  }

  /** `[{h: req.headers[h]} for h in req.headers.keys()]`: one entry per
      header, each carrying the value of the first header of that name. */
  function EchoHeaders(headers: seq<(string, string)>): (r: seq<(string, string)>)
    ensures |r| == |headers|
    ensures forall i :: 0 <= i < |r| ==> r[i].0 == headers[i].0 && Assoc.Lookup(headers, headers[i].0) == Some(r[i].1)
  {
    seq(|headers|, i requires 0 <= i < |headers| =>
      assert Assoc.HasKey(headers, headers[i].0);
      (headers[i].0, Assoc.Lookup(headers, headers[i].0).value))
  }

  /** `echo(req, req_param, op_res)`.  The request data is decoded as UTF-8
      first, whether or not a form replaces it as the body, so data that is
      not UTF-8 makes the call fail with the position of the first bad
      sequence.  `op_res` is passed through as a JSON value, null for
      `None`. */
  function Echo(req: Request, reqParam: Option<string>, opRes: Json): (r: Result<EchoDocument, Utf8.DecodeError>)
    ensures r.Failure? <==> !Utf8.Valid(req.data)
    ensures r.Failure? ==> r.error.position < |req.data| && Utf8.Valid(req.data[..r.error.position])
    ensures r.Success? ==>
      && r.value.params == Markup.Escape(reqParam)
      && r.value.opResult == opRes
      && r.value.clientHost == req.remoteAddr
      && r.value.clientPort == EnvironGet(req.environ, "REMOTE_PORT")
      && r.value.verb == req.verb
      && r.value.path == req.path
      && r.value.protocol == EnvironGet(req.environ, "SERVER_PROTOCOL")
      && r.value.queryParam == req.args
      && (|req.form| > 0 ==> r.value.body == FormPairs(Assoc.FirstValues(req.form)))
      && (|req.form| == 0 ==> r.value.body.Text? && Utf8.Encode(r.value.body.text) == req.data)
      && |r.value.headers| == |req.headers|
      && forall i :: 0 <= i < |req.headers| ==>
           r.value.headers[i].0 == req.headers[i].0
           && Assoc.Lookup(req.headers, req.headers[i].0) == Some(r.value.headers[i].1)
  {
    match Utf8.Decode(req.data)
    case Failure(e) =>
      Utf8.DecodeFailurePrefix(req.data);
      Failure(e)
    case Success(text) =>
      Utf8.EncodeDecode(req.data);
      var body := if |req.form| > 0 then FormPairs(Assoc.FirstValues(req.form)) else Text(text);
      Success(EchoDocument(
        req.remoteAddr, EnvironGet(req.environ, "REMOTE_PORT"),
        req.verb, req.path, EnvironGet(req.environ, "SERVER_PROTOCOL"),
        Markup.Escape(reqParam), req.args, EchoHeaders(req.headers), body, opRes))
  }

  /** When no two headers share a name, which is how the WSGI environment
      presents them, every header is echoed with its own value. */
  lemma EchoHeadersDistinct(headers: seq<(string, string)>)
    requires Assoc.DistinctKeys(headers)
    ensures EchoHeaders(headers) == headers
  {
    forall i | 0 <= i < |headers| ensures EchoHeaders(headers)[i] == headers[i] {
      Assoc.LookupDistinct(headers, i);
    }
  }

  /** A repeated header is echoed once per occurrence, each time with the
      first occurrence's value. */
  lemma EchoHeadersRepeated(name: string, first: string, second: string)
    ensures EchoHeaders([(name, first), (name, second)]) == [(name, first), (name, first)]
  {
  }

  /** An object of string members, in order. */
  function StringMembers(pairs: seq<(string, string)>): (r: seq<(string, Json)>)
    ensures |r| == |pairs|
    ensures forall i :: 0 <= i < |r| ==> r[i] == (pairs[i].0, JString(pairs[i].1))
  {
    seq(|pairs|, i requires 0 <= i < |pairs| => (pairs[i].0, JString(pairs[i].1)))
  }

  lemma {:induction false} LookupStringMembers(pairs: seq<(string, string)>, key: string)
    ensures Assoc.Lookup(StringMembers(pairs), key)
            == if Assoc.Lookup(pairs, key).Some? then Some(JString(Assoc.Lookup(pairs, key).value)) else None
  {
    if |pairs| > 0 {
      assert StringMembers(pairs)[1..] == StringMembers(pairs[1..]);
      LookupStringMembers(pairs[1..], key);
    }
  }

  /** The JSON of the `body` entry: a string, or a list of two-element
      lists for the form's pairs. */
  function BodyJson(b: Body): Json {
    match b
    case Text(t) => JString(t)
    case FormPairs(ps) => JArray(seq(|ps|, i requires 0 <= i < |ps| => JArray([JString(ps[i].0), JString(ps[i].1)])))
  }

  function ClientJson(doc: EchoDocument): Json {
    JObject([("host", StringOrNull(doc.clientHost)), ("port", doc.clientPort)])
  }

  function HttpJson(doc: EchoDocument): Json {
    JObject([("method", JString(doc.verb)), ("path", JString(doc.path)), ("protocol", doc.protocol)])
  }

  /** The query multi-dict as `json.dumps` writes it: one member per key,
      carrying the key's first value. */
  function QueryJson(args: seq<(string, string)>): Json {
    JObject(StringMembers(Assoc.FirstValues(args)))
  }

  function HeadersJson(headers: seq<(string, string)>): Json {
    JArray(seq(|headers|, i requires 0 <= i < |headers| => JObject([(headers[i].0, JString(headers[i].1))])))
  }

  function RequestJson(doc: EchoDocument): Json {
    JObject([("http", HttpJson(doc)),
             ("params", JString(doc.params)),
             ("query_param", QueryJson(doc.queryParam)),
             ("headers", HeadersJson(doc.headers)),
             ("body", BodyJson(doc.body))])
  }

  /** The JSON value `json.dumps` writes for an echo document. */
  function ToJson(doc: EchoDocument): Json {
    JObject([("client", ClientJson(doc)), ("request", RequestJson(doc)), ("op_result", doc.opResult)])
  }

  /** The echoed JSON has the documented layout: `client`, `request` and
      `op_result` at the top, `host` and `port` under `client`, `http`,
      `params`, `query_param`, `headers` and `body` under `request`, and
      `method`, `path` and `protocol` under `http`; and a client reads back the parameter,
      the operation result and the body from it. */
  lemma EchoJsonLayout(doc: EchoDocument)
    ensures KeysOf(ToJson(doc)) == ["client", "request", "op_result"]
    ensures KeysOf(RequestJson(doc)) == ["http", "params", "query_param", "headers", "body"]
    ensures Field(ToJson(doc), "request") == Some(RequestJson(doc))
    ensures Field(ToJson(doc), "op_result") == Some(doc.opResult)
    ensures Field(RequestJson(doc), "params") == Some(JString(doc.params))
    ensures Field(RequestJson(doc), "body") == Some(BodyJson(doc.body))
    ensures KeysOf(ClientJson(doc)) == ["host", "port"]
    ensures KeysOf(HttpJson(doc)) == ["method", "path", "protocol"]
  {
    ClientHttpLayout(doc);
    TopLayout(ClientJson(doc), RequestJson(doc), doc.opResult);
    RequestLayout(HttpJson(doc), JString(doc.params), QueryJson(doc.queryParam),
                  HeadersJson(doc.headers), BodyJson(doc.body));
  }

  /** The `client` member has keys `host` and `port`, and `http` has keys
      `method`, `path` and `protocol`; each reads back what the document
      holds. */
  lemma ClientHttpLayout(doc: EchoDocument)
    ensures KeysOf(ClientJson(doc)) == ["host", "port"]
    ensures Field(ClientJson(doc), "host") == Some(StringOrNull(doc.clientHost))
    ensures Field(ClientJson(doc), "port") == Some(doc.clientPort)
    ensures KeysOf(HttpJson(doc)) == ["method", "path", "protocol"]
    ensures Field(HttpJson(doc), "method") == Some(JString(doc.verb))
    ensures Field(HttpJson(doc), "path") == Some(JString(doc.path))
    ensures Field(HttpJson(doc), "protocol") == Some(doc.protocol)
  {
    Object2("host", StringOrNull(doc.clientHost), "port", doc.clientPort);
    Object3("method", JString(doc.verb), "path", JString(doc.path), "protocol", doc.protocol);
  }

  lemma TopLayout(client: Json, request: Json, opResult: Json)
    ensures var j := JObject([("client", client), ("request", request), ("op_result", opResult)]);
            && KeysOf(j) == ["client", "request", "op_result"]
            && Field(j, "request") == Some(request)
            && Field(j, "op_result") == Some(opResult)
  {
    var top := [("client", client), ("request", request), ("op_result", opResult)];
    assert Assoc.DistinctKeys(top);
    Assoc.LookupDistinct(top, 1);
    Assoc.LookupDistinct(top, 2);
  }

  lemma RequestLayout(http: Json, params: Json, query: Json, headers: Json, body: Json)
    ensures var j := JObject([("http", http), ("params", params), ("query_param", query),
                              ("headers", headers), ("body", body)]);
            && KeysOf(j) == ["http", "params", "query_param", "headers", "body"]
            && Field(j, "params") == Some(params)
            && Field(j, "body") == Some(body)
  {
    var req := [("http", http), ("params", params), ("query_param", query), ("headers", headers), ("body", body)];
    assert Assoc.DistinctKeys(req);
    Assoc.LookupDistinct(req, 1);
    Assoc.LookupDistinct(req, 4);
  }

  /** Every query key appears once in the echoed `query_param`, with its
      first value; keys that are not in the query are absent. */
  lemma QueryJsonLookup(args: seq<(string, string)>, key: string)
    ensures Field(QueryJson(args), key)
            == if Assoc.Lookup(args, key).Some? then Some(JString(Assoc.Lookup(args, key).value)) else None
    ensures Assoc.DistinctKeys(QueryJson(args).members)
  {
    var fv := Assoc.FirstValues(args);
    LookupStringMembers(fv, key);
    assert Assoc.DistinctKeys(fv);
  }
}
