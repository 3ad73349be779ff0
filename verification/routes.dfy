/** The request handlers of `echoer/routes.py`, as functions from what the
    handler reads to how the request ends.  Flask's routing, the response
    objects' serialisation and logging are not modelled; JSON and XML
    serialisers that a handler calls on text are parameters. */
module Routes {
  import opened Wrappers
  import opened Json
  import opened Config
  import Xml
  import Soap
  import Echo
  import Rpc
  import Utf8
  import Markup
  import Assoc

  /** What a response carries, before serialisation. */
  datatype Payload = JsonPayload(json: Json) | XmlPayload(xml: Xml.Element) | TextPayload(text: string)

  /** How a request ends: a response the handler returns, the 404 of
      `abort(404)`, or an exception the handler does not catch, which Flask
      answers with its 500 error page. */
  datatype Outcome = Respond(status: nat, contentType: string, payload: Payload) | NotFound | Unhandled

  const JsonContent: string := "application/json"
  const XmlContent: string := "application/xml"
  const XmlUtf8Content: string := "application/xml; charset=utf-8"

  /** The decoded request data, when it is UTF-8. */
  function DecodedData(req: Echo.Request): Option<string> {
    match Utf8.Decode(req.data)
    case Success(text) => Some(text)
    case Failure(_) => None
  }

  /** The JSON response of the two REST handlers. */
  function RestResponse(req: Echo.Request, param: Option<string>): (r: Outcome)
    ensures r.Unhandled? <==> !Utf8.Valid(req.data)
    ensures r.Respond? <==> Utf8.Valid(req.data)
    ensures r.Respond? ==> r.status == 200 && r.contentType == JsonContent && r.payload.JsonPayload?
    ensures r.Respond? ==>
      && DecodedData(req).Some? && Echo.Echo(req, param, JString(DecodedData(req).value)).Success?
      && r.payload == JsonPayload(Echo.ToJson(Echo.Echo(req, param, JString(DecodedData(req).value)).value))
  {
    match DecodedData(req)
    case None => Unhandled
    case Some(text) =>
      match Echo.Echo(req, param, JString(text))
      case Failure(_) => Unhandled
      case Success(doc) => Respond(200, JsonContent, JsonPayload(Echo.ToJson(doc)))
  }

  /** The `request` member and the `op_result` member of an echoed JSON
      document. */
  function RequestOf(j: Json): Option<Json> { Field(j, "request") }
  function OpResultOf(j: Json): Option<Json> { Field(j, "op_result") }

  /** `rest()`: echo the request with the decoded data as the operation
      result and no URL parameter, which is echoed as the text "None". */
  function Rest(req: Echo.Request): (r: Outcome)
    ensures r.Unhandled? <==> !Utf8.Valid(req.data)
    ensures r.Respond? <==> Utf8.Valid(req.data)
    ensures r.Respond? ==>
      && r.status == 200 && r.contentType == JsonContent && r.payload.JsonPayload?
      && OpResultOf(r.payload.json).Some? && OpResultOf(r.payload.json).value.JString?
      && Utf8.Encode(OpResultOf(r.payload.json).value.s) == req.data
      && RequestOf(r.payload.json).Some?
      && Field(RequestOf(r.payload.json).value, "params") == Some(JString("None"))
    ensures r.Respond? ==>
      && DecodedData(req).Some? && Echo.Echo(req, None, JString(DecodedData(req).value)).Success?
      && r.payload == JsonPayload(Echo.ToJson(Echo.Echo(req, None, JString(DecodedData(req).value)).value))
  {
    var r := RestResponse(req, None);
    if r.Respond? then
      var text := DecodedData(req).value;
      Utf8.EncodeDecode(req.data);
      var doc := Echo.Echo(req, None, JString(text)).value;
      Echo.EchoJsonLayout(doc);
      Markup.EscapeNoneQuirk();
      r
    else r
  }

  /** `rest_param(param)`: as `rest`, with the URL parameter echoed
      escaped. */
  function RestParam(req: Echo.Request, param: string): (r: Outcome)
    ensures r.Unhandled? <==> !Utf8.Valid(req.data)
    ensures r.Respond? <==> Utf8.Valid(req.data)
    ensures r.Respond? ==>
      && r.status == 200 && r.contentType == JsonContent && r.payload.JsonPayload?
      && OpResultOf(r.payload.json).Some? && OpResultOf(r.payload.json).value.JString?
      && Utf8.Encode(OpResultOf(r.payload.json).value.s) == req.data
      && RequestOf(r.payload.json).Some?
      && Field(RequestOf(r.payload.json).value, "params") == Some(JString(Markup.EscapeText(param)))
    ensures r.Respond? ==>
      && DecodedData(req).Some? && Echo.Echo(req, Some(param), JString(DecodedData(req).value)).Success?
      && r.payload == JsonPayload(Echo.ToJson(Echo.Echo(req, Some(param), JString(DecodedData(req).value)).value))
  {
    var r := RestResponse(req, Some(param));
    if r.Respond? then
      var text := DecodedData(req).value;
      Utf8.EncodeDecode(req.data);
      var doc := Echo.Echo(req, Some(param), JString(text)).value;
      Echo.EchoJsonLayout(doc);
      r
    else r
  }

  /** Without a form, a REST response carries the request data twice: as
      the echoed body and as the operation result. */
  lemma RestEchoesBodyTwice(req: Echo.Request)
    requires Utf8.Valid(req.data) && |req.form| == 0
    ensures Rest(req).Respond?
    ensures Field(RequestOf(Rest(req).payload.json).value, "body") == OpResultOf(Rest(req).payload.json)
  {
    var doc := RestAnswer(req, None);
    assert Rest(req) == RestResponse(req, None);
    Echo.EchoJsonLayout(doc);
  }

  /** The document a REST handler answers with, when the data is UTF-8;
      without a form its body is the operation result's text. */
  lemma RestAnswer(req: Echo.Request, param: Option<string>) returns (doc: Echo.EchoDocument)
    requires Utf8.Valid(req.data)
    ensures RestResponse(req, param) == Respond(200, JsonContent, JsonPayload(Echo.ToJson(doc)))
    ensures |req.form| == 0 ==> doc.opResult.JString? && doc.body == Echo.Text(doc.opResult.s)
  {
    var text := DecodedData(req).value;
    doc := Echo.Echo(req, param, JString(text)).value;
    if |req.form| == 0 {
      Utf8.DecodeIffEncoding(req.data, doc.body.text);
    }
  }

  /** `wsdl()`: the WSDL document when the query names `wsdl` (with any
      value, or none), a 404 otherwise. */
  function Wsdl(c: Config, req: Echo.Request): (r: Outcome)
    ensures r.Respond? <==> Assoc.HasKey(req.args, "wsdl")
    ensures r.Respond? || r.NotFound?
    ensures r.Respond? ==> r.status == 200 && r.contentType == XmlContent && r.payload == XmlPayload(Soap.MakeWsdl(c))
                           && Soap.WellReferenced(r.payload.xml)
                           && Xml.Attr(r.payload.xml, "targetNamespace") == Some(SoapTns(c))
  {
    if Assoc.Lookup(req.args, "wsdl").Some? then
      Soap.WsdlWellReferenced(c);
      Soap.WsdlDefinitions(c);
      Respond(200, XmlContent, XmlPayload(Soap.MakeWsdl(c)))
    else NotFound
  }

  /** `echo_soap()`, given what `fromstring` made of the request data and
      the JSON serialiser.  A document that is not an echo request gets a
      `Client` fault with status 500; text that is not XML, or data that
      is not UTF-8, escapes the handler. */
  function EchoSoap(c: Config, req: Echo.Request, parsed: Option<Xml.Element>, dumps: Json -> string): (r: Outcome)
    ensures r.Unhandled? <==> parsed.None? || (Soap.ParseSoapEchoRequest(parsed).Success? && !Utf8.Valid(req.data))
    ensures r.NotFound? == false
    ensures Soap.ParseSoapEchoRequest(parsed).Failure? && parsed.Some? ==>
              r.Respond? && r.status == 500 && r.contentType == XmlContent && r.payload.XmlPayload?
              && Soap.FaultOf(r.payload.xml, SoapTns(c))
                 == Some(("Client", Soap.ParseSoapEchoRequest(parsed).error.message))
    ensures Soap.ParseSoapEchoRequest(parsed).Success? && r.Respond? ==>
              r.status == 200 && r.contentType == XmlUtf8Content && r.payload.XmlPayload?
              && Soap.ResponseText(r.payload.xml).Some?
    ensures Soap.ParseSoapEchoRequest(parsed).Success? && r.Respond? ==>
              var text := Soap.ParseSoapEchoRequest(parsed).value;
              && Echo.Echo(req, None, JString(text)).Success?
              && r.payload == XmlPayload(Soap.MakeResponseBody(c, dumps(Echo.ToJson(Echo.Echo(req, None, JString(text)).value))))
              && Soap.ResponseText(r.payload.xml) == Some(dumps(Echo.ToJson(Echo.Echo(req, None, JString(text)).value)))
  {
    match Soap.ParseSoapEchoRequest(parsed)
    case Failure(e) =>
      if e.XmlParseError? then Unhandled
      else
        Soap.FaultRoundTrip(c, "Client", e.message);
        Respond(500, XmlContent, XmlPayload(Soap.MakeFaultResponseBody(c, "Client", e.message)))
    case Success(text) =>
      match Echo.Echo(req, None, JString(text))
      case Failure(_) => Unhandled
      case Success(doc) =>
        var body := dumps(Echo.ToJson(doc));
        Soap.ResponseRoundTrip(c, body);
        Respond(200, XmlUtf8Content, XmlPayload(Soap.MakeResponseBody(c, body)))
  }

  /** End to end: for any envelope the parser accepts, a client that reads
      the response with a JSON parser inverting the serialiser finds the
      request's text as the operation result, and the URL parameter as
      "None". */
  lemma EchoSoapRoundTrip(c: Config, req: Echo.Request, parsed: Option<Xml.Element>, text: string,
                          dumps: Json -> string, loads: string -> Option<Json>)
    requires Soap.ParseSoapEchoRequest(parsed) == Success(text)
    requires Utf8.Valid(req.data)
    requires forall j :: loads(dumps(j)) == Some(j)
    ensures var r := EchoSoap(c, req, parsed, dumps);
            && r.Respond? && r.status == 200 && r.payload.XmlPayload?
            && Soap.ResponseText(r.payload.xml).Some?
            && loads(Soap.ResponseText(r.payload.xml).value).Some?
            && var j := loads(Soap.ResponseText(r.payload.xml).value).value;
            && Echo.Echo(req, None, JString(text)).Success?
            && j == Echo.ToJson(Echo.Echo(req, None, JString(text)).value)
            && OpResultOf(j) == Some(JString(text))
            && RequestOf(j).Some?
            && Field(RequestOf(j).value, "params") == Some(JString("None"))
  {
    var doc := Echo.Echo(req, None, JString(text)).value;
    var out := dumps(Echo.ToJson(doc));
    Soap.ResponseRoundTrip(c, out);
    assert loads(out) == Some(Echo.ToJson(doc));
    Echo.EchoJsonLayout(doc);
    Markup.EscapeNoneQuirk();
  }

  /** A client reading the fault of a rejected request finds the code
      `Client` and the parser's message. */
  lemma EchoSoapFault(c: Config, req: Echo.Request, envAttrs: seq<(string, string)>, dumps: Json -> string)
    ensures var parsed := Some(Xml.Element(Soap.EnvelopeTag, envAttrs, None, []));
            var r := EchoSoap(c, req, parsed, dumps);
            r.Respond? && r.status == 500
            && r.payload.XmlPayload?
            && Soap.FaultOf(r.payload.xml, SoapTns(c)) == Some(("Client", "Empty SOAP Body"))
  {
    var parsed := Some(Xml.Element(Soap.EnvelopeTag, envAttrs, None, []));
    assert Xml.Descendants(parsed.value) == [];
  }

  // ---------------------------------------------------------------------
  // JSON-RPC

  /** The name the one registered function is registered under. */
  const EchoMethod: string := "echo"

  /** A value Python can use as a dictionary key: not a list or a dict. */
  predicate Hashable(v: Json) {
    !v.JArray? && !v.JObject?
  }

  /** The method-not-found answer, with the request's id or null. */
  function MethodNotFoundAnswer(request: Json): Outcome {
    Respond(200, JsonContent, JsonPayload(Rpc.MethodNotFound(Field(request, "id").GetOr(JNull))))
  }

  /** `rpc_endpoint()` as written, given the value `get_json` returns and
      the parser `json.loads` (None where it raises).  The value must be a
      JSON string holding the request; the lookup of `method` in the
      registry decides the answer.  The one registered function is called
      with a keyword it does not accept, so a call to it always raises; a
      body that does not parse has its error response built and dropped,
      after which the handler fails on the missing response body. */
  function RpcEndpoint(body: Json, loads: string -> Option<Json>): (r: Outcome)
    ensures r.NotFound? == false
    ensures r.Respond? <==>
      && body.JString? && loads(body.s).Some? && loads(body.s).value.JObject?
      && (var name := Field(loads(body.s).value, "method");
          name.None? || (Hashable(name.value) && name.value != JString(EchoMethod)))
    ensures r.Respond? ==> r == MethodNotFoundAnswer(loads(body.s).value)
  {
    if !body.JString? then Unhandled
    else
      match loads(body.s)
      case None => Unhandled
      case Some(request) =>
        if !request.JObject? then Unhandled
        else
          match Field(request, "method")
          case None => MethodNotFoundAnswer(request)
          case Some(name) =>
            if !Hashable(name) then Unhandled
            else if name == JString(EchoMethod) then Unhandled
            else MethodNotFoundAnswer(request)
  }

  /** As written, the endpoint never returns a result: every response is
      the method-not-found error, a well-formed JSON-RPC 2.0 error response
      whenever the request's id is a valid id. */
  lemma RpcEndpointOnlyErrors(body: Json, loads: string -> Option<Json>)
    requires RpcEndpoint(body, loads).Respond?
    ensures var r := RpcEndpoint(body, loads);
            && r.payload.JsonPayload?
            && Rpc.ErrorOf(r.payload.json) == Some((Int(-32601), JString("Method not found")))
            && (Rpc.IsIdValue(Field(loads(body.s).value, "id").GetOr(JNull)) ==> Rpc.IsErrorResponse(r.payload.json))
            && Field(r.payload.json, "result").None?
  {
    var request := loads(body.s).value;
    var id := Field(request, "id").GetOr(JNull);
    Rpc.MethodNotFoundConforms(id);
    var top := Rpc.MethodNotFound(id).members;
    assert !Assoc.HasKey(top, "result");
  }

  /** As written, a call of `echo` that the request schema accepts is not
      answered: the handler raises. */
  lemma EchoCallFails(body: Json, loads: string -> Option<Json>)
    requires body.JString? && loads(body.s).Some?
    requires Rpc.IsEchoRequest(loads(body.s).value)
    requires Field(loads(body.s).value, "method") == Some(JString(EchoMethod))
    ensures RpcEndpoint(body, loads) == Unhandled
  {
  }

  /** As written, a body whose text is not JSON is not answered with the
      400 response the handler builds for it. */
  lemma UndecodableBodyFails(text: string, loads: string -> Option<Json>)
    requires loads(text).None?
    ensures RpcEndpoint(JString(text), loads) == Unhandled
  {
  }

  const InvalidStructureMessage: string := "invalid JSON-RPC request structure"

  /** `rpc_endpoint()` as evidently intended: the registered function is
      called with `op_res`, so `echo` runs with the request as its
      operation result, and the 400 response for a body that is not JSON is
      returned.  `echo` failing on data that is not UTF-8 raises a
      `ValueError`, answered with the invalid-request envelope; a request
      without an id fails the lookup of `id` with a `KeyError`, answered
      with the method-not-found envelope. */
  function RpcEndpointIntended(req: Echo.Request, body: Json, loads: string -> Option<Json>): (r: Outcome)
    ensures r.NotFound? == false
    ensures body.JString? && loads(body.s).None? ==> r == Respond(400, "text/html; charset=utf-8", TextPayload(InvalidStructureMessage))
    ensures r.Respond? && r.payload.JsonPayload? ==>
      body.JString? && loads(body.s).Some? && loads(body.s).value.JObject?
      && (Rpc.ErrorOf(r.payload.json).Some? || Field(r.payload.json, "result").Some?)
  {
    if !body.JString? then Unhandled
    else
      match loads(body.s)
      case None => Respond(400, "text/html; charset=utf-8", TextPayload(InvalidStructureMessage))
      case Some(request) =>
        if !request.JObject? then Unhandled
        else
          match Field(request, "method")
          case None => Rpc.MethodNotFoundConforms(Field(request, "id").GetOr(JNull)); MethodNotFoundAnswer(request)
          case Some(name) =>
            if !Hashable(name) then Unhandled
            else if name == JString(EchoMethod) then
              match Echo.Echo(req, None, request)
              case Failure(_) =>
                var id := Field(request, "id").GetOr(JNull);
                Rpc.InvalidRequestShape(id);
                Respond(200, JsonContent, JsonPayload(Rpc.InvalidRequest(id)))
              case Success(doc) =>
                match Field(request, "id")
                case None => Rpc.MethodNotFoundConforms(Field(request, "id").GetOr(JNull)); MethodNotFoundAnswer(request)
                case Some(id) =>
                  Rpc.ResultResponseConforms(Echo.ToJson(doc), id);
                  Respond(200, JsonContent, JsonPayload(Rpc.ResultResponse(Echo.ToJson(doc), id)))
            else Rpc.MethodNotFoundConforms(Field(request, "id").GetOr(JNull)); MethodNotFoundAnswer(request)
  }

  /** As intended, a call of `echo` that the request schema accepts, on a
      request whose data is UTF-8, is answered with a JSON-RPC 2.0 success
      response whose result echoes the request, the call itself as the
      operation result, and whose id is the call's id. */
  lemma IntendedEchoCallAnswers(req: Echo.Request, body: Json, loads: string -> Option<Json>)
    requires body.JString? && loads(body.s).Some?
    requires Rpc.IsEchoRequest(loads(body.s).value)
    requires Field(loads(body.s).value, "method") == Some(JString(EchoMethod))
    requires Utf8.Valid(req.data)
    ensures var r := RpcEndpointIntended(req, body, loads);
            && r.Respond? && r.status == 200 && r.payload.JsonPayload?
            && Rpc.IsResultResponse(r.payload.json)
            && Echo.Echo(req, None, loads(body.s).value).Success?
            && Field(r.payload.json, "result") == Some(Echo.ToJson(Echo.Echo(req, None, loads(body.s).value).value))
            && OpResultOf(Field(r.payload.json, "result").value) == Some(loads(body.s).value)
            && Field(r.payload.json, "id") == Field(loads(body.s).value, "id")
  {
    var request := loads(body.s).value;
    EchoRequestId(request);
    var id := Field(request, "id").value;
    var doc := Echo.Echo(req, None, request).value;
    var r := RpcEndpointIntended(req, body, loads);
    assert r == Respond(200, JsonContent, JsonPayload(Rpc.ResultResponse(Echo.ToJson(doc), id)));
    Rpc.ResultResponseConforms(Echo.ToJson(doc), id);
    Echo.EchoJsonLayout(doc);
  }

  /** An echo request carries an id that JSON-RPC 2.0 allows. */
  lemma EchoRequestId(request: Json)
    requires Rpc.IsEchoRequest(request)
    ensures Field(request, "id").Some? && Rpc.IsIdValue(Field(request, "id").value)
  {
    var id := Field(request, "id").value;
    var k :| 0 <= k < |request.members| && request.members[k] == ("id", id)
             && forall j :: 0 <= j < k ==> request.members[j].0 != "id";
    assert Rpc.RequestMember(request.members[k].0, request.members[k].1);
  }

  /** As intended, a body whose text is not JSON gets the 400 response. */
  lemma UndecodableBodyRejected(req: Echo.Request, text: string, loads: string -> Option<Json>)
    requires loads(text).None?
    ensures RpcEndpointIntended(req, JString(text), loads).Respond?
    ensures RpcEndpointIntended(req, JString(text), loads).status == 400
  {
  }
}
