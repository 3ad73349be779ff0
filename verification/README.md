# echoer: a Dafny model of the echo service's core

echoer is a small Flask service. It answers REST, SOAP and JSON-RPC calls with a JSON "echo" of the request it received. This project models its core as pure Dafny functions over immutable values, and proves what each piece promises:

- **`echo`** (`Echo`). It builds the echo document from a request record. The request data is decoded as UTF-8 first, so bad bytes fail the call even when a form is present. The form's first values replace the body. Each header is echoed with the value of the first header of its name. The URL parameter goes through markupsafe escaping, with `None` rendered as `"None"`. The document is also given as the JSON value `json.dumps` writes.
- **The SOAP codec** (`Soap`, over the element trees of `Xml`):
  - the WSDL 1.1 document `make_wsdl` builds, with its helper builders;
  - the request parser and its three failure kinds;
  - the response and fault envelopes.
- **The JSON-RPC request check** (`Rpc`, over `Json` and `JsonSchema`). The draft-07 schema is interpreted and proved equal to a direct description of a JSON-RPC 2.0 echo request. The three stages of `parse_rpc_echo_request` (decode, parse, validate) are modelled, as are the two error envelopes of `rpc_endpoint`.
- **The handlers of `echoer/routes.py`** (`Routes`). Each is a function from what it reads to how the request ends: a response (status, content type, payload), a 404, or an exception the handler does not catch.
- **The configuration** (`Config`). The service address, the target namespace and the namespace map are functions of the host and port.

Supporting modules:
- `Utf8`: strict UTF-8 as section 4 of RFC 3629 defines it, with both round trips.
- `Markup`: the five-character HTML escaping and its inverse.
- `Assoc`: first-match lookup in pair lists. It models dict, MultiDict and Headers access.
- `Wrappers`: `Option` and `Result`.

How the model meets the outside world:
- **No text formats.** Nothing reads or writes XML or JSON text. `fromstring`'s result is an input: `None` means a `ParseError`. `json.loads` and `json.dumps` are function parameters.
- **No environment.** The host and port are arguments.
- **Clark-notation tags.** An element tag is a string, `{uri}local` or a bare local name, exactly as ElementTree stores it.

## Model

| member | source | states |
|---|---|---|
| Config.Load | echoer/config.py:7-8 | An unset HOST or PORT gives `0.0.0.0` or `5080`. A set variable is used as is, even when empty. |
| Config.NsMap | echoer/config.py:18-24 | The namespace map has exactly the prefixes wsdl, soap, xsd, tns and env. They are bound to the three WSDL/XSD URIs, the service's target namespace and the SOAP envelope URI. |
| Config.NsMapShape | echoer/config.py:12-24 | Only the `tns` binding depends on the host and port. Every other prefix maps to a fixed URI. |
| Config.ServiceAddressSplits | echoer/config.py:10 | `http://HOST:PORT` determines the host and the port: splitting it at its last colon gives both back, for a port without a colon. |
| Xml.ClarkRoundTrip | echoer/_utils.py:20 | A `{uri}name` tag is read back by ElementTree as namespace `uri` and local name `name`, for a URI without `}`. |
| Xml.ClarkSameUri | echoer/_utils.py:20 | Within one namespace, two qualified tags are equal exactly when their local names are. |
| Xml.FirstWithTag | echoer/_utils.py:229 | Gives nothing exactly when no element has the tag. Otherwise it gives an element with the tag, and no element before it has the tag. |
| Xml.Find | echoer/_utils.py:229 | `find(tag)` gives the first direct child with that exact tag: every child before it has another tag. It gives nothing exactly when no child has the tag. |
| Xml.FindDescendantAfter | echoer/_utils.py:225 | A `.//tag` search returns the first element with the tag when nothing before it in document order has the tag, whatever follows it or lies inside it. |
| Soap.Qname | echoer/_utils.py:10-20 | The qualified name built from a prefix is read back as that prefix's namespace and the given local name. |
| Soap.AddMessage | echoer/_utils.py:23-39 | The appended element is a `wsdl:message` with one child per parameter. |
| Soap.MessageRoundTrip | echoer/_utils.py:37-39 | A message declares its name. Each part is a `wsdl:part` whose `type` attribute is exactly `xsd:` followed by the parameter's type. The parts read back as exactly the (name, type) parameters the message was built from; a part without the `xsd:` prefix would not read at all. |
| Soap.AddOperation | echoer/_utils.py:42-61 | The appended element is a `wsdl:operation`. |
| Soap.OperationRoundTrip | echoer/_utils.py:59-61 | An abstract operation reads back as its name, its input message and its output message. The `message` attributes are exactly `tns:` followed by the message name; an unprefixed reference would not read. |
| Soap.BindOperation | echoer/_utils.py:64-79 | The appended element is a `wsdl:operation`. |
| Soap.BindOperationRoundTrip | echoer/_utils.py:74-79 | A bound operation reads back as its name and its SOAP action, with `literal` use on both its input and its output body. |
| Soap.MakeWsdl | echoer/_utils.py:127-128 | The root is `definitions` in the WSDL namespace. |
| Soap.WsdlDefinitions | echoer/_utils.py:127-136 | `targetNamespace` and `xmlns:tns` are the service's target namespace, and `xmlns:soap`, `xmlns:xsd` and `xmlns` are the fixed URIs. |
| Soap.WsdlLayout | echoer/_utils.py:139-201 | The root's children are, in order, types, two messages, portType, binding and service. |
| Soap.EchoMessage | echoer/_utils.py:141-150 | Each echo message is named after its argument and declares exactly one part of the same name, whose `type` attribute is `xsd:string`. |
| Soap.WsdlMessages | echoer/_utils.py:142-151 | The messages are `EchoRequest` and `EchoResponse`. Each has exactly one part, named like the message, whose `type` attribute is `xsd:string`. |
| Soap.SectionFinds | echoer/_utils.py:139-201 | In any document with that layout, `find` reaches the portType, the binding and the service. |
| Soap.WsdlFinds | echoer/_utils.py:154-201 | `find` on the generated root reaches each of those three sections. |
| Soap.PortTypeReads | echoer/_utils.py:154-165 | The port type is named `EchoPortType` and its operation is `Echo` from `EchoRequest` to `EchoResponse`. |
| Soap.BindingReads | echoer/_utils.py:168-184 | The binding is named `EchoBinding` and binds `tns:EchoPortType`. It holds the SOAP binding element and then the bound `Echo` operation. |
| Soap.ServiceReads | echoer/_utils.py:187-201 | The service's port uses `tns:EchoBinding` and its address is the endpoint address. |
| Soap.WsdlMessagesDeclared | echoer/_utils.py:142-165 | Both messages the port type's operation refers to, by `tns:`-qualified name, are declared in the document. |
| Soap.WsdlBindingMatches | echoer/_utils.py:154-201 | The binding's type names the port type. Its operation has the port type operation's name, and the port names the binding. |
| Soap.WsdlWellReferenced | echoer/_utils.py:127-201 | Every cross-reference inside the generated WSDL document resolves. Message, port type and binding references resolve only when written with the `tns:` prefix. |
| Soap.WsdlEndpoint | echoer/_utils.py:174-201 | The binding is document-style SOAP over HTTP. The SOAP action and the port location are both the service address plus `/echo/soap`, which equals the target namespace. |
| Soap.ParseSoapEchoRequest | echoer/_utils.py:206-234 | The three failures, each in both directions: unparsable XML gives a parse error that is not a `ValueError`; a missing or childless Body gives "Empty SOAP Body"; a Body with no child tagged exactly `EchoRequest` gives "Missing EchoRequest element". It succeeds exactly when the Body has a child tagged `EchoRequest`. The success is the text of the first such child, or "". |
| Soap.RequestEnvelopeRoundTrip | echoer/_utils.py:224-234 | A request envelope parses to its request's text, or "" when there is none. This holds whatever the envelope's attributes, the request's attributes and children, or the elements after the request. Elements before it need only other tags. |
| Soap.SimpleRequestRoundTrip | echoer/_utils.py:224-234 | An envelope whose Body holds just the request parses to exactly the text sent. |
| Soap.QualifiedRequestIsMissing | echoer/_utils.py:229-231 | An `EchoRequest` in any namespace is not the request. |
| Soap.MakeResponseBody | echoer/_utils.py:249-253 | The response root is the SOAP Envelope. It has exactly one child, the Body a client finds. The Body holds exactly one element, an unqualified `EchoResponse` carrying the response text. |
| Soap.ResponseRoundTrip | echoer/_utils.py:249-253 | A client finds the Body where it looks for it, and `find` on that Body returns the `EchoResponse`. The text read back is exactly the response text. |
| Soap.ResponseIsNotRequest | echoer/_utils.py:229-231 | A response envelope fed to the request parser is rejected for lacking `EchoRequest`. |
| Soap.MakeFaultResponseBody | echoer/_utils.py:281-282 | The fault response root is the SOAP Envelope. |
| Soap.FaultRoundTrip | echoer/_utils.py:281-287 | A client looking in the target namespace reads back exactly the fault code and message. A client looking in the envelope namespace, where SOAP 1.1 puts `Fault`, finds no fault. |
| Soap.FaultLayout | echoer/_utils.py:281-287 | The fault envelope holds one Body, which the client finds. The Body holds only the Fault, in the target namespace. The Fault holds exactly `faultcode` with the code, then `faultstring` with the message. |
| Utf8.Decode | echoer/_funcs.py:17 | On success, no more characters than bytes. On failure, an offset inside the data. |
| Utf8.DecodeErrorAt | echoer/_funcs.py:17 | No well-formed UTF-8 sequence starts at the offset a failed decoding reports. |
| Utf8.DecodeEncode | echoer/_funcs.py:17 | Every string survives encoding followed by strict decoding. |
| Utf8.EncodeDecode | echoer/_funcs.py:17 | The bytes that decode to a string are that string's encoding. |
| Utf8.DecodeIffEncoding | echoer/_funcs.py:17 | Decoding succeeds with `s` exactly when the bytes are the encoding of `s`. |
| Utf8.DecodeFailurePrefix | echoer/_funcs.py:17 | Everything before the reported error offset is valid UTF-8. |
| Markup.EscapeText | echoer/_funcs.py:31 | Escaped text is never shorter than the original and contains none of `<`, `>`, `"` or `'`. |
| Markup.UnescapeEscape | echoer/_funcs.py:31 | Escaping loses nothing: reading the entities back recovers the parameter. |
| Markup.EscapePlainText | echoer/_funcs.py:31 | A parameter without markup characters is echoed unchanged. |
| Markup.EscapeNoneQuirk | echoer/_funcs.py:31 | A missing parameter is echoed as `None`, the same as a parameter that is literally `None`. |
| Assoc.Lookup | echoer/_funcs.py:33 | A key is found exactly when some entry has it, and the value is that of its first entry. |
| Assoc.FirstValues | echoer/_funcs.py:19 | The form's items: keys are distinct, each key looks up its first value as in the form, and keys come in the order of their first appearance. A form without repeated keys gives its own pairs back. |
| Echo.EnvironGet | echoer/_funcs.py:23-28 | `environ.get(key)`: null when no entry has the key, and otherwise the value of an entry with that key. |
| Echo.Echo | echoer/_funcs.py:5-37 | Fails exactly when the data is not UTF-8, and then at a position before which the data is valid. On success: the parameter is escaped; the operation result, client host, method and path are copied; the client port and protocol are the environ's `REMOTE_PORT` and `SERVER_PROTOCOL`; the query is kept. A non-empty form gives its items as the body; otherwise the body is the text whose encoding is the data. There is one header entry per header, named like it, with its name's first value. |
| Echo.EchoHeaders | echoer/_funcs.py:33 | One entry per header, in order, each carrying the header's name and the first value of that name. |
| Echo.EchoHeadersDistinct | echoer/_funcs.py:33 | Headers with distinct names are echoed exactly as received. |
| Echo.EchoHeadersRepeated | echoer/_funcs.py:33 | A repeated header is echoed once per occurrence, each time with the first value. |
| Echo.EchoJsonLayout | echoer/_funcs.py:20-37 | The JSON has keys `client`, `request`, `op_result`. Under them, `client` has `host`, `port`; `request` has `http`, `params`, `query_param`, `headers`, `body`; `http` has `method`, `path`, `protocol`. A client reads back the parameter, the body and the operation result. |
| Echo.ClientHttpLayout | echoer/_funcs.py:21-30 | The `client` and `http` members have exactly their documented keys, in order, and a client reads back the host, port, method, path and protocol from them. |
| Echo.QueryJsonLookup | echoer/_funcs.py:32 | The dumped query has one member per key, carrying that key's first value. Keys absent from the query are absent. |
| Rpc.JsonrpcPropertyMeaning | echoer/_utils.py:298 | The `jsonrpc` schema accepts exactly the string `2.0`. |
| Rpc.MethodPropertyMeaning | echoer/_utils.py:299 | The `method` schema accepts exactly the non-empty strings. |
| Rpc.ParamsPropertyMeaning | echoer/_utils.py:300-341 | The `params` schema accepts exactly the arrays, whatever their items. |
| Rpc.ParamItemAcceptsAll | echoer/_utils.py:303-339 | The item schema of `params` accepts every JSON value. |
| Rpc.AnyJsonAcceptsAll | echoer/_utils.py:308-315 | The any-type alternative accepts every JSON value. |
| Rpc.IdPropertyMeaning | echoer/_utils.py:342 | The `id` schema accepts exactly integral numbers, strings and null. |
| Rpc.RequiredMeaning | echoer/_utils.py:295 | On an object, the `required` keyword holds exactly when all four members are present. |
| Rpc.NoAdditionalMeaning | echoer/_utils.py:296 | On an object, `additionalProperties: false` holds exactly when every key is one of the four. |
| Rpc.PropertiesMeaning | echoer/_utils.py:297-343 | On an object, `properties` holds exactly when every declared member's value is as the request shape demands. |
| Rpc.DeclaredRequestKeys | echoer/_utils.py:297-343 | The declared properties are exactly jsonrpc, method, params and id. |
| Rpc.RequestSchemaMeaning | echoer/_utils.py:292-344 | The schema accepts exactly a JSON-RPC 2.0 echo request: an object with exactly those four members, of the shapes above. |
| Rpc.ParseRpcEchoRequest | echoer/_utils.py:347-363 | A decode error exactly when the body is not UTF-8. For UTF-8 bodies: a JSON error exactly when the text does not parse, and success exactly when the parsed value is an echo request, which is then returned unchanged. |
| Rpc.MethodNotFoundConforms | echoer/routes.py:103-108 | The envelope carries code -32601 and "Method not found" and echoes the id. It is a JSON-RPC 2.0 error response exactly when the id is a string, number or null. |
| Rpc.MethodNotFoundErrorObject | echoer/routes.py:106 | The error object has exactly an integer code and a string message, as section 5.1 of JSON-RPC 2.0 requires. |
| Rpc.InvalidRequestShape | echoer/routes.py:109-117 | The invalid-request envelope has only `jsonrpc` and `error`, carries -32600 and "Invalid request", and keeps the id inside the error. It is not a JSON-RPC 2.0 response. |
| Rpc.ResultResponseConforms | echoer/routes.py:100 | The success envelope carries the result and the id and is never an error response. It is a JSON-RPC 2.0 response exactly when the id is one section 4 allows. |
| Routes.RestResponse | echoer/routes.py:23-24 | The REST handlers raise exactly when the data is not UTF-8. Otherwise they answer, always 200 with JSON, and the payload is the serialised `echo` of this request with the decoded data as the operation result. |
| Routes.Rest | echoer/routes.py:16-24 | `rest` raises exactly on data that is not UTF-8 and answers exactly on UTF-8 data, with 200 `application/json`. The payload is the serialised `echo` of this request, with the decoded data as the operation result and no URL parameter. So everything `Echo.Echo` promises carries over; in particular `op_result` is the decoded data and `params` is "None". |
| Routes.RestParam | echoer/routes.py:27-37 | The same, answering exactly on UTF-8 data. The payload is the serialised `echo` of this request with the URL parameter, so `params` is the escaped parameter. |
| Routes.RestEchoesBodyTwice | echoer/routes.py:23 | Without a form, the echoed body and the operation result are the same text. |
| Routes.Wsdl | echoer/routes.py:40-48 | Answers exactly when the query has a `wsdl` key, whatever its value, otherwise 404. The answer is 200 `application/xml` carrying the generated WSDL document itself, whose references resolve and whose target namespace is the service's. |
| Routes.EchoSoap | echoer/routes.py:51-62 | Raises exactly on unparsable XML, or on an accepted request whose data is not UTF-8. A rejected document gets 500 `application/xml` with a `Client` fault carrying the parser's message. An accepted one gets 200 `application/xml; charset=utf-8`, and its response text is the serialised `echo` of this request with the parsed text as the operation result. |
| Routes.EchoSoapRoundTrip | echoer/routes.py:55-62 | End to end, through an inverting JSON parser: the client reads back exactly the `echo` document of its request. Its `op_result` is the client's own text and `params` is "None". |
| Routes.EchoSoapFault | echoer/routes.py:54-58 | An envelope with no children, so no Body, is answered with status 500 and the fault ("Client", "Empty SOAP Body"). |
| Routes.RpcEndpoint | echoer/routes.py:89-119 | As written, it answers exactly when the value is a string holding a JSON object whose method is missing, or hashable and not `echo`. The answer is then always the method-not-found envelope. |
| Routes.RpcEndpointOnlyErrors | echoer/routes.py:97-119 | As written, every answer is error -32601 with no result. It is a conforming error response whenever the request's id is valid. |
| Routes.EchoCallFails | echoer/routes.py:99 | As written, a schema-valid call of `echo` is never answered. |
| Routes.UndecodableBodyFails | echoer/routes.py:101-102 | As written, a body that is not JSON is never answered with the 400 response built for it. |
| Routes.RpcEndpointIntended | echoer/routes.py:97-119 | With both bugs corrected, text that is not JSON gets the 400 response. Every JSON answer is an error envelope or carries a result. |
| Routes.IntendedEchoCallAnswers | echoer/routes.py:99-100 | Corrected: a schema-valid `echo` call on UTF-8 data gets a conforming JSON-RPC 2.0 success response. Its `result` is exactly the `echo` document of this request with the call as the operation result, and its id is the call's. |
| Routes.EchoRequestId | echoer/_utils.py:342 | A schema-valid request's id is one JSON-RPC 2.0 allows. |
| Routes.UndecodableBodyRejected | echoer/routes.py:101-102 | Corrected: a body that is not JSON gets status 400. |

## Left out

- XML text: `fromstring`, `tostring`, the XML declaration and the `ns0`/`ns1` prefixes the serialiser invents are not modelled. A request arrives as the parsed tree, or as the absence of one for a `ParseError`. A response is the tree before serialisation. The response envelope's `soap` and `tns` attributes are kept as the plain attributes the code writes.
- JSON text: `json.loads` and `json.dumps` are parameters. JSON numbers are exact decimals, so float rounding, `NaN` and `Infinity` are not modelled.
- Escaping: markupsafe is not part of this model. `Markup.Escape` follows its documented behaviour on `str` and `None`: `str()` of the argument, then the five-character substitution.
- Headers: werkzeug matches header names case-insensitively. `Echo.EchoHeaders` matches them exactly.
- Request and response plumbing: Flask routing, `Response` objects, `abort`, error pages, the app factory and the index page are not modelled. Neither is `get_json`'s own rejection of bodies that are not JSON, or that have the wrong content type.
- Routes.Wsdl: states the mimetype `application/xml` the code passes. The `; charset=utf-8` werkzeug appends to it is not modelled.
- Logging through `current_app.logger` and `g.request_id` is not modelled.
- Configuration: `load_dotenv`, `os.getenv` and `LOG_LEVEL` are not modelled. The host and port are parameters.
- Soap.Qname: requires a prefix of the namespace map. The `KeyError` an unknown prefix would raise cannot happen, since every call passes a fixed, known prefix.
- Soap.MakeResponseBody: takes a string. `make_response_body(None)` is not modelled: no handler passes `None`, and with `None` the element simply has no text.
- The WSDL unit tests that expect part names `request`/`response`, a `/echo` suffix on `soapAction` and a trailing `/` on `location` disagree with the code. The model follows the code (`echoer/_utils.py:145,150,183,200`).
- REST never catches invalid UTF-8, and malformed XML never becomes a fault. The model gives the uncaught exception (`Unhandled`) in both cases, as the code does.
- `parse_rpc_echo_request` is modelled, but no handler calls it. `rpc_endpoint` double-decodes the body itself, and its outcome is modelled from the value `get_json` returns.

## Findings

| source | as written | input that shows it | evidently intended | confidence | as-written member | corrected member |
|---|---|---|---|---|---|---|
| echoer/routes.py:99 | calls the registered function with the keyword `op_re`, which `echo` does not accept, so the call raises `TypeError` | the body `"{\"jsonrpc\": \"2.0\", \"method\": \"echo\", \"params\": [], \"id\": 1}"` | `op_res=req_body`, answered with `{"jsonrpc": "2.0", "result": <echo>, "id": 1}` | high; not executed | Routes.EchoCallFails | Routes.IntendedEchoCallAnswers |
| echoer/routes.py:101-102 | builds the 400 `Response` for a body that is not JSON and discards it; the final `return` then reads the unbound `resp_body` | the body `"not json"` | `return Response(response="invalid JSON-RPC request structure", status=400)` | high; not executed | Routes.UndecodableBodyFails | Routes.UndecodableBodyRejected |
