/** The SOAP codec of `echoer/_utils.py`: the WSDL document, reading the
    echo request out of a SOAP envelope, and the response and fault
    envelopes.  Documents are element trees; turning them into bytes
    (`tostring`) and reading bytes into a tree (`fromstring`) are not
    modelled, so a request arrives as the parser's result. */
module Soap {
  import opened Wrappers
  import opened Config
  import opened Xml
  import Assoc

  /** `_qname(prefix, name)`: the tag of `name` in the namespace bound to
      `prefix`. */
  function Qname(c: Config, prefix: string, name: string): (t: string)
    requires prefix in NsMap(c)
    ensures '}' !in NsMap(c)[prefix] ==> SplitTag(t) == (Some(NsMap(c)[prefix]), name)
  {
    var uri := NsMap(c)[prefix];
    if '}' in uri then Clark(uri, name)
    else ClarkRoundTrip(uri, name); Clark(uri, name)
  }

  /** A tag in the WSDL namespace, and one in the WSDL SOAP-binding
      namespace. */
  function WsdlTag(local: string): string { Clark(SoapWsdl, local) }
  function BindingTag(local: string): string { Clark(SoapNs, local) }

  /** An element with no text and no children. */
  function Empty(tag: string, attrs: seq<(string, string)>): Element {
    Element(tag, attrs, None, [])
  }

  /** The rest of `s` after `prefix` when `s` is written with that prefix,
      and None when it is not: an unqualified value does not read as a
      qualified one. */
  function Unprefixed(prefix: string, s: string): (r: Option<string>)
    ensures r.Some? <==> prefix <= s
    ensures r.Some? ==> s == prefix + r.value
  {
    if prefix <= s then Some(s[|prefix|..]) else None
  }

  lemma UnprefixedConcat(prefix: string, s: string)
    ensures Unprefixed(prefix, prefix + s) == Some(s)
  {
    assert prefix <= prefix + s;
    assert (prefix + s)[|prefix|..] == s;
  }

  /** The attribute list `[(k0, v0), (k1, v1)]` looks up both of its keys,
      when they differ. */
  lemma Lookup2(k0: string, v0: string, k1: string, v1: string)
    requires k0 != k1
    ensures Assoc.Lookup([(k0, v0), (k1, v1)], k0) == Some(v0)
    ensures Assoc.Lookup([(k0, v0), (k1, v1)], k1) == Some(v1)
  {
    Assoc.LookupDistinct([(k0, v0), (k1, v1)], 0);
    Assoc.LookupDistinct([(k0, v0), (k1, v1)], 1);
  }

  // ---------------------------------------------------------------------
  // The WSDL document

  /** One `part` element of a message. */
  function Part(c: Config, param: (string, string)): Element {
    Empty(Qname(c, "wsdl", "part"), [("name", param.0), ("type", "xsd:" + param.1)])
  }

  /** `_add_message(definitions, name, params)`: the `message` element it
      appends, one `part` per (name, XSD type) parameter. */
  function AddMessage(c: Config, name: string, params: seq<(string, string)>): (m: Element)
    ensures m.tag == WsdlTag("message")
    ensures |m.children| == |params|
  {
    Element(Qname(c, "wsdl", "message"), [("name", name)], None,
            seq(|params|, i requires 0 <= i < |params| => Part(c, params[i])))
  }

  /** The (name, XSD type) parameter a `part` element declares: None
      unless it has a name and a type written in the `xsd:` namespace. */
  function ReadPart(e: Element): Option<(string, string)> {
    if Attr(e, "name").None? || Attr(e, "type").None? then None
    else match Unprefixed("xsd:", Attr(e, "type").value)
      case None => None
      case Some(t) => Some((Attr(e, "name").value, t))
  }

  /** The parameters a `message` element declares, when every part reads. */
  function MessageParams(m: Element): Option<seq<(string, string)>> {
    if forall i :: 0 <= i < |m.children| ==> ReadPart(m.children[i]).Some? then
      Some(seq(|m.children|, i requires 0 <= i < |m.children| && ReadPart(m.children[i]).Some? =>
                 ReadPart(m.children[i]).value))
    else None
  }

  /** A message element declares exactly the name and parameters it was
      built from, each part a `wsdl:part` whose type is written
      `xsd:<type>`. */
  lemma MessageRoundTrip(c: Config, name: string, params: seq<(string, string)>)
    ensures Attr(AddMessage(c, name, params), "name") == Some(name)
    ensures MessageParams(AddMessage(c, name, params)) == Some(params)
    ensures forall i :: 0 <= i < |params| ==> AddMessage(c, name, params).children[i].tag == WsdlTag("part")
    ensures forall i :: 0 <= i < |params| ==> Attr(AddMessage(c, name, params).children[i], "type") == Some("xsd:" + params[i].1)
  {
    var m := AddMessage(c, name, params);
    forall i | 0 <= i < |params|
      ensures Attr(m.children[i], "type") == Some("xsd:" + params[i].1)
      ensures ReadPart(m.children[i]) == Some(params[i])
    {
      Lookup2("name", params[i].0, "type", "xsd:" + params[i].1);
      UnprefixedConcat("xsd:", params[i].1);
    }
    assert MessageParams(m).Some?;
    assert MessageParams(m).value == params;
  }

  /** `_add_operation(port_type, op_name, in_msg, out_msg)`: the abstract
      operation with its input and output messages. */
  function AddOperation(c: Config, opName: string, inMsg: string, outMsg: string): (op: Element)
    ensures op.tag == WsdlTag("operation")
  {
    Element(Qname(c, "wsdl", "operation"), [("name", opName)], None,
            [Empty(Qname(c, "wsdl", "input"), [("message", "tns:" + inMsg)]),
             Empty(Qname(c, "wsdl", "output"), [("message", "tns:" + outMsg)])])
  }

  /** The message an `input` or `output` element refers to in the target
      namespace: None unless its `message` is written `tns:<name>`. */
  function MessageRef(o: Option<Element>): Option<string> {
    match AttrIn(o, "message")
    case None => None
    case Some(v) => Unprefixed("tns:", v)
  }

  /** An abstract operation read back: its name, input message and output
      message. */
  function OperationSignature(op: Element): (string, Option<string>, Option<string>) {
    (Attr(op, "name").GetOr(""),
     MessageRef(Find(op, WsdlTag("input"))),
     MessageRef(Find(op, WsdlTag("output"))))
  }

  lemma WsdlTagsDiffer(a: string, b: string)
    requires a != b
    ensures WsdlTag(a) != WsdlTag(b)
  {
    ClarkSameUri(SoapWsdl, a, b);
  }

  /** An operation element names exactly the operation and the messages it
      was built from. */
  lemma OperationRoundTrip(c: Config, opName: string, inMsg: string, outMsg: string)
    ensures OperationSignature(AddOperation(c, opName, inMsg, outMsg)) == (opName, Some(inMsg), Some(outMsg))
    ensures AttrIn(Find(AddOperation(c, opName, inMsg, outMsg), WsdlTag("input")), "message") == Some("tns:" + inMsg)
    ensures AttrIn(Find(AddOperation(c, opName, inMsg, outMsg), WsdlTag("output")), "message") == Some("tns:" + outMsg)
  {
    var op := AddOperation(c, opName, inMsg, outMsg);
    WsdlTagsDiffer("input", "output");
    FirstWithTagAt(op.children, WsdlTag("input"), 0);
    FirstWithTagAt(op.children, WsdlTag("output"), 1);
    UnprefixedConcat("tns:", inMsg);
    UnprefixedConcat("tns:", outMsg);
  }

  /** A `wsdl:input` or `wsdl:output` of a binding operation, with its
      literal `soap:body`. */
  function LiteralBody(c: Config, direction: string): Element
    requires direction == "input" || direction == "output"
  {
    Element(Qname(c, "wsdl", direction), [], None, [Empty(Qname(c, "soap", "body"), [("use", "literal")])])
  }

  /** `_bind_operation(binding, op_name, soap_action)`: the concrete
      operation, its SOAP action and literal input and output bodies. */
  function BindOperation(c: Config, opName: string, soapAction: string): (op: Element)
    ensures op.tag == WsdlTag("operation")
  {
    Element(Qname(c, "wsdl", "operation"), [("name", opName)], None,
            [Empty(Qname(c, "soap", "operation"), [("soapAction", soapAction)]),
             LiteralBody(c, "input"),
             LiteralBody(c, "output")])
  }

  /** A binding operation read back: its name, SOAP action, and the `use`
      of its input and output bodies. */
  function BoundOperation(op: Element): (string, Option<string>, Option<string>, Option<string>) {
    (Attr(op, "name").GetOr(""),
     AttrIn(Find(op, BindingTag("operation")), "soapAction"),
     AttrIn(FindIn(Find(op, WsdlTag("input")), BindingTag("body")), "use"),
     AttrIn(FindIn(Find(op, WsdlTag("output")), BindingTag("body")), "use"))
  }

  /** A binding operation carries exactly its name and SOAP action, and
      both its messages are literal. */
  lemma BindOperationRoundTrip(c: Config, opName: string, soapAction: string)
    ensures BoundOperation(BindOperation(c, opName, soapAction)) == (opName, Some(soapAction), Some("literal"), Some("literal"))
  {
    LiteralBodyUse(c, "input");
    LiteralBodyUse(c, "output");
    BoundOperationReads(Qname(c, "wsdl", "operation"), opName, soapAction, LiteralBody(c, "input"), LiteralBody(c, "output"));
  }

  /** A literal body is tagged with its direction and its `soap:body` says
      `literal`. */
  lemma LiteralBodyUse(c: Config, direction: string)
    requires direction == "input" || direction == "output"
    ensures LiteralBody(c, direction).tag == WsdlTag(direction)
    ensures AttrIn(Find(LiteralBody(c, direction), BindingTag("body")), "use") == Some("literal")
  {
    FirstWithTagAt(LiteralBody(c, direction).children, BindingTag("body"), 0);
  }

  /** What `BoundOperation` reads from an operation laid out as
      `_bind_operation` lays it out, whatever its input and output hold. */
  lemma BoundOperationReads(tag: string, name: string, action: string, input: Element, output: Element)
    requires input.tag == WsdlTag("input") && output.tag == WsdlTag("output")
    ensures BoundOperation(Element(tag, [("name", name)], None,
                                   [Empty(BindingTag("operation"), [("soapAction", action)]), input, output]))
            == (name, Some(action), AttrIn(Find(input, BindingTag("body")), "use"),
                AttrIn(Find(output, BindingTag("body")), "use"))
  {
    var children := [Empty(BindingTag("operation"), [("soapAction", action)]), input, output];
    WsdlTagsDiffer("input", "output");
    assert |BindingTag("operation")| != |WsdlTag("input")|;
    assert |BindingTag("operation")| != |WsdlTag("output")|;
    FirstWithTagAt(children, BindingTag("operation"), 0);
    FirstWithTagAt(children, WsdlTag("input"), 1);
    FirstWithTagAt(children, WsdlTag("output"), 2);
  }

  const SoapHttpTransport: string := "http://schemas.xmlsoap.org/soap/http"

  /** The address the service is reached at and the SOAP action of its one
      operation. */
  function EndpointAddress(c: Config): string {
    ServiceAddress(c) + "/echo/soap"
  }

  /** The attributes of the root `definitions` element. */
  function DefinitionsAttrs(c: Config): seq<(string, string)> {
    [("targetNamespace", NsMap(c)["tns"]),
     ("xmlns:tns", NsMap(c)["tns"]),
     ("xmlns:soap", NsMap(c)["soap"]),
     ("xmlns:xsd", NsMap(c)["xsd"]),
     ("xmlns", NsMap(c)["wsdl"])]
  }

  function TypesSection(c: Config): (e: Element)
    ensures e.tag == WsdlTag("types")
  {
    Empty(Qname(c, "wsdl", "types"), [])
  }

  /** A message of the echo service: named `name`, with one `string` part
      of the same name.  The request and the response are both of this
      shape. */
  function EchoMessage(c: Config, name: string): (e: Element)
    ensures e.tag == WsdlTag("message")
    ensures Attr(e, "name") == Some(name)
    ensures MessageParams(e) == Some([(name, "string")])
    ensures |e.children| == 1 && Attr(e.children[0], "type") == Some("xsd:string")
  {
    var params := [(name, "string")];
    MessageRoundTrip(c, name, params);
    var e := AddMessage(c, name, params);
    assert Attr(e.children[0], "type") == Some("xsd:" + params[0].1);
    assert "xsd:" + "string" == "xsd:string";
    e
  }

  function PortTypeSection(c: Config): (e: Element)
    ensures e.tag == WsdlTag("portType")
  {
    Element(Qname(c, "wsdl", "portType"), [("name", "EchoPortType")], None,
            [AddOperation(c, "Echo", "EchoRequest", "EchoResponse")])
  }

  function BindingSection(c: Config): (e: Element)
    ensures e.tag == WsdlTag("binding")
  {
    Element(Qname(c, "wsdl", "binding"), [("name", "EchoBinding"), ("type", "tns:EchoPortType")], None,
            [Empty(Qname(c, "soap", "binding"), [("transport", SoapHttpTransport), ("style", "document")]),
             BindOperation(c, "Echo", EndpointAddress(c))])
  }

  function ServiceSection(c: Config): (e: Element)
    ensures e.tag == WsdlTag("service")
  {
    Element(Qname(c, "wsdl", "service"), [("name", "EchoService")], None,
            [Element(Qname(c, "wsdl", "port"), [("name", "EchoPort"), ("binding", "tns:EchoBinding")], None,
                     [Empty(Qname(c, "soap", "address"), [("location", EndpointAddress(c))])])])
  }

  /** `make_wsdl()`, as the element tree it serialises. */
  function MakeWsdl(c: Config): (root: Element)
    ensures root.tag == WsdlTag("definitions")
  {
    Element(Qname(c, "wsdl", "definitions"), DefinitionsAttrs(c), None,
            [TypesSection(c),
             EchoMessage(c, "EchoRequest"),
             EchoMessage(c, "EchoResponse"),
             PortTypeSection(c),
             BindingSection(c),
             ServiceSection(c)])
  }

  /** The tags of a sequence of elements, in order. */
  function Tags(es: seq<Element>): (ts: seq<string>)
    ensures |ts| == |es|
  {
    seq(|es|, i requires 0 <= i < |es| => es[i].tag)
  }

  /** The root names the WSDL namespace, declares the target namespace as
      the service's own, binds `tns` to that same namespace, and binds the
      other prefixes to the fixed URIs. */
  lemma WsdlDefinitions(c: Config)
    ensures SplitTag(MakeWsdl(c).tag) == (Some(SoapWsdl), "definitions")
    ensures Attr(MakeWsdl(c), "targetNamespace") == Some(SoapTns(c))
    ensures Attr(MakeWsdl(c), "xmlns:tns") == Some(SoapTns(c))
    ensures Attr(MakeWsdl(c), "xmlns:soap") == Some(SoapNs)
    ensures Attr(MakeWsdl(c), "xmlns:xsd") == Some(SoapXsd)
    ensures Attr(MakeWsdl(c), "xmlns") == Some(SoapWsdl)
  {
    ClarkRoundTrip(SoapWsdl, "definitions");
    var a := DefinitionsAttrs(c);
    assert Assoc.DistinctKeys(a);
    Assoc.LookupDistinct(a, 0);
    Assoc.LookupDistinct(a, 1);
    Assoc.LookupDistinct(a, 2);
    Assoc.LookupDistinct(a, 3);
    Assoc.LookupDistinct(a, 4);
  }

  /** The document's sections, in order: types, the request and response
      messages, the port type, the binding and the service.  Each message
      has one `string` part named after the message itself. */
  lemma WsdlLayout(c: Config)
    ensures Tags(MakeWsdl(c).children)
            == [WsdlTag("types"), WsdlTag("message"), WsdlTag("message"),
                WsdlTag("portType"), WsdlTag("binding"), WsdlTag("service")]
    ensures MakeWsdl(c).children[1] == EchoMessage(c, "EchoRequest")
    ensures MakeWsdl(c).children[2] == EchoMessage(c, "EchoResponse")
    ensures MakeWsdl(c).children[3] == PortTypeSection(c)
    ensures MakeWsdl(c).children[4] == BindingSection(c)
    ensures MakeWsdl(c).children[5] == ServiceSection(c)
  {
    var cs := MakeWsdl(c).children;
    assert cs == [TypesSection(c), EchoMessage(c, "EchoRequest"), EchoMessage(c, "EchoResponse"),
                  PortTypeSection(c), BindingSection(c), ServiceSection(c)];
    TagsOfSix(cs);
  }

  lemma TagsOfSix(es: seq<Element>)
    requires |es| == 6
    ensures Tags(es) == [es[0].tag, es[1].tag, es[2].tag, es[3].tag, es[4].tag, es[5].tag]
  {
  }

  /** The two messages are the request and the response, each with one
      `string` part named after the message itself. */
  lemma WsdlMessages(c: Config)
    ensures Attr(MakeWsdl(c).children[1], "name") == Some("EchoRequest")
    ensures MessageParams(MakeWsdl(c).children[1]) == Some([("EchoRequest", "string")])
    ensures |MakeWsdl(c).children[1].children| == 1
    ensures Attr(MakeWsdl(c).children[1].children[0], "type") == Some("xsd:string")
    ensures Attr(MakeWsdl(c).children[2], "name") == Some("EchoResponse")
    ensures MessageParams(MakeWsdl(c).children[2]) == Some([("EchoResponse", "string")])
    ensures |MakeWsdl(c).children[2].children| == 1
    ensures Attr(MakeWsdl(c).children[2].children[0], "type") == Some("xsd:string")
  {
    var cs := MakeWsdl(c).children;
    assert cs[1] == EchoMessage(c, "EchoRequest");
    assert cs[2] == EchoMessage(c, "EchoResponse");
  }

  /** In a document laid out as a WSDL 1.1 one-service description,
      `find` reaches the port type, the binding and the service by tag. */
  lemma SectionFinds(root: Element)
    requires Tags(root.children)
             == [WsdlTag("types"), WsdlTag("message"), WsdlTag("message"),
                 WsdlTag("portType"), WsdlTag("binding"), WsdlTag("service")]
    ensures Find(root, WsdlTag("portType")) == Some(root.children[3])
    ensures Find(root, WsdlTag("binding")) == Some(root.children[4])
    ensures Find(root, WsdlTag("service")) == Some(root.children[5])
  {
    var cs := root.children;
    TagsOfSix(cs);
    SectionTagsDiffer();
    FirstWithTagAt(cs, WsdlTag("portType"), 3);
    FirstWithTagAt(cs, WsdlTag("binding"), 4);
    FirstWithTagAt(cs, WsdlTag("service"), 5);
  }

  /** The section tags that `find` skips over differ from the ones it
      looks for. */
  lemma SectionTagsDiffer()
    ensures WsdlTag("types") != WsdlTag("portType") && WsdlTag("message") != WsdlTag("portType")
    ensures WsdlTag("types") != WsdlTag("binding") && WsdlTag("message") != WsdlTag("binding")
    ensures WsdlTag("portType") != WsdlTag("binding")
    ensures WsdlTag("types") != WsdlTag("service") && WsdlTag("message") != WsdlTag("service")
    ensures WsdlTag("portType") != WsdlTag("service") && WsdlTag("binding") != WsdlTag("service")
  {
    WsdlTagsDiffer("types", "portType");
    WsdlTagsDiffer("message", "portType");
    WsdlTagsDiffer("types", "binding");
    WsdlTagsDiffer("message", "binding");
    WsdlTagsDiffer("portType", "binding");
    WsdlTagsDiffer("types", "service");
    WsdlTagsDiffer("message", "service");
    WsdlTagsDiffer("portType", "service");
    WsdlTagsDiffer("binding", "service");
  }

  /** `find` on the generated root reaches each section. */
  lemma WsdlFinds(c: Config)
    ensures Find(MakeWsdl(c), WsdlTag("portType")) == Some(PortTypeSection(c))
    ensures Find(MakeWsdl(c), WsdlTag("binding")) == Some(BindingSection(c))
    ensures Find(MakeWsdl(c), WsdlTag("service")) == Some(ServiceSection(c))
  {
    WsdlLayout(c);
    SectionFinds(MakeWsdl(c));
  }

  /** The message declared by name among the root's `message` elements. */
  predicate DeclaresMessage(root: Element, name: string) {
    exists i :: 0 <= i < |root.children| && root.children[i].tag == WsdlTag("message")
                && Attr(root.children[i], "name") == Some(name)
  }

  /** The port type's first operation, and the binding's. */
  function AbstractOperation(root: Element): Option<Element> {
    FindIn(Find(root, WsdlTag("portType")), WsdlTag("operation"))
  }

  function BoundOperationOf(root: Element): Option<Element> {
    FindIn(Find(root, WsdlTag("binding")), WsdlTag("operation"))
  }

  /** The port type's operation uses messages the document declares. */
  predicate MessagesDeclared(root: Element) {
    && AbstractOperation(root).Some?
    && var (_, inMsg, outMsg) := OperationSignature(AbstractOperation(root).value);
    && inMsg.Some? && DeclaresMessage(root, inMsg.value)
    && outMsg.Some? && DeclaresMessage(root, outMsg.value)
  }

  /** The binding binds the port type, and an operation of the same name. */
  predicate BindingMatchesPortType(root: Element) {
    var portType := Find(root, WsdlTag("portType"));
    var binding := Find(root, WsdlTag("binding"));
    && AttrIn(portType, "name").Some?
    && AttrIn(binding, "type") == Some("tns:" + AttrIn(portType, "name").value)
    && AbstractOperation(root).Some? && BoundOperationOf(root).Some?
    && BoundOperation(BoundOperationOf(root).value).0 == OperationSignature(AbstractOperation(root).value).0
  }

  /** The service's port uses the binding. */
  predicate PortMatchesBinding(root: Element) {
    var binding := Find(root, WsdlTag("binding"));
    var port := FindIn(Find(root, WsdlTag("service")), WsdlTag("port"));
    && AttrIn(binding, "name").Some?
    && AttrIn(port, "binding") == Some("tns:" + AttrIn(binding, "name").value)
  }

  /** The cross-references of a one-operation WSDL document resolve. */
  predicate WellReferenced(root: Element) {
    MessagesDeclared(root) && BindingMatchesPortType(root) && PortMatchesBinding(root)
  }

  /** The port type is named and holds the echo operation. */
  lemma PortTypeReads(c: Config)
    ensures Attr(PortTypeSection(c), "name") == Some("EchoPortType")
    ensures Find(PortTypeSection(c), WsdlTag("operation")) == Some(AddOperation(c, "Echo", "EchoRequest", "EchoResponse"))
  {
    FirstWithTagAt(PortTypeSection(c).children, WsdlTag("operation"), 0);
  }

  /** The binding is named, binds the port type, and holds its SOAP binding
      and then the bound echo operation. */
  lemma BindingReads(c: Config)
    ensures Attr(BindingSection(c), "name") == Some("EchoBinding")
    ensures Attr(BindingSection(c), "type") == Some("tns:EchoPortType")
    ensures Find(BindingSection(c), BindingTag("binding"))
            == Some(Empty(BindingTag("binding"), [("transport", SoapHttpTransport), ("style", "document")]))
    ensures Find(BindingSection(c), WsdlTag("operation")) == Some(BindOperation(c, "Echo", EndpointAddress(c)))
  {
    var b := BindingSection(c);
    assert |BindingTag("binding")| != |WsdlTag("operation")|;
    FirstWithTagAt(b.children, BindingTag("binding"), 0);
    FirstWithTagAt(b.children, WsdlTag("operation"), 1);
    Lookup2("name", "EchoBinding", "type", "tns:EchoPortType");
  }

  /** The service's port uses the binding and has the endpoint address. */
  lemma ServiceReads(c: Config)
    ensures var port := Find(ServiceSection(c), WsdlTag("port"));
            && port.Some?
            && Attr(port.value, "binding") == Some("tns:EchoBinding")
            && AttrIn(Find(port.value, BindingTag("address")), "location") == Some(EndpointAddress(c))
  {
    var s := ServiceSection(c);
    FirstWithTagAt(s.children, WsdlTag("port"), 0);
    FirstWithTagAt(s.children[0].children, BindingTag("address"), 0);
    Lookup2("name", "EchoPort", "binding", "tns:EchoBinding");
  }

  lemma WsdlMessagesDeclared(c: Config)
    ensures MessagesDeclared(MakeWsdl(c))
  {
    var root := MakeWsdl(c);
    WsdlFinds(c);
    WsdlLayout(c);
    WsdlMessages(c);
    PortTypeReads(c);
    OperationRoundTrip(c, "Echo", "EchoRequest", "EchoResponse");
    DeclaredAt(root, 1, "EchoRequest");
    DeclaredAt(root, 2, "EchoResponse");
  }

  lemma DeclaredAt(root: Element, i: nat, name: string)
    requires i < |root.children| && root.children[i].tag == WsdlTag("message")
    requires Attr(root.children[i], "name") == Some(name)
    ensures DeclaresMessage(root, name)
  {
  }

  /** What the port-type, binding and service sections need to hold for
      their references to resolve. */
  lemma ReferencesFromSections(root: Element, pt: Element, b: Element, s: Element)
    requires Find(root, WsdlTag("portType")) == Some(pt)
    requires Find(root, WsdlTag("binding")) == Some(b)
    requires Find(root, WsdlTag("service")) == Some(s)
    requires Attr(pt, "name").Some? && Attr(b, "name").Some?
    requires Attr(b, "type") == Some("tns:" + Attr(pt, "name").value)
    requires Find(pt, WsdlTag("operation")).Some? && Find(b, WsdlTag("operation")).Some?
    requires BoundOperation(Find(b, WsdlTag("operation")).value).0
             == OperationSignature(Find(pt, WsdlTag("operation")).value).0
    requires AttrIn(Find(s, WsdlTag("port")), "binding") == Some("tns:" + Attr(b, "name").value)
    ensures BindingMatchesPortType(root) && PortMatchesBinding(root)
  {
  }

  lemma TnsReferences()
    ensures "tns:" + "EchoPortType" == "tns:EchoPortType"
    ensures "tns:" + "EchoBinding" == "tns:EchoBinding"
  {
  }

  lemma WsdlBindingMatches(c: Config)
    ensures BindingMatchesPortType(MakeWsdl(c))
    ensures PortMatchesBinding(MakeWsdl(c))
  {
    WsdlFinds(c);
    PortTypeReads(c);
    BindingReads(c);
    ServiceReads(c);
    assert Attr(AddOperation(c, "Echo", "EchoRequest", "EchoResponse"), "name") == Some("Echo");
    BindOperationRoundTrip(c, "Echo", EndpointAddress(c));
    TnsReferences();
    ReferencesFromSections(MakeWsdl(c), PortTypeSection(c), BindingSection(c), ServiceSection(c));
  }

  /** Every reference inside the generated document resolves. */
  lemma WsdlWellReferenced(c: Config)
    ensures WellReferenced(MakeWsdl(c))
  {
    WsdlMessagesDeclared(c);
    WsdlBindingMatches(c);
  }

  /** The binding is document-style SOAP over HTTP, and the SOAP action and
      the service location are one address: the service address followed
      by `/echo/soap`, which is also the target namespace. */
  lemma WsdlEndpoint(c: Config)
    ensures var b := Find(MakeWsdl(c), WsdlTag("binding"));
            && AttrIn(FindIn(b, BindingTag("binding")), "transport") == Some(SoapHttpTransport)
            && AttrIn(FindIn(b, BindingTag("binding")), "style") == Some("document")
            && FindIn(b, WsdlTag("operation")).Some?
            && BoundOperation(FindIn(b, WsdlTag("operation")).value).1 == Some(ServiceAddress(c) + "/echo/soap")
    ensures var port := FindIn(Find(MakeWsdl(c), WsdlTag("service")), WsdlTag("port"));
            AttrIn(FindIn(port, BindingTag("address")), "location") == Some(ServiceAddress(c) + "/echo/soap")
    ensures ServiceAddress(c) + "/echo/soap" == SoapTns(c)
  {
    WsdlFinds(c);
    BindingReads(c);
    ServiceReads(c);
    Lookup2("transport", SoapHttpTransport, "style", "document");
    BindOperationRoundTrip(c, "Echo", EndpointAddress(c));
  }

  // ---------------------------------------------------------------------
  // Requests

  const BodyTag: string := Clark(SoapEnvelope, "Body")
  const EnvelopeTag: string := Clark(SoapEnvelope, "Envelope")
  const EchoRequestTag: string := "EchoRequest"
  const EchoResponseTag: string := "EchoResponse"

  const EmptyBodyMessage: string := "Empty SOAP Body"
  const MissingEchoRequestMessage: string := "Missing EchoRequest element"

  /** Why a request yields no echo text: the bytes are not XML (a
      `ParseError`, which is not a `ValueError`), or the document is not an
      echo request (a `ValueError` with its message). */
  datatype SoapError = XmlParseError | ValueError(message: string)

  /** `parse_soap_echo_request`, given what `fromstring` made of the bytes
      (None for a `ParseError`).  The Body is the first element tagged
      `{envelope}Body` strictly below the root; the request is the first
      of its children whose tag is exactly `EchoRequest`, with no
      namespace; its text, or "" if it has none, is the result. */
  function ParseSoapEchoRequest(doc: Option<Element>): (r: Result<string, SoapError>)
    ensures doc.None? <==> r == Failure(XmlParseError)
    ensures r == Failure(ValueError(EmptyBodyMessage)) <==>
              doc.Some? && (FindDescendant(doc.value, BodyTag).None?
                            || |FindDescendant(doc.value, BodyTag).value.children| == 0)
    ensures r == Failure(ValueError(MissingEchoRequestMessage)) <==>
              doc.Some? && FindDescendant(doc.value, BodyTag).Some?
              && |FindDescendant(doc.value, BodyTag).value.children| > 0
              && forall e | e in FindDescendant(doc.value, BodyTag).value.children :: e.tag != EchoRequestTag
    ensures r.Success? <==>
              doc.Some? && FindDescendant(doc.value, BodyTag).Some?
              && |FindDescendant(doc.value, BodyTag).value.children| > 0
              && exists e | e in FindDescendant(doc.value, BodyTag).value.children :: e.tag == EchoRequestTag
    ensures r.Success? ==>
              var children := FindDescendant(doc.value, BodyTag).value.children;
              exists i :: 0 <= i < |children| && children[i].tag == EchoRequestTag
                          && r.value == children[i].text.GetOr("")
                          && forall j :: 0 <= j < i ==> children[j].tag != EchoRequestTag
  {
    if doc.None? then Failure(XmlParseError)
    else
      var body := FindDescendant(doc.value, BodyTag);
      if body.None? || |body.value.children| == 0 then Failure(ValueError(EmptyBodyMessage))
      else
        match Find(body.value, EchoRequestTag)
        case None => Failure(ValueError(MissingEchoRequestMessage))
        case Some(request) => Success(request.text.GetOr(""))
  }

  /** A request envelope as a client lays it out: the Envelope holds some
      header elements and then the Body; the Body holds some other
      elements, then the `EchoRequest`, then anything else. */
  function RequestEnvelope(envAttrs: seq<(string, string)>, headers: seq<Element>,
                           before: seq<Element>, request: Element, after: seq<Element>): Element
  {
    Element(EnvelopeTag, envAttrs, None, headers + [Element(BodyTag, [], None, before + [request] + after)])
  }

  /** Parsing recovers the request's text ("" when it has none), whatever
      the request's attributes and children, the envelope's namespace
      declarations, and the elements after it; the elements before it only
      need other tags. */
  lemma RequestEnvelopeRoundTrip(envAttrs: seq<(string, string)>, headers: seq<Element>,
                                 before: seq<Element>, reqAttrs: seq<(string, string)>, text: Option<string>,
                                 reqChildren: seq<Element>, after: seq<Element>)
    requires forall i :: 0 <= i < |IterAll(headers)| ==> IterAll(headers)[i].tag != BodyTag
    requires forall i :: 0 <= i < |before| ==> before[i].tag != EchoRequestTag
    ensures var request := Element(EchoRequestTag, reqAttrs, text, reqChildren);
            ParseSoapEchoRequest(Some(RequestEnvelope(envAttrs, headers, before, request, after)))
            == Success(text.GetOr(""))
  {
    var request := Element(EchoRequestTag, reqAttrs, text, reqChildren);
    var env := RequestEnvelope(envAttrs, headers, before, request, after);
    var body := env.children[|headers|];
    assert env.children == headers + [body] + [];
    FindDescendantAfter(env, headers, body, [], BodyTag);
    assert body.children == before + [request] + after;
    FirstWithTagSkip(before, [request] + after, EchoRequestTag);
    FirstWithTagAt([request] + after, EchoRequestTag, 0);
    assert before + [request] + after == before + ([request] + after);
  }

  /** The simplest request: the echo text as the sole content of the Body;
      an empty text is sent as an element with no text. */
  lemma SimpleRequestRoundTrip(envAttrs: seq<(string, string)>, text: string)
    ensures var request := Element(EchoRequestTag, [], if text == "" then None else Some(text), []);
            ParseSoapEchoRequest(Some(RequestEnvelope(envAttrs, [], [], request, []))) == Success(text)
  {
    var request := Element(EchoRequestTag, [], if text == "" then None else Some(text), []);
    RequestEnvelopeRoundTrip(envAttrs, [], [], [], request.text, [], []);
  }

  /** An `EchoRequest` in a namespace is not the request: only the bare tag
      is looked up. */
  lemma QualifiedRequestIsMissing(envAttrs: seq<(string, string)>, uri: string, text: Option<string>)
    ensures var request := Element(Clark(uri, "EchoRequest"), [], text, []);
            ParseSoapEchoRequest(Some(RequestEnvelope(envAttrs, [], [], request, [])))
            == Failure(ValueError(MissingEchoRequestMessage))
  {
    var request := Element(Clark(uri, "EchoRequest"), [], text, []);
    var env := RequestEnvelope(envAttrs, [], [], request, []);
    assert env.children == [] + [env.children[0]] + [];
    FindDescendantAfter(env, [], env.children[0], [], BodyTag);
    assert Clark(uri, "EchoRequest")[0] != EchoRequestTag[0];
  }

  // ---------------------------------------------------------------------
  // Responses

  /** `make_response_body(response)`, as the element tree it serialises:
      the Envelope declares the envelope and target namespaces as plain
      attributes, and the Body holds an unqualified `EchoResponse`. */
  function MakeResponseBody(c: Config, response: string): (env: Element)
    ensures env.tag == EnvelopeTag
    ensures |env.children| == 1 && FindDescendant(env, BodyTag) == Some(env.children[0])
    ensures env.children[0].children == [Element(EchoResponseTag, [], Some(response), [])]
  {
    var env := Element(EnvelopeTag, [("soap", SoapEnvelope), ("tns", SoapTns(c))], None,
                       [Element(BodyTag, [], None, [Element(EchoResponseTag, [], Some(response), [])])]);
    SingleBodyFound(env);
    env
  }

  /** An envelope whose only child is a Body finds that Body. */
  lemma SingleBodyFound(env: Element)
    requires |env.children| == 1 && env.children[0].tag == BodyTag
    ensures FindDescendant(env, BodyTag) == Some(env.children[0])
  {
    assert env.children == [] + [env.children[0]] + [];
    FindDescendantAfter(env, [], env.children[0], [], BodyTag);
  }

  /** What a client reads from a response: the text of the first
      `EchoResponse` below the root, or "" if it has none. */
  function ResponseText(env: Element): Option<string> {
    match FindDescendant(env, EchoResponseTag)
    case None => None
    case Some(e) => Some(e.text.GetOr(""))
  }

  /** A client reads back exactly the response text, and the Body is where
      a client looks for it: the `EchoResponse` it reads is the one a
      `find` on the Body returns. */
  lemma ResponseRoundTrip(c: Config, response: string)
    ensures ResponseText(MakeResponseBody(c, response)) == Some(response)
    ensures FindDescendant(MakeResponseBody(c, response), BodyTag) == Some(MakeResponseBody(c, response).children[0])
    ensures FindIn(FindDescendant(MakeResponseBody(c, response), BodyTag), EchoResponseTag)
            == Some(Element(EchoResponseTag, [], Some(response), []))
  {
    var env := MakeResponseBody(c, response);
    var body := env.children[0];
    FirstWithTagAt(body.children, EchoResponseTag, 0);
    assert IterAll([body]) == Iter(body) + IterAll([]);
    assert Iter(body) == [body] + IterAll(body.children);
    assert body.children == [] + [body.children[0]] + [];
    FindDescendantAfter(body, [], body.children[0], [], EchoResponseTag);
    assert |body.tag| != |EchoResponseTag|;
    FirstWithTagSkip([body], IterAll(body.children) + [], EchoResponseTag);
    assert Descendants(env) == [body] + (IterAll(body.children) + []);
  }

  /** A response is not a request: fed back to the request parser it is
      rejected for lacking an `EchoRequest`. */
  lemma ResponseIsNotRequest(c: Config, response: string)
    ensures ParseSoapEchoRequest(Some(MakeResponseBody(c, response))) == Failure(ValueError(MissingEchoRequestMessage))
  {
    ResponseRoundTrip(c, response);
    assert EchoResponseTag != EchoRequestTag by {
      assert EchoResponseTag[6] != EchoRequestTag[6];
    }
  }

  /** `make_fault_response_body(code, message)`, as the element tree it
      serialises: the Fault element is in the target namespace and holds
      `faultcode` and then `faultstring`. */
  function MakeFaultResponseBody(c: Config, code: string, message: string): (env: Element)
    ensures env.tag == EnvelopeTag
  {
    Element(EnvelopeTag, [("soap", SoapEnvelope)], None,
            [Element(BodyTag, [], None,
                     [Element(Clark(SoapTns(c), "Fault"), [], None,
                              [Element("faultcode", [], Some(code), []),
                               Element("faultstring", [], Some(message), [])])])])
  }

  /** The fault envelope holds one Body; the Body holds one element, the
      Fault in the target namespace; the Fault holds exactly `faultcode`
      with the code and then `faultstring` with the message, both
      unqualified. */
  lemma FaultLayout(c: Config, code: string, message: string)
    ensures var env := MakeFaultResponseBody(c, code, message);
            && |env.children| == 1
            && FindDescendant(env, BodyTag) == Some(env.children[0])
            && |env.children[0].children| == 1
            && env.children[0].children[0].tag == Clark(SoapTns(c), "Fault")
            && var fault := env.children[0].children[0];
            && |fault.children| == 2
            && fault.children[0].tag == "faultcode" && fault.children[0].text == Some(code)
            && fault.children[1].tag == "faultstring" && fault.children[1].text == Some(message)
  {
    SingleBodyFound(MakeFaultResponseBody(c, code, message));
  }

  /** What a client reads from a fault envelope: the code and the message
      under the first Fault of the Body, found in namespace `faultNs`. */
  function FaultOf(env: Element, faultNs: string): Option<(string, string)> {
    var fault := FindIn(FindDescendant(env, BodyTag), Clark(faultNs, "Fault"));
    var code := FindIn(fault, "faultcode");
    var message := FindIn(fault, "faultstring");
    if code.None? || message.None? then None
    else Some((code.value.text.GetOr(""), message.value.text.GetOr("")))
  }

  /** A client looking in the target namespace reads back exactly the code
      and the message; one looking in the envelope namespace, where
      section 4.4 of SOAP 1.1 puts `Fault`, finds no fault at all. */
  lemma FaultRoundTrip(c: Config, code: string, message: string)
    ensures FaultOf(MakeFaultResponseBody(c, code, message), SoapTns(c)) == Some((code, message))
    ensures FaultOf(MakeFaultResponseBody(c, code, message), SoapEnvelope) == None
  {
    var env := MakeFaultResponseBody(c, code, message);
    var body := env.children[0];
    assert env.children == [] + [body] + [];
    FindDescendantAfter(env, [], body, [], BodyTag);
    var fault := body.children[0];
    FirstWithTagAt(body.children, Clark(SoapTns(c), "Fault"), 0);
    FirstWithTagAt(fault.children, "faultcode", 0);
    assert "faultcode" != "faultstring";
    FirstWithTagAt(fault.children, "faultstring", 1);
    var t := Clark(SoapTns(c), "Fault");
    var e := Clark(SoapEnvelope, "Fault");
    if |t| == |e| {
      assert t[|t| - 7] == 'p';
      assert e[|e| - 7] == '/';
    }
    assert t != e;
  }
}
