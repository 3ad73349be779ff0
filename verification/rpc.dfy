/** The JSON-RPC codec of `echoer/_utils.py`: the draft-07 schema for an
    echo request, the three-stage `parse_rpc_echo_request`, and the error
    envelopes `rpc_endpoint` answers with.  The request shape is the Request
    object of section 4 of the JSON-RPC 2.0 specification, narrowed by the
    schema: `params` must be an array and `id` is required. */
module Rpc {
  import opened Wrappers
  import opened Json
  import opened JsonSchema
  import Assoc
  import Utf8

  /** `{"type": t}` */
  function OfType(t: JsonType): Schema {
    Keywords([Type(t)])
  }

  /** The six-way `anyOf` over every JSON type, used for the members of an
      array or object parameter. */
  const AnyJson: Schema :=
    Keywords([AnyOf([OfType(StringType), OfType(NumberType), OfType(BooleanType),
                     OfType(NullType), OfType(ObjectType), OfType(ArrayType)])])

  /** An array parameter whose elements may be anything. */
  const ArrayParam: Schema := Keywords([Type(ArrayType), Items(AnyJson)])

  /** An object parameter whose members may be anything. */
  const ObjectParam: Schema := Keywords([Type(ObjectType), AdditionalProperties(AnyJson)])

  /** A scalar parameter. */
  const ScalarParam: Schema :=
    Keywords([AnyOf([OfType(StringType), OfType(NumberType), OfType(BooleanType), OfType(NullType)])])

  /** The schema of one element of `params`. */
  const ParamItem: Schema := Keywords([AnyOf([ArrayParam, ObjectParam, ScalarParam])])

  const JsonrpcProperty: Schema := Keywords([Type(StringType), Const(JString("2.0"))])
  const MethodProperty: Schema := Keywords([Type(StringType), MinLength(1)])
  const ParamsProperty: Schema := Keywords([Type(ArrayType), MinItems(0), Items(ParamItem)])
  const IdProperty: Schema :=
    Keywords([AnyOf([OfType(IntegerType), OfType(StringType), OfType(NullType)])])

  /** `_json_rpc_schema`, keyword for keyword. */
  const RequestSchema: Schema :=
    Keywords([
      SchemaUri("http://json-schema.org/draft-07/schema#"),
      Type(ObjectType),
      Required(["jsonrpc", "method", "params", "id"]),
      AdditionalProperties(BoolSchema(false)),
      Properties([("jsonrpc", JsonrpcProperty), ("method", MethodProperty),
                  ("params", ParamsProperty), ("id", IdProperty)])
    ])

  /** Python's `int`, or a `float` without a fractional part. */
  predicate IsIntegerValue(v: Json) {
    v.JNumber? && IsIntegral(v.n)
  }

  /** What a member of an echo request may hold, by key; unknown keys are
      not allowed. */
  predicate RequestMember(key: string, v: Json) {
    if key == "jsonrpc" then v == JString("2.0")
    else if key == "method" then v.JString? && |v.s| >= 1
    else if key == "params" then v.JArray?
    else if key == "id" then IsIntegerValue(v) || v.JString? || v.JNull?
    else false
  }

  /** The echo request shape, stated directly: an object with exactly the
      members jsonrpc = "2.0", a non-empty string method, an array params of
      any values, and an integer, string or null id. */
  predicate IsEchoRequest(j: Json) {
    && j.JObject?
    && Assoc.HasKey(j.members, "jsonrpc")
    && Assoc.HasKey(j.members, "method")
    && Assoc.HasKey(j.members, "params")
    && Assoc.HasKey(j.members, "id")
    && forall m | 0 <= m < |j.members| :: RequestMember(j.members[m].0, j.members[m].1)
  }

  /** Every JSON value is one of the six types. */
  lemma AnyJsonAcceptsAll(j: Json)
    ensures Validate(AnyJson, j)
  {
    var opts := AnyJson.keywords[0].options;
    var o := if j.JString? then 0 else if j.JNumber? then 1 else if j.JBool? then 2
             else if j.JNull? then 3 else if j.JObject? then 4 else 5;
    assert Validate(opts[o], j) by {
      assert ValidKeyword(opts[o].keywords[0], opts[o].keywords, j);
    }
    assert ValidKeyword(AnyJson.keywords[0], AnyJson.keywords, j);
  }

  /** An array parameter admits every array. */
  lemma ArrayParamAcceptsArrays(j: Json)
    requires j.JArray?
    ensures Validate(ArrayParam, j)
  {
    forall i | 0 <= i < |j.items| ensures Validate(AnyJson, j.items[i]) {
      AnyJsonAcceptsAll(j.items[i]);
    }
    assert ValidKeyword(ArrayParam.keywords[0], ArrayParam.keywords, j);
    assert ValidKeyword(ArrayParam.keywords[1], ArrayParam.keywords, j);
  }

  /** An object parameter admits every object. */
  lemma ObjectParamAcceptsObjects(j: Json)
    requires j.JObject?
    ensures Validate(ObjectParam, j)
  {
    forall m | 0 <= m < |j.members| ensures Validate(AnyJson, j.members[m].1) {
      AnyJsonAcceptsAll(j.members[m].1);
    }
    assert ValidKeyword(ObjectParam.keywords[0], ObjectParam.keywords, j);
    assert ValidKeyword(ObjectParam.keywords[1], ObjectParam.keywords, j);
  }

  /** A scalar parameter admits every string, number, boolean and null. */
  lemma ScalarParamAcceptsScalars(j: Json)
    requires !j.JArray? && !j.JObject?
    ensures Validate(ScalarParam, j)
  {
    var sopts := ScalarParam.keywords[0].options;
    var o := if j.JString? then 0 else if j.JNumber? then 1 else if j.JBool? then 2 else 3;
    assert ValidKeyword(sopts[o].keywords[0], sopts[o].keywords, j);
    assert Validate(sopts[o], j);
    assert ValidKeyword(ScalarParam.keywords[0], ScalarParam.keywords, j);
  }

  /** The schema's three-way `anyOf` for `params` elements admits every JSON
      value, so `params` may be any array. */
  lemma ParamItemAcceptsAll(j: Json)
    ensures Validate(ParamItem, j)
  {
    AnyOf3Meaning(ArrayParam, ObjectParam, ScalarParam, j);
    if j.JArray? {
      ArrayParamAcceptsArrays(j);
    } else if j.JObject? {
      ObjectParamAcceptsObjects(j);
    } else {
      ScalarParamAcceptsScalars(j);
    }
  }

  lemma JsonrpcPropertyMeaning(v: Json)
    ensures Validate(JsonrpcProperty, v) <==> v == JString("2.0")
  {
    var ks := JsonrpcProperty.keywords;
    assert Validate(JsonrpcProperty, v) <==> ValidKeyword(ks[0], ks, v) && ValidKeyword(ks[1], ks, v);
  }

  lemma MethodPropertyMeaning(v: Json)
    ensures Validate(MethodProperty, v) <==> v.JString? && |v.s| >= 1
  {
    var ks := MethodProperty.keywords;
    assert Validate(MethodProperty, v) <==> ValidKeyword(ks[0], ks, v) && ValidKeyword(ks[1], ks, v);
  }

  lemma ParamsPropertyMeaning(v: Json)
    ensures Validate(ParamsProperty, v) <==> v.JArray?
  {
    var ks := ParamsProperty.keywords;
    assert Validate(ParamsProperty, v) <==>
      ValidKeyword(ks[0], ks, v) && ValidKeyword(ks[1], ks, v) && ValidKeyword(ks[2], ks, v);
    if v.JArray? {
      forall i | 0 <= i < |v.items| ensures Validate(ParamItem, v.items[i]) {
        ParamItemAcceptsAll(v.items[i]);
      }
    }
  }

  lemma OfTypeMeaning(t: JsonType, v: Json)
    ensures Validate(OfType(t), v) <==> HasType(v, t)
  {
    var ks := [Type(t)];
    assert Validate(OfType(t), v) <==> ValidKeyword(ks[0], ks, v);
  }

  /** A one-keyword `anyOf` schema holds when one of its options does. */
  lemma AnyOfMeaning(opts: seq<Schema>, v: Json)
    ensures Validate(Keywords([AnyOf(opts)]), v) <==> exists o | 0 <= o < |opts| :: Validate(opts[o], v)
  {
    var ks := [AnyOf(opts)];
    assert Validate(Keywords(ks), v) <==> ValidKeyword(ks[0], ks, v);
  }

  /** A three-option `anyOf` holds when one of the three does. */
  lemma AnyOf3Meaning(a: Schema, b: Schema, c: Schema, v: Json)
    ensures Validate(Keywords([AnyOf([a, b, c])]), v) <==> Validate(a, v) || Validate(b, v) || Validate(c, v)
  {
    var opts := [a, b, c];
    AnyOfMeaning(opts, v);
    if Validate(a, v) || Validate(b, v) || Validate(c, v) {
      var o := if Validate(a, v) then 0 else if Validate(b, v) then 1 else 2;
      assert Validate(opts[o], v);
    }
  }

  lemma IdPropertyMeaning(v: Json)
    ensures Validate(IdProperty, v) <==> IsIntegerValue(v) || v.JString? || v.JNull?
  {
    AnyOf3Meaning(OfType(IntegerType), OfType(StringType), OfType(NullType), v);
    OfTypeMeaning(IntegerType, v);
    OfTypeMeaning(StringType, v);
    OfTypeMeaning(NullType, v);
  }

  /** Each declared property's schema, read as a condition on the value. */
  lemma PropertyMeaning(key: string, v: Json, p: nat)
    requires p < 4 && RequestSchema.keywords[4].props[p].0 == key
    ensures Validate(RequestSchema.keywords[4].props[p].1, v) <==> RequestMember(key, v)
  {
    if p == 0 { JsonrpcPropertyMeaning(v); }
    else if p == 1 { MethodPropertyMeaning(v); }
    else if p == 2 { ParamsPropertyMeaning(v); }
    else { IdPropertyMeaning(v); }
  }

  /** The four member names of an echo request. */
  predicate IsRequestKey(key: string) {
    key == "jsonrpc" || key == "method" || key == "params" || key == "id"
  }

  lemma DeclaredRequestKeys(key: string)
    ensures DeclaredProperty(RequestSchema.keywords, key) <==> IsRequestKey(key)
  {
    var ks := RequestSchema.keywords;
    if IsRequestKey(key) {
      var p := if key == "jsonrpc" then 0 else if key == "method" then 1
               else if key == "params" then 2 else 3;
      assert ks[4].Properties? && ks[4].props[p].0 == key;
    }
  }

  /** `additionalProperties: false` admits only the declared names. */
  lemma NoAdditionalMeaning(j: Json)
    requires j.JObject?
    ensures ValidKeyword(RequestSchema.keywords[3], RequestSchema.keywords, j)
            <==> forall m | 0 <= m < |j.members| :: IsRequestKey(j.members[m].0)
  {
    var ks := RequestSchema.keywords;
    forall m | 0 <= m < |j.members|
      ensures DeclaredProperty(ks, j.members[m].0) <==> IsRequestKey(j.members[m].0)
    {
      DeclaredRequestKeys(j.members[m].0);
    }
  }

  /** `properties` checks each declared member against its own schema. */
  lemma PropertiesMeaning(j: Json)
    requires j.JObject?
    ensures ValidKeyword(RequestSchema.keywords[4], RequestSchema.keywords, j)
            <==> forall m | 0 <= m < |j.members| && IsRequestKey(j.members[m].0) ::
                   RequestMember(j.members[m].0, j.members[m].1)
  {
    var ks := RequestSchema.keywords;
    var props := ks[4].props;
    var ms := j.members;
    forall m, p | 0 <= m < |ms| && 0 <= p < |props| && props[p].0 == ms[m].0
      ensures Validate(props[p].1, ms[m].1) <==> RequestMember(ms[m].0, ms[m].1)
    {
      PropertyMeaning(ms[m].0, ms[m].1, p);
    }
    forall m | 0 <= m < |ms| && IsRequestKey(ms[m].0)
      ensures exists p :: 0 <= p < |props| && props[p].0 == ms[m].0
    {
      var key := ms[m].0;
      var p := if key == "jsonrpc" then 0 else if key == "method" then 1
               else if key == "params" then 2 else 3;
      assert props[p].0 == key;
    }
  }

  /** `required` asks for all four names. */
  lemma RequiredMeaning(j: Json)
    requires j.JObject?
    ensures ValidKeyword(RequestSchema.keywords[2], RequestSchema.keywords, j)
            <==> Assoc.HasKey(j.members, "jsonrpc") && Assoc.HasKey(j.members, "method")
                 && Assoc.HasKey(j.members, "params") && Assoc.HasKey(j.members, "id")
  {
    var names := RequestSchema.keywords[2].names;
    assert names[0] == "jsonrpc" && names[1] == "method" && names[2] == "params" && names[3] == "id";
  }

  /** The schema, as the `jsonschema` package applies it, accepts exactly
      the echo requests. */
  lemma RequestSchemaMeaning(j: Json)
    ensures Validate(RequestSchema, j) <==> IsEchoRequest(j)
  {
    RequestSchemaKeywords(j);
    if j.JObject? {
      RequiredMeaning(j);
      NoAdditionalMeaning(j);
      PropertiesMeaning(j);
      RequestMembersMeaning(j.members);
    }
  }

  /** The request schema holds when its `type`, `required`,
      `additionalProperties` and `properties` keywords do. */
  lemma RequestSchemaKeywords(j: Json)
    ensures var ks := RequestSchema.keywords;
            Validate(RequestSchema, j) <==>
              j.JObject? && ValidKeyword(ks[2], ks, j) && ValidKeyword(ks[3], ks, j) && ValidKeyword(ks[4], ks, j)
  {
    var ks := RequestSchema.keywords;
    FiveKeywords(ks, j);
    assert ValidKeyword(ks[0], ks, j) && (ValidKeyword(ks[1], ks, j) <==> j.JObject?);
  }

  /** A schema of five keywords holds when each of them does. */
  lemma FiveKeywords(ks: seq<Keyword>, j: Json)
    requires |ks| == 5
    ensures Validate(Keywords(ks), j) <==>
      ValidKeyword(ks[0], ks, j) && ValidKeyword(ks[1], ks, j) && ValidKeyword(ks[2], ks, j)
      && ValidKeyword(ks[3], ks, j) && ValidKeyword(ks[4], ks, j)
  {
  }

  /** Members are all allowed exactly when every name is one of the four
      and every one of the four holds an allowed value. */
  lemma RequestMembersMeaning(ms: seq<(string, Json)>)
    ensures (forall m | 0 <= m < |ms| :: RequestMember(ms[m].0, ms[m].1)) <==>
            (forall m | 0 <= m < |ms| :: IsRequestKey(ms[m].0)) &&
            (forall m | 0 <= m < |ms| && IsRequestKey(ms[m].0) :: RequestMember(ms[m].0, ms[m].1))
  {
  }

  /** The exception each stage of `parse_rpc_echo_request` raises. */
  datatype ParseError =
    | UnicodeDecodeError(position: nat)   // rbody.decode("UTF-8")
    | JsonDecodeError                     // json.loads
    | ValidationError                     // jsonschema.validate

  /** `parse_rpc_echo_request(rbody)`: decode, parse, validate, and return
      the parsed value itself.  `loads` stands for `json.loads`, None where
      it raises.  The debug logging between the stages is not modelled. */
  function ParseRpcEchoRequest(rbody: seq<Utf8.byte>, loads: string -> Option<Json>): (r: Result<Json, ParseError>)
    ensures r.Failure? && r.error.UnicodeDecodeError? <==> !Utf8.Valid(rbody)
    ensures Utf8.Valid(rbody) ==>
      var text := Utf8.Decode(rbody).value;
      && Utf8.Encode(text) == rbody
      && (r == Failure(JsonDecodeError) <==> loads(text).None?)
      && (r.Success? <==> loads(text).Some? && IsEchoRequest(loads(text).value))
      && (r.Success? ==> r.value == loads(text).value)
  {
    match Utf8.Decode(rbody)
    case Failure(e) => Failure(UnicodeDecodeError(e.position))
    case Success(text) =>
      Utf8.EncodeDecode(rbody);
      match loads(text)
      case None => Failure(JsonDecodeError)
      case Some(j) =>
        RequestSchemaMeaning(j);
        if Validate(RequestSchema, j) then Success(j) else Failure(ValidationError)
  }

  const MethodNotFoundCode: int := -32601
  const InvalidRequestCode: int := -32600

  /** The error object of the method-not-found envelope. */
  const MethodNotFoundError: Json :=
    JObject([("code", Int(MethodNotFoundCode)), ("message", JString("Method not found"))])

  /** The envelope `rpc_endpoint` answers an unknown method with. */
  function MethodNotFound(id: Json): Json {
    JObject([("jsonrpc", JString("2.0")), ("error", MethodNotFoundError), ("id", id)])
  }

  /** The envelope of `rpc_endpoint`'s `ValueError` branch: the id sits
      inside the error object and there is no top-level id. */
  function InvalidRequest(id: Json): Json {
    JObject([("jsonrpc", JString("2.0")),
             ("error", JObject([("code", Int(InvalidRequestCode)), ("message", JString("Invalid request")),
                                ("id", id)]))])
  }

  /** An id as section 4 of JSON-RPC 2.0 allows it: string, number or null. */
  predicate IsIdValue(v: Json) {
    v.JString? || v.JNumber? || v.JNull?
  }

  /** The error object of section 5.1 of JSON-RPC 2.0: an integer code, a
      string message and optionally data, nothing else. */
  predicate IsErrorObject(e: Json) {
    && e.JObject?
    && Assoc.DistinctKeys(e.members)
    && (forall m | 0 <= m < |e.members| :: e.members[m].0 in {"code", "message", "data"})
    && Field(e, "code").Some? && IsIntegerValue(Field(e, "code").value)
    && Field(e, "message").Some? && Field(e, "message").value.JString?
  }

  /** An error Response object of section 5 of JSON-RPC 2.0: exactly the
      members jsonrpc = "2.0", error and id. */
  predicate IsErrorResponse(j: Json) {
    && j.JObject?
    && Assoc.DistinctKeys(j.members)
    && |j.members| == 3
    && Field(j, "jsonrpc") == Some(JString("2.0"))
    && Field(j, "error").Some? && IsErrorObject(Field(j, "error").value)
    && Field(j, "id").Some? && IsIdValue(Field(j, "id").value)
  }

  /** The code and message of an error response. */
  function ErrorOf(j: Json): Option<(Json, Json)> {
    match Field(j, "error")
    case Some(e) =>
      if Field(e, "code").Some? && Field(e, "message").Some?
      then Some((Field(e, "code").value, Field(e, "message").value)) else None
    case None => None
  }

  /** The method-not-found envelope carries code -32601 and echoes the
      request's id; it is a well-formed JSON-RPC 2.0 error response exactly
      when that id is one section 4 allows. */
  lemma MethodNotFoundConforms(id: Json)
    ensures IsErrorResponse(MethodNotFound(id)) <==> IsIdValue(id)
    ensures ErrorOf(MethodNotFound(id)) == Some((Int(-32601), JString("Method not found")))
    ensures Field(MethodNotFound(id), "id") == Some(id)
  {
    Object3("jsonrpc", JString("2.0"), "error", MethodNotFoundError, "id", id);
    MethodNotFoundErrorObject();
  }

  lemma MethodNotFoundErrorObject()
    ensures IsErrorObject(MethodNotFoundError)
    ensures Field(MethodNotFoundError, "code") == Some(Int(-32601))
    ensures Field(MethodNotFoundError, "message") == Some(JString("Method not found"))
  {
    assert IsIntegral(Decimal(MethodNotFoundCode, 0));
    Object2("code", Int(MethodNotFoundCode), "message", JString("Method not found"));
  }

  /** The invalid-request envelope is not a JSON-RPC 2.0 response: it has no
      top-level id, and its error object carries one instead. */
  lemma InvalidRequestShape(id: Json)
    ensures !IsErrorResponse(InvalidRequest(id))
    ensures Field(InvalidRequest(id), "id").None?
    ensures KeysOf(InvalidRequest(id)) == ["jsonrpc", "error"]
    ensures ErrorOf(InvalidRequest(id)) == Some((Int(-32600), JString("Invalid request")))
    ensures Field(Field(InvalidRequest(id), "error").value, "id") == Some(id)
  {
    var e := JObject([("code", Int(InvalidRequestCode)), ("message", JString("Invalid request")), ("id", id)]);
    Object2("jsonrpc", JString("2.0"), "error", e);
    Object3("code", Int(InvalidRequestCode), "message", JString("Invalid request"), "id", id);
  }

  /** The success envelope `rpc_endpoint` builds once the method returns. */
  function ResultResponse(result: Json, id: Json): Json {
    JObject([("jsonrpc", JString("2.0")), ("result", result), ("id", id)])
  }

  /** A success Response object of section 5 of JSON-RPC 2.0: exactly the
      members jsonrpc = "2.0", result and id. */
  predicate IsResultResponse(j: Json) {
    && j.JObject?
    && Assoc.DistinctKeys(j.members)
    && |j.members| == 3
    && Field(j, "jsonrpc") == Some(JString("2.0"))
    && Field(j, "result").Some?
    && Field(j, "id").Some? && IsIdValue(Field(j, "id").value)
  }

  /** The success envelope carries the method's return value and the
      request's id, is never an error response, and is a well-formed
      JSON-RPC 2.0 response exactly when the id is one section 4 allows. */
  lemma ResultResponseConforms(result: Json, id: Json)
    ensures IsResultResponse(ResultResponse(result, id)) <==> IsIdValue(id)
    ensures !IsErrorResponse(ResultResponse(result, id))
    ensures Field(ResultResponse(result, id), "result") == Some(result)
    ensures Field(ResultResponse(result, id), "id") == Some(id)
  {
    Object3("jsonrpc", JString("2.0"), "result", result, "id", id);
    ResultResponseHasNoError(result, id);
  }

  lemma ResultResponseHasNoError(result: Json, id: Json)
    ensures Field(ResultResponse(result, id), "error").None?
  {
    var ms := ResultResponse(result, id).members;
    assert !Assoc.HasKey(ms, "error") by {
      forall i | 0 <= i < |ms| ensures ms[i].0 != "error" { }
    }
  }
}
