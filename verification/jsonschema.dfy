/** The part of JSON Schema draft-07 validation (sections 6.1, 6.3, 6.4, 6.5
    and 6.7 of the draft-07 validation specification) that the JSON-RPC
    request schema uses, as the `jsonschema` package applies it.  A keyword
    constrains only instances of the kind it is about and accepts every
    other instance. */
module JsonSchema {
  import opened Json
  import Assoc

  /** The primitive types of the `type` keyword. */
  datatype JsonType = ObjectType | ArrayType | StringType | NumberType | IntegerType | BooleanType | NullType

  /** A schema: `true`/`false`, or an object of keywords. */
  datatype Schema =
    | BoolSchema(accept: bool)
    | Keywords(keywords: seq<Keyword>)

  datatype Keyword =
    | SchemaUri(uri: string)                     // "$schema": an annotation, validates nothing
    | Type(t: JsonType)                          // section 6.1.1
    | Const(value: Json)                         // section 6.1.3
    | MinLength(min: nat)                        // section 6.3.2
    | Items(item: Schema)                        // section 6.4.1, single-schema form
    | MinItems(min: nat)                         // section 6.4.4
    | Required(names: seq<string>)               // section 6.5.3
    | Properties(props: seq<(string, Schema)>)   // section 6.5.4
    | AdditionalProperties(extra: Schema)        // section 6.5.6
    | AnyOf(options: seq<Schema>)                // section 6.7.2

  /** Instance type test.  `number` excludes booleans and `integer` is any
      number without a fractional part, as in the `jsonschema` package's
      draft-07 type checker. */
  predicate HasType(j: Json, t: JsonType) {
    match t
    case ObjectType => j.JObject?
    case ArrayType => j.JArray?
    case StringType => j.JString?
    case NumberType => j.JNumber?
    case IntegerType => j.JNumber? && IsIntegral(j.n)
    case BooleanType => j.JBool?
    case NullType => j.JNull?
  }

  /** The names that a `properties` keyword among the siblings declares. */
  predicate DeclaredProperty(siblings: seq<Keyword>, name: string) {
    exists k, p :: 0 <= k < |siblings| && siblings[k].Properties? &&
      0 <= p < |siblings[k].props| && siblings[k].props[p].0 == name
  }

  /** The instance is valid against the schema. */
  predicate Validate(s: Schema, j: Json)
    decreases s
  {
    match s
    case BoolSchema(b) => b
    case Keywords(kws) => forall i | 0 <= i < |kws| :: ValidKeyword(kws[i], kws, j)
  }

  /** The instance satisfies one keyword; `siblings` are the keywords of the
      same schema object, which `additionalProperties` consults. */
  predicate ValidKeyword(k: Keyword, siblings: seq<Keyword>, j: Json)
    decreases k
  {
    match k
    case SchemaUri(_) => true
    case Type(t) => HasType(j, t)
    case Const(v) => j == v
    case MinLength(n) => j.JString? ==> |j.s| >= n
    case Items(sub) => j.JArray? ==> forall i | 0 <= i < |j.items| :: Validate(sub, j.items[i])
    case MinItems(n) => j.JArray? ==> |j.items| >= n
    case Required(names) => j.JObject? ==> forall n | 0 <= n < |names| :: Assoc.HasKey(j.members, names[n])
    case Properties(props) =>
      j.JObject? ==>
        forall m, p | 0 <= m < |j.members| && 0 <= p < |props| && props[p].0 == j.members[m].0 ::
          Validate(props[p].1, j.members[m].1)
    case AdditionalProperties(extra) =>
      j.JObject? ==>
        forall m | 0 <= m < |j.members| && !DeclaredProperty(siblings, j.members[m].0) ::
          Validate(extra, j.members[m].1)
    case AnyOf(opts) => exists o | 0 <= o < |opts| :: Validate(opts[o], j)
  }
}
