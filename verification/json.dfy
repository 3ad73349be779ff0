/** JSON values as Python's `json.loads` produces them and `json.dumps`
    consumes them.  Text parsing and serialisation are outside this model;
    where the code turns a value into text, the serialiser is a parameter. */
module Json {
  import opened Wrappers
  import Assoc

  /** A JSON number, kept exactly: mantissa * 10^exponent.  `1` and `1.0`
      are different representations of the same value, just as Python
      reads them as an `int` and a `float`. */
  datatype Decimal = Decimal(mantissa: int, exponent: int)

  /** A JSON value.  An object's members are in insertion order; objects
      produced by the parser have distinct keys (they are Python dicts). */
  datatype Json =
    | JNull
    | JBool(b: bool)
    | JNumber(n: Decimal)
    | JString(s: string)
    | JArray(items: seq<Json>)
    | JObject(members: seq<(string, Json)>)

  function Pow10(k: nat): (p: nat)
    ensures p >= 1
  {
    if k == 0 then 1 else 10 * Pow10(k - 1)
  }

  /** The number has no fractional part (Python's `float.is_integer()`, or
      an `int`). */
  predicate IsIntegral(d: Decimal) {
    d.exponent >= 0 || d.mantissa % Pow10(-d.exponent) == 0
  }

  /** An integer as the JSON number the parser reads from its digits. */
  function Int(i: int): Json {
    JNumber(Decimal(i, 0))
  }

  /** JSON `null` for `None`, a JSON string otherwise. */
  function StringOrNull(s: Option<string>): Json {
    match s
    case None => JNull
    case Some(v) => JString(v)
  }

  /** The keys of an object, in order; empty for every other value. */
  function KeysOf(j: Json): seq<string> {
    if j.JObject? then Assoc.Keys(j.members) else []
  }

  /** `j[key]` for an object holding `key`, None otherwise. */
  function Field(j: Json, key: string): Option<Json> {
    if j.JObject? then Assoc.Lookup(j.members, key) else None
  }

  /** An object of two differently named members: its names in order and
      the value under each. */
  lemma Object2(k0: string, v0: Json, k1: string, v1: Json)
    requires k0 != k1
    ensures Assoc.DistinctKeys([(k0, v0), (k1, v1)])
    ensures KeysOf(JObject([(k0, v0), (k1, v1)])) == [k0, k1]
    ensures Field(JObject([(k0, v0), (k1, v1)]), k0) == Some(v0)
    ensures Field(JObject([(k0, v0), (k1, v1)]), k1) == Some(v1)
  {
    var ms := [(k0, v0), (k1, v1)];
    Assoc.LookupDistinct(ms, 0);
    Assoc.LookupDistinct(ms, 1);
  }

  /** The same for three differently named members. */
  lemma Object3(k0: string, v0: Json, k1: string, v1: Json, k2: string, v2: Json)
    requires k0 != k1 && k0 != k2 && k1 != k2
    ensures Assoc.DistinctKeys([(k0, v0), (k1, v1), (k2, v2)])
    ensures KeysOf(JObject([(k0, v0), (k1, v1), (k2, v2)])) == [k0, k1, k2]
    ensures Field(JObject([(k0, v0), (k1, v1), (k2, v2)]), k0) == Some(v0)
    ensures Field(JObject([(k0, v0), (k1, v1), (k2, v2)]), k1) == Some(v1)
    ensures Field(JObject([(k0, v0), (k1, v1), (k2, v2)]), k2) == Some(v2)
  {
    var ms := [(k0, v0), (k1, v1), (k2, v2)];
    Assoc.LookupDistinct(ms, 0);
    Assoc.LookupDistinct(ms, 1);
    Assoc.LookupDistinct(ms, 2);
  }
}
