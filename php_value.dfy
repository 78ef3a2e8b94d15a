/** PHP values as they pass through the cache repository, and the serializer pair. */
module PhpValue {

  /** The PHP values a caller caches and a store returns. `Null` is also what
      the store answers for a key it does not hold. Floats and objects are not
      values of this model. */
  datatype Value =
    | Null
    | Bool(b: bool)
    | Int(i: int)
    | Str(s: string)
    | Arr(entries: seq<(Value, Value)>)

  /** `! is_null($v) ? $v : value($default)`: a null result falls back to the default. */
  function OrDefault(v: Value, default: Value): (r: Value)
    ensures r == v || r == default
    ensures !v.Null? ==> r == v
    ensures r.Null? <==> v.Null? && default.Null?
  {
    if v.Null? then default else v
  }

  /** PHP's `serialize` and `unserialize`, which this model does not look inside. */
  datatype Codec = Codec(serialize: Value -> string, unserialize: string -> Value)

  /** The one law the repository relies on: unserializing a serialization gives the value back. */
  ghost predicate RoundTrips(c: Codec) {
    forall v :: c.unserialize(c.serialize(v)) == v
  }
}
