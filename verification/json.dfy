/** JavaScript values as they arrive in a request body or come out of
    `JSON.parse`, with JavaScript truthiness and property access. */
module Json {
  import opened Wrappers

  datatype Value =
    | Null
    | Bool(b: bool)
    | Number(n: real)
    | Str(s: string)
    | Array(items: seq<Value>)
    | Object(props: map<string, Value>)

  /** JavaScript truthiness: `null`, `false`, `0`, `""` are falsy;
      arrays and objects are truthy even when empty. */
  predicate Truthy(v: Value) {
    match v
    case Null => false
    case Bool(b) => b
    case Number(n) => n != 0.0
    case Str(s) => s != ""
    case Array(_) => true
    case Object(_) => true
  }

  /** Truthiness of a value that may be `undefined`. */
  predicate TruthyOpt(v: Option<Value>) {
    v.Some? && Truthy(v.value)
  }

  /** Property access `v[key]` on a non-null value: `undefined` unless `v`
      is an object holding the key. (On `null` the access throws; callers
      test for `Null` first.) */
  function Get(v: Value, key: string): Option<Value> {
    if v.Object? && key in v.props then Some(v.props[key]) else None
  }
}
