/**
 * The JSON values the auction services read from request bodies and broker
 * messages, Python's truthiness on them, and the event envelope the gateways
 * put on a client's stream queue.
 */
module Json {
  /** A decoded JSON scalar. Lists, objects and floats are not modelled. */
  datatype Json = JNull | JBool(b: bool) | JInt(i: int) | JStr(s: string)

  /** A decoded JSON object (a Python dict with string keys). */
  type Object = map<string, Json>

  /** Python's `bool(x)`: None, False, 0 and "" are falsy. */
  predicate Truthy(j: Json)
  {
    match j
    case JNull => false
    case JBool(b) => b
    case JInt(i) => i != 0
    case JStr(s) => s != ""
  }

  /** `d.get(key)`: the value under `key`, or None when the key is absent. */
  function Get(d: Object, key: string): Json
  {
    if key in d then d[key] else JNull
  }

  /** The event a gateway puts on a stream queue: `{"type": routing_key, "data": message}`. */
  datatype Event = Event(kind: string, data: Object)
}
