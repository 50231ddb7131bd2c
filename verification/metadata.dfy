/** The value side of a parsed doc.json: what Jackson hands back for each key. */
module Metadata {
  import opened Failures

  /**
   * A raw metadata value. `Null` is both a JSON null and the value a copy rule
   * stores when its source key is absent. Numbers, arrays and objects carry
   * the text their Java `toString()` produces; their formatting is Jackson's
   * and Java's, not this model's.
   */
  datatype Value =
    | Null
    | Str(s: string)
    | Bool(b: bool)
    | Number(javaText: string)
    | Nested(javaText: string)

  /** The document's field-name to raw-value mapping. */
  type Metadata = map<string, Value>

  /** `HashMap.get`: the stored value, or null when the key is absent. */
  function Lookup(m: Metadata, key: string): Value {
    if key in m then m[key] else Null
  }

  /** `value.toString()`; None where Java throws a NullPointerException. */
  function JavaString(v: Value): Option<string> {
    match v
    case Null => None
    case Str(s) => Some(s)
    case Bool(b) => Some(if b then "true" else "false")
    case Number(t) => Some(t)
    case Nested(t) => Some(t)
  }
}
