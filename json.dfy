/**
  The part of QJsonValue / QJsonObject that the protocol relies on: values,
  keyed lookup that yields Undefined for a missing key, insertion, and the
  converting accessors with their defaults.
*/
module Json {
  import opened Platform

  datatype JsonValue =
    | Undefined
    | Null
    | Bool(b: bool)
    | Number(n: real)
    | Str(s: string)
    | Array(items: seq<JsonValue>)
    | Object(fields: JsonObject)

  type JsonObject = map<string, JsonValue>

  /** `object[key]` on a const object: the stored value, or Undefined. */
  function Get(o: JsonObject, key: string): JsonValue {
    if key in o then o[key] else Undefined
  }

  /**
    `object[key] = value`. Storing Undefined removes the key, so a later
    lookup still yields exactly the stored value.
  */
  function Set(o: JsonObject, key: string, value: JsonValue): (r: JsonObject)
    ensures Get(r, key) == value
    ensures forall k :: k != key ==> Get(r, k) == Get(o, k)
    ensures r.Keys == if value.Undefined? then o.Keys - {key} else o.Keys + {key}
  {
    if value.Undefined? then o - {key} else o[key := value]
  }

  /** QJsonValue::toString(): the text of a string value, otherwise "". */
  function ToString(v: JsonValue): string {
    if v.Str? then v.s else ""
  }

  /** QJsonValue::toObject(): the members of an object value, otherwise {}. */
  function ToObject(v: JsonValue): JsonObject {
    if v.Object? then v.fields else map[]
  }

  /** QJsonValue::toDouble(default). */
  function ToDouble(v: JsonValue, default: real): real {
    if v.Number? then v.n else default
  }

  /** True when a number is whole and fits in an `int`. */
  predicate IsInt32(n: real) {
    n == n.Floor as real && -0x8000_0000 <= n.Floor < 0x8000_0000
  }

  /** QJsonValue::toInt(default): a whole number that fits in an int, otherwise the default. */
  function ToInt(v: JsonValue, default: Int32): (r: Int32)
    ensures v.Number? && IsInt32(v.n) ==> r as real == v.n
    ensures !(v.Number? && IsInt32(v.n)) ==> r == default
  {
    if v.Number? && IsInt32(v.n) then v.n.Floor else default
  }

  /** QJsonValue(int): ints are stored as doubles. */
  function FromInt(i: Int32): (v: JsonValue)
    ensures ToInt(v, 0) == i
  {
    Number(i as real)
  }
}
