/**
 * A value model of the Qt JSON objects the program reads and writes
 * (QJsonObject/QJsonValue/QJsonArray), without their byte serialisation.
 */
module Json {
  /** JSON numbers are held as integers: the program only stores and reads integral ones. */
  datatype JsonValue =
    | JString(str: string)
    | JNumber(num: int)
    | JBool(b: bool)
    | JNull
    | JArray(items: seq<JsonValue>)
    | JObject(fields: map<string, JsonValue>)

  type JsonObject = map<string, JsonValue>

  /** QJsonValue::toObject: the object held, or an empty object for any other value. */
  function ToObject(v: JsonValue): JsonObject {
    if v.JObject? then v.fields else map[]
  }

  /** `json.contains(key) && json[key].isString()`. */
  predicate HasString(o: JsonObject, key: string) {
    key in o && o[key].JString?
  }

  /** `json.contains(key) && json[key].isDouble()`. */
  predicate HasNumber(o: JsonObject, key: string) {
    key in o && o[key].JNumber?
  }
}
