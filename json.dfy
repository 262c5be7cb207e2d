/**
 * The parse tree the JSON library hands to the reader (JSONObject, JSONArray,
 * String, Long, Boolean, null), and field access as the reader performs it.
 */
module Json {
  import opened Wrappers

  /** A parsed JSON value. Numbers are the integers the parser returns as Java longs. */
  datatype JValue =
    | JNull
    | JBool(b: bool)
    | JInt(n: int)
    | JString(s: string)
    | JArray(items: seq<JValue>)
    | JObject(fields: map<string, JValue>)

  /** The members of a JSON object. */
  type JMap = map<string, JValue>

  /**
   * JSONObject.get: the value stored under key. A missing key and a key bound
   * to JSON null both read as absent (Java null).
   */
  function Get(obj: JMap, key: string): Option<JValue>
  {
    if key in obj && obj[key] != JNull then Some(obj[key]) else None
  }

  /** The cast (JSONObject) obj.get(key) does not throw. */
  predicate ObjectCastOk(obj: JMap, key: string)
  {
    Get(obj, key).None? || Get(obj, key).value.JObject?
  }

  /** The cast (JSONArray) obj.get(key) does not throw. */
  predicate ArrayCastOk(obj: JMap, key: string)
  {
    Get(obj, key).None? || Get(obj, key).value.JArray?
  }

  /** The cast (String) obj.get(key) does not throw. */
  predicate StringCastOk(obj: JMap, key: string)
  {
    Get(obj, key).None? || Get(obj, key).value.JString?
  }

  /** (JSONObject) obj.get(key); a value of another type reads as absent. */
  function GetObject(obj: JMap, key: string): (r: Option<JMap>)
    ensures r.Some? ==> key in obj && obj[key] == JObject(r.value)
    ensures ObjectCastOk(obj, key) ==> (r.Some? <==> Get(obj, key).Some?)
  {
    match Get(obj, key)
    case Some(JObject(fields)) => Some(fields)
    case _ => None
  }

  /** (JSONArray) obj.get(key); a value of another type reads as absent. */
  function GetArray(obj: JMap, key: string): (r: Option<seq<JValue>>)
    ensures r.Some? ==> key in obj && obj[key] == JArray(r.value)
    ensures ArrayCastOk(obj, key) ==> (r.Some? <==> Get(obj, key).Some?)
  {
    match Get(obj, key)
    case Some(JArray(items)) => Some(items)
    case _ => None
  }

  /** (String) obj.get(key); a value of another type reads as absent. */
  function GetString(obj: JMap, key: string): (r: Option<string>)
    ensures r.Some? ==> key in obj && obj[key] == JString(r.value)
    ensures StringCastOk(obj, key) ==> (r.Some? <==> Get(obj, key).Some?)
  {
    match Get(obj, key)
    case Some(JString(s)) => Some(s)
    case _ => None
  }
}
