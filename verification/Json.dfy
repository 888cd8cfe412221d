/** JSON values as far as the queue's `params` column needs them: text parsing is
    left out, a row carries the parsed value. */
module Json {
  import opened Prelude

  datatype Json =
    | JNull
    | JBool(b: bool)
    | JInt(n: int)
    | JStr(s: string)
    | JArr(items: seq<Json>)
    | JObj(fields: map<string, Json>)

  /** `v.get(key)`: absent unless `v` is an object with that key. */
  function Get(v: Json, key: string): Option<Json> {
    if v.JObj? && key in v.fields then Some(v.fields[key]) else None
  }

  function GetStr(v: Json, key: string, default: string): string {
    match Get(v, key)
    case Some(JStr(s)) => s
    case _ => default
  }

  function GetBool(v: Json, key: string, default: bool): bool {
    match Get(v, key)
    case Some(JBool(b)) => b
    case _ => default
  }

  function GetInt(v: Json, key: string, default: int): int {
    match Get(v, key)
    case Some(JInt(n)) => n
    case _ => default
  }

  /** SQLite's `json_extract(params, '$.key')` compared with an integer: JSON
      booleans come out as 0 and 1, everything else that is no number as no match. */
  function ExtractInt(v: Json, key: string): Option<int> {
    match Get(v, key)
    case Some(JInt(n)) => Some(n)
    case Some(JBool(b)) => Some(if b then 1 else 0)
    case _ => None
  }
}
