/** The JSON-like tree that `json.loads` returns for a cached route list. */
module Json {

  datatype Value =
    | Str(s: string)
    | Num(n: int)
    | Bool(b: bool)
    | Null
    | List(items: seq<Value>)
    | Obj(fields: seq<Field>)

  /** One key/value entry of a JSON object, in the object's key order. */
  datatype Field = Field(key: string, value: Value)
}
