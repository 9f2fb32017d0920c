/** A decoded JSON document, as the serializer's decoder hands it over. */
module Json {

  /** One JSON value. Numbers are kept as integers; their exact form never
      matters to the controller, which only moves them around. */
  datatype Value =
    | Null
    | Bool(b: bool)
    | Number(n: int)
    | Str(s: string)
    | List(items: seq<Value>)
    | Object(members: map<string, Value>)
}
