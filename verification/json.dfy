/** The parsed JSON tree the navigator walks (Newtonsoft `JToken`s). Only a
    property's name matters to the position record; the rest of the tree is
    carried along unread. */
module Json {

  datatype JsonValue =
    | JNull
    | JBool(b: bool)
    | JNumber(text: string)
    | JString(s: string)
    | JArray(items: seq<JsonValue>)
    | JObject(properties: seq<Property>)

  /** A `JProperty`: a named value inside a JSON object. `handle` stands for
      the object's reference identity, so that two distinct properties may
      carry the same name and value. */
  datatype Property = Property(handle: nat, name: string, value: JsonValue)
}
