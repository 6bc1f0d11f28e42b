/** The JSON values that `JSON.parse` can produce. Parsing itself is not modelled here:
    every operation that parses takes the parser as a parameter. */
module Json {

  datatype Json =
    | JNull
    | JBool(b: bool)
    | JNumber(n: int)
    | JString(s: string)
    | JArray(items: seq<Json>)
    | JObject(fields: seq<(string, Json)>)
}
