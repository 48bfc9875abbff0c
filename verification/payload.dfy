/** The JSON values a request body is parsed into, as far as the validators look at them. */
module Payload {
  import opened Results

  /** A JSON value; arrays and objects nested in a field are never looked into. */
  datatype Json = JNull | JBool(b: bool) | JNum(n: real) | JStr(s: string) | JArray | JObject

  /** A request body: validators accept only an object, whose keys map to values. */
  datatype Body = NotAnObject | Object(fields: map<string, Json>)

  /** The field `key` when it is present and a string; `None` when it is absent or of another JSON type. */
  function StringField(body: Body, key: string): Option<string>
  {
    if body.Object? && key in body.fields && body.fields[key].JStr? then Some(body.fields[key].s) else None
  }

  /** The field `key` when it is present and a number. */
  function NumberField(body: Body, key: string): Option<real>
  {
    if body.Object? && key in body.fields && body.fields[key].JNum? then Some(body.fields[key].n) else None
  }

  /** True when `key` is not present at all (JavaScript `undefined`). */
  predicate Absent(body: Body, key: string)
  {
    body.Object? && key !in body.fields
  }
}
