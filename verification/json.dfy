/** Decoded JSON documents. Decoding itself (Python's `json.loads`) is not
    modelled: callers receive it as a partial function from text to `Value`. */
module Json {

  /** A JSON value; numbers keep their source text, objects are Python dicts. */
  datatype Value =
    | Null
    | Bool(b: bool)
    | Number(text: string)
    | Str(s: string)
    | Array(items: seq<Value>)
    | Object(members: map<string, Value>)

  /** The exception `json.loads` raises on text that is not JSON. */
  datatype DecodeFailure = JsonDecodeError
}
