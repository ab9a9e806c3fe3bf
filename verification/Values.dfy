/** Decoded YAML/JSON values and the usual result types. */
module Values {

  datatype Value =
    | Scalar(text: string)
    | List(items: seq<Value>)
    | Map(fields: map<string, Value>)

  type Vars = map<string, Value>

  datatype Option<+T> = None | Some(value: T)

  datatype Result<+T, +E> = Ok(value: T) | Err(error: E)
}
