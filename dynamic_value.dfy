/**
 * The dynamic value every parameter is converted into (the JSON-like `IValue`
 * of the ijson crate). Its encoding rules belong to the encoder, which the
 * model keeps as a function parameter; only the string constructor, used by
 * the infallible `String -> IValue` conversion, carries meaning here.
 */
module DynamicValue {

  datatype Value =
    | Null
    | Bool(b: bool)
    | Number(n: int)
    | Str(s: string)
    | Array(items: seq<Value>)
    | Object(entries: seq<(string, Value)>)
}
