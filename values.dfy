/**
 * The loosely typed JavaScript values the engine passes around: session specs,
 * rule parameter bags and telemetry payloads. An object is a map from key to
 * value; a key that is absent stands for `undefined`.
 */
module Values {

  datatype Value =
    | Null
    | Bool(b: bool)
    | Num(n: real)
    | Str(s: string)
    | Arr(items: seq<Value>)
    | Obj(fields: map<string, Value>)

  /** An object literal with no keys, `{}`. */
  const EmptyObject: Value := Obj(map[])
}
