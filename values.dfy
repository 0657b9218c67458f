/**
 * The value tree shared by the decoder's output and the encoder's input.
 * It stands for the Go values the codec handles: `nil`, `bool`, numbers,
 * `string`, slices and arrays, maps, and the kinds the encoder refuses.
 */
module Values {
  import opened Lexical

  /** Go kinds that have no Rison form (structs reached directly, channels, functions, complex numbers, raw pointers). */
  datatype ForeignKind = Struct | Chan | Func | Complex | Uintptr | UnsafePointer

  /**
   * A map key. The decoder only makes string keys; a Go map whose key type
   * is not `string` has `OtherKey`s, named here by their printed form.
   */
  datatype Key = StringKey(name: bytes) | OtherKey(printed: bytes)

  datatype Value =
    | Null                               // nil pointer or interface, JSON null
    | Bool(b: bool)
    | Number(text: bytes)                // the number's text, not its float64 value
    | String(s: bytes)
    | Array(items: seq<Value>)           // slice or array
    | Object(fields: map<Key, Value>)    // map
    | Unsupported(kind: ForeignKind)

  /** The reflect kind the encoder sees for a value; `Null` at the root has kind Invalid. */
  datatype Kind =
    | InvalidKind | BoolKind | NumberKind | StringKind | MapKind | SliceKind
    | ForeignKindOf(foreign: ForeignKind)

  function KindOf(v: Value): Kind {
    match v
    case Null => InvalidKind
    case Bool(_) => BoolKind
    case Number(_) => NumberKind
    case String(_) => StringKind
    case Array(_) => SliceKind
    case Object(_) => MapKind
    case Unsupported(k) => ForeignKindOf(k)
  }
}
