/** The scalar values that flow through group keys and accumulator states. */
module ScalarValues {
  datatype Option<+T> = None | Some(value: T)

  /** Floating point up to rounding: a finite real, or one of the values JSON cannot carry. */
  datatype Float = Finite(value: real) | NotFinite(name: string)

  datatype IntWidth = W8 | W16 | W32 | W64

  datatype FloatWidth = F32 | F64

  datatype TextKind = Utf8 | LargeUtf8 | Utf8View

  datatype ScalarType =
    | NullType
    | BooleanType
    | IntType(width: IntWidth)
    | UIntType(width: IntWidth)
    | FloatType(fwidth: FloatWidth)
    | TextType(kind: TextKind)
    | ListType(item: ScalarType)
    | OtherType(name: string)

  /** A typed null carries `None`; a list is null or has items; `Other` stands for every variant
      the checkpoint codec has no case for. */
  datatype Scalar =
    | Null
    | Boolean(b: Option<bool>)
    | Int(width: IntWidth, i: Option<int>)
    | UInt(uwidth: IntWidth, u: Option<nat>)
    | Floating(fwidth: FloatWidth, f: Option<Float>)
    | Text(kind: TextKind, s: Option<string>)
    | List(item: ScalarType, isNull: bool, items: seq<Scalar>)
    | Other(typeName: string, shown: string)

  function TypeOf(v: Scalar): ScalarType {
    match v
    case Null => NullType
    case Boolean(_) => BooleanType
    case Int(w, _) => IntType(w)
    case UInt(w, _) => UIntType(w)
    case Floating(w, _) => FloatType(w)
    case Text(k, _) => TextType(k)
    case List(item, _, _) => ListType(item)
    case Other(t, _) => OtherType(t)
  }
}
