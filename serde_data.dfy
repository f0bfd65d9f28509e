/**
 * The serde data model as the persistence layer sees it: the kind of each
 * value a `Serialize` implementation hands to a serializer. Primitive kinds
 * carry no payload because no serializer of the layer looks at the value
 * itself, only at its kind; the composite kinds carry their structure.
 */
module SerdeData {

  datatype Value =
    | Bool | I8 | I16 | I32 | I64 | U8 | U16 | U32 | U64 | F32 | F64
    | I128 | U128
    | Char | Str | Bytes
    | None | Some(inner: Value)
    | Unit | UnitStruct(name: string) | UnitVariant(name: string, variant: string)
    | NewtypeStruct(name: string, value: Value)
    | NewtypeVariant(name: string, variant: string, value: Value)
    | Seq(elements: seq<Value>)
    | Tuple(elements: seq<Value>)
    | TupleStruct(name: string, elements: seq<Value>)
    | TupleVariant(name: string, variant: string, elements: seq<Value>)
    | Map(entries: seq<(Value, Value)>)
    /** A struct walked field by field, in declaration order. */
    | Struct(name: string, fields: seq<(string, Value)>)
    | StructVariant(name: string, variant: string, fields: seq<(string, Value)>)
  {
    /** One of the fourteen primitive kinds. */
    predicate IsPrimitive() {
      Bool? || I8? || I16? || I32? || I64? || U8? || U16? || U32? || U64?
      || F32? || F64? || Char? || Str? || Bytes?
    }
  }

  /**
   * The error a serializer of the layer reports for a kind it rejects: the
   * 128-bit integers fall through to serde's default methods, which report
   * their own message; every other kind is rejected as "Unsupported".
   */
  function Rejection(v: Value): (e: string)
    ensures e != ""
  {
    match v
    case I128 => "i128 is not supported"
    case U128 => "u128 is not supported"
    case _ => "Unsupported"
  }

  /** The value inside any number of `Some` wrappers. */
  function Unwrapped(v: Value): (r: Value)
    ensures !r.Some?
  {
    if v.Some? then Unwrapped(v.inner) else v
  }

  /** `v` wrapped in `n` layers of `Some`. */
  function Wrapped(v: Value, n: nat): Value {
    if n == 0 then v else Some(Wrapped(v, n - 1))
  }
}
