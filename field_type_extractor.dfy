/** The scalar type classifier `FieldTypeExtractor` (src/db/field_type_extractor.rs). */
module FieldTypeExtractor {
  import opened Wrappers
  import F = Field
  import S = SerdeData

  /**
   * The storage type serde's walk of `v` reports to `FieldTypeExtractor`:
   * each primitive kind its own type, `Some(x)` whatever `x` gets, and every
   * other kind an error: serde's default message for a 128-bit integer,
   * "Unsupported" for the rest.
   */
  function Classify(v: S.Value): (r: Result<F.FieldType>)
    ensures r.Ok? <==> S.Unwrapped(v).IsPrimitive()
    ensures r.Ok? ==> r.value != F.Unsupported
    ensures r.Err? ==> r.error == S.Rejection(S.Unwrapped(v))
  {
    match v
    case Bool => Ok(F.Bool)
    case I8 => Ok(F.I8)
    case I16 => Ok(F.I16)
    case I32 => Ok(F.I32)
    case I64 => Ok(F.I64)
    case U8 => Ok(F.U8)
    case U16 => Ok(F.U16)
    case U32 => Ok(F.U32)
    case U64 => Ok(F.U64)
    case F32 => Ok(F.F32)
    case F64 => Ok(F.F64)
    case Char => Ok(F.Char)
    case Str => Ok(F.String)
    case Bytes => Ok(F.Bytes)
    case Some(inner) => Classify(inner)
    case _ => Err(S.Rejection(v))
  }

  /** The primitive kind serde emits for a Rust value stored as `t`. */
  function KindOf(t: F.FieldType): (v: S.Value)
    requires t != F.Unsupported
    ensures v.IsPrimitive()
  {
    match t
    case Bool => S.Bool
    case I8 => S.I8
    case I16 => S.I16
    case I32 => S.I32
    case I64 => S.I64
    case U8 => S.U8
    case U16 => S.U16
    case U32 => S.U32
    case U64 => S.U64
    case F32 => S.F32
    case F64 => S.F64
    case Char => S.Char
    case String => S.Str
    case Bytes => S.Bytes
  }

  /**
   * Classification is a bijection between the primitive kinds and the
   * supported storage types. One half: it undoes `KindOf`.
   */
  lemma ClassifyKindOf(t: F.FieldType)
    requires t != F.Unsupported
    ensures Classify(KindOf(t)) == Ok(t)
  {
    match t
    case Bool =>
    case I8 =>
    case I16 =>
    case I32 =>
    case I64 =>
    case U8 =>
    case U16 =>
    case U32 =>
    case U64 =>
    case F32 =>
    case F64 =>
    case Char =>
    case String =>
    case Bytes =>
  }

  /** The other half: `KindOf` undoes classification on every primitive kind. */
  lemma KindOfClassify(v: S.Value)
    requires v.IsPrimitive()
    ensures Classify(v).Ok? && KindOf(Classify(v).value) == v
  {
    match v
    case Bool =>
    case I8 =>
    case I16 =>
    case I32 =>
    case I64 =>
    case U8 =>
    case U16 =>
    case U32 =>
    case U64 =>
    case F32 =>
    case F64 =>
    case Char =>
    case Str =>
    case Bytes =>
  }

  /** Any number of `Some` wrappers is transparent: `Some(Some(x))` is classified as `x`. */
  lemma {:induction false} ClassifyThroughSome(v: S.Value, n: nat)
    ensures Classify(S.Wrapped(v, n)) == Classify(v)
  {
    if n > 0 {
      ClassifyThroughSome(v, n - 1);
    }
  }
}
