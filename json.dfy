/**
 * The two dynamic value domains the filter compiler moves between:
 * serde_json's `Value` (the filter) and rusqlite's `Value` (a bound
 * parameter). Floating-point numbers are kept as opaque 64-bit patterns; the
 * model does no arithmetic on them.
 */
module Json {

  /** A JSON number: an integer, or a float (serde_json's `is_f64`). */
  datatype Number = Int(i: int) | Float(bits: bv64)

  /** A JSON value; an object is its entries in the map's iteration order. */
  datatype Json =
    | Null
    | Bool(b: bool)
    | Number(n: Number)
    | String(s: string)
    | Array(elements: seq<Json>)
    | Object(entries: seq<(string, Json)>)
  {
    predicate IsScalar() {
      Null? || Bool? || Number? || String?
    }
  }

  /** A value bound to an SQL parameter (rusqlite's `Value`). */
  datatype SqlValue = SqlNull | Integer(i: int) | Real(bits: bv64) | Text(s: string) | Blob(bytes: seq<bv8>)

  /** A named parameter, as pushed onto a parameter list. */
  datatype Param = Param(name: string, value: SqlValue)

  const I64Min: int := -0x8000_0000_0000_0000
  const I64Max: int := 0x7FFF_FFFF_FFFF_FFFF

  /**
   * The SQL value of a JSON number: a float binds as `Real`; an integer binds
   * as `Integer` when `as_i64` succeeds and as `NULL` when it does not (an
   * unsigned value above `i64::MAX`).
   */
  function NumberToSql(n: Number): (r: SqlValue)
    ensures r.Real? <==> n.Float?
    ensures r.Integer? <==> n.Int? && I64Min <= n.i <= I64Max
    ensures r.Integer? ==> r.i == n.i
    ensures r.Real? ==> r.bits == n.bits
    ensures n.Int? && !(I64Min <= n.i <= I64Max) ==> r == SqlNull
  {
    match n
    case Float(b) => Real(b)
    case Int(i) => if I64Min <= i <= I64Max then Integer(i) else SqlNull
  }
}
