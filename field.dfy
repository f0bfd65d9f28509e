/** Column types of the persistence layer (src/db/field.rs). */
module Field {

  /** The closed set of scalar storage types; `Unsupported` marks a value that has none. */
  datatype FieldType =
    | Char | String | Bool
    | U8 | U16 | U32 | U64
    | I8 | I16 | I32 | I64
    | F32 | F64 | Bytes
    | Unsupported

  /** One column of a table: its name and its storage type. */
  datatype Field = Field(name: string, typ: FieldType)

  /** The SQL type names `SqliteType` can produce. */
  const SqlTypeNames: set<string> :=
    {"CHARACTER(1)", "TEXT", "TINYINT", "SMALLINT", "INTEGER", "BIGINT", "FLOAT", "DOUBLE", "BLOB"}

  /** The bit width of an integer type, signed or unsigned; `0` for every other type. */
  function IntegerWidth(t: FieldType): nat {
    match t
    case U8 | I8 => 8
    case U16 | I16 => 16
    case U32 | I32 => 32
    case U64 | I64 => 64
    case _ => 0
  }

  /** `FieldType::sqlite_type`; `Unsupported` reaches `unreachable!()`, so it is excluded. */
  function SqliteType(t: FieldType): (r: string)
    requires t != Unsupported
    ensures r in SqlTypeNames
  {
    match t
    case Char => "CHARACTER(1)"
    case String => "TEXT"
    case Bool => "TINYINT"
    case U8 | I8 => "TINYINT"
    case U16 | I16 => "SMALLINT"
    case U32 | I32 => "INTEGER"
    case U64 | I64 => "BIGINT"
    case F32 => "FLOAT"
    case F64 => "DOUBLE"
    case Bytes => "BLOB"
  }

  /** Signed and unsigned integers of one width are stored under one SQL type. */
  lemma SameWidthSameSqlType(a: FieldType, b: FieldType)
    requires a != Unsupported && b != Unsupported
    requires IntegerWidth(a) > 0 && IntegerWidth(a) == IntegerWidth(b)
    ensures SqliteType(a) == SqliteType(b)
  {
  }

  /**
   * Two types share an SQL type name exactly when they are equal, are integers
   * of one width, or are both stored as `TINYINT` (booleans and 8-bit integers).
   */
  lemma SqliteTypeSharing(a: FieldType, b: FieldType)
    requires a != Unsupported && b != Unsupported
    ensures SqliteType(a) == SqliteType(b) <==>
      (a == b
       || (IntegerWidth(a) > 0 && IntegerWidth(a) == IntegerWidth(b))
       || (a in {Bool, U8, I8} && b in {Bool, U8, I8}))
  {
  }
}
