/**
 * The schema reflector (src/db/table.rs): `TableStructureGenerator` turns a
 * struct's serde walk into a `Table`, whose `serialize_field` classifies each
 * field and appends it to the column list.
 */
module Table {
  import opened Wrappers
  import opened Strings
  import opened Field
  import S = SerdeData
  import FieldTypeExtractor

  /** A finished table description: the table name and its columns in order. */
  datatype Schema = Schema(name: string, fields: seq<Field>)

  const RowIdError := "typeof _rowid_ != i64"

  /** The column names of `fields`, in order. */
  function Names(fields: seq<Field>): (r: seq<string>)
    ensures |r| == |fields|
    ensures forall i :: 0 <= i < |fields| ==> r[i] == fields[i].name
  {
    seq(|fields|, i requires 0 <= i < |fields| => fields[i].name)
  }

  /** The columns a table may hold: typed, and never the implicit `rowid`. */
  predicate StorableFields(fields: seq<Field>) {
    forall i :: 0 <= i < |fields| ==> fields[i].typ != Unsupported && fields[i].name != "rowid"
  }

  /** What `serialize_field(key, value)` does to the column list `fields`. */
  function AcceptField(fields: seq<Field>, key: string, value: S.Value): (r: Result<seq<Field>>)
    ensures r.Ok? && key == "rowid" ==> r.value == fields
    ensures r.Ok? && key != "rowid" ==> |r.value| == |fields| + 1 && r.value[..|fields|] == fields
    ensures StorableFields(fields) && r.Ok? ==> StorableFields(r.value)
  {
    match FieldTypeExtractor.Classify(value)
    case Err(e) => Err(e)
    case Ok(t) =>
      if key == "rowid" then
        (if t == I64 then Ok(fields) else Err(RowIdError))
      else if t == Unsupported then Err("Unsupported Type")
      else Ok(fields + [Field(key, t)])
  }

  /** The column list after serde has walked `entries` in order; the first failing field aborts. */
  function Reflect(entries: seq<(string, S.Value)>): Result<seq<Field>> {
    if |entries| == 0 then Ok([])
    else
      match Reflect(entries[..|entries| - 1])
      case Err(e) => Err(e)
      case Ok(fs) => AcceptField(fs, entries[|entries| - 1].0, entries[|entries| - 1].1)
  }

  /** A typed field that is not `rowid` is appended as a column of its type. */
  lemma AcceptPlain(fields: seq<Field>, key: string, value: S.Value, t: FieldType)
    requires key != "rowid" && FieldTypeExtractor.Classify(value) == Ok(t)
    ensures AcceptField(fields, key, value) == Ok(fields + [Field(key, t)])
  {
  }

  /**
   * Fields that are all typed and none of them `rowid` become one column
   * each, in declaration order, with the field's name and type.
   */
  lemma {:induction false} ReflectPlainColumns(entries: seq<(string, S.Value)>, cols: seq<Field>)
    requires |entries| == |cols|
    requires forall i :: 0 <= i < |entries| ==>
               entries[i].0 != "rowid" && entries[i].0 == cols[i].name
               && FieldTypeExtractor.Classify(entries[i].1) == Ok(cols[i].typ)
    ensures Reflect(entries) == Ok(cols)
  {
    if |entries| > 0 {
      var n := |entries| - 1;
      var prefix, init := entries[..n], cols[..n];
      forall i | 0 <= i < n
        ensures prefix[i].0 != "rowid" && prefix[i].0 == init[i].name
                && FieldTypeExtractor.Classify(prefix[i].1) == Ok(init[i].typ)
      {
        assert prefix[i] == entries[i] && init[i] == cols[i];
      }
      ReflectPlainColumns(prefix, init);
      AcceptPlain(init, entries[n].0, entries[n].1, cols[n].typ);
      assert Reflect(entries) == AcceptField(init, entries[n].0, entries[n].1);
      assert init + [Field(entries[n].0, cols[n].typ)] == cols;
    }
  }

  /** The field `(key, value)` is accepted: it has a storage type, and `rowid` only as `I64`. */
  predicate Acceptable(key: string, value: S.Value) {
    var c := FieldTypeExtractor.Classify(value);
    c.Ok? && (key == "rowid" ==> c.value == I64)
  }

  /** The error `serialize_field` reports for a field that is not acceptable. */
  function RejectionOf(key: string, value: S.Value): string {
    match FieldTypeExtractor.Classify(value)
    case Err(e) => e
    case Ok(_) => RowIdError
  }

  /** The columns the declared fields become: every field but `rowid`, with its type, in order. */
  function DeclaredColumns(entries: seq<(string, S.Value)>): seq<Field>
    requires forall i :: 0 <= i < |entries| ==> Acceptable(entries[i].0, entries[i].1)
  {
    if |entries| == 0 then []
    else
      var last := entries[|entries| - 1];
      assert Acceptable(last.0, last.1);
      assert forall i :: 0 <= i < |entries| - 1 ==> entries[..|entries| - 1][i] == entries[i];
      var prev := DeclaredColumns(entries[..|entries| - 1]);
      if last.0 == "rowid" then prev
      else prev + [Field(last.0, FieldTypeExtractor.Classify(last.1).value)]
  }

  /** `serialize_field` accepts exactly the acceptable fields, and reports the rejection otherwise. */
  lemma AcceptFieldCases(fields: seq<Field>, key: string, value: S.Value)
    ensures AcceptField(fields, key, value).Ok? <==> Acceptable(key, value)
    ensures AcceptField(fields, key, value).Ok? ==>
              AcceptField(fields, key, value).value ==
              (if key == "rowid" then fields else fields + [Field(key, FieldTypeExtractor.Classify(value).value)])
    ensures AcceptField(fields, key, value).Err? ==> AcceptField(fields, key, value).error == RejectionOf(key, value)
  {
  }

  /**
   * Reflection succeeds exactly when every field is acceptable, and then the
   * columns are the declared fields minus `rowid`, in declaration order.
   */
  lemma {:induction false} ReflectAccepts(entries: seq<(string, S.Value)>)
    ensures Reflect(entries).Ok? <==> forall i :: 0 <= i < |entries| ==> Acceptable(entries[i].0, entries[i].1)
    ensures Reflect(entries).Ok? ==> Reflect(entries).value == DeclaredColumns(entries)
  {
    if |entries| > 0 {
      var n := |entries| - 1;
      var prefix := entries[..n];
      ReflectAccepts(prefix);
      assert forall i :: 0 <= i < n ==> prefix[i] == entries[i];
      if Reflect(prefix).Ok? {
        AcceptFieldCases(Reflect(prefix).value, entries[n].0, entries[n].1);
      }
    }
  }

  /** When reflection fails, the error is that of the first field that is not acceptable. */
  lemma {:induction false} ReflectFirstRejection(entries: seq<(string, S.Value)>)
    ensures Reflect(entries).Err? ==>
      exists i :: 0 <= i < |entries|
        && (forall j :: 0 <= j < i ==> Acceptable(entries[j].0, entries[j].1))
        && !Acceptable(entries[i].0, entries[i].1)
        && Reflect(entries).error == RejectionOf(entries[i].0, entries[i].1)
  {
    if |entries| > 0 {
      var n := |entries| - 1;
      var prefix := entries[..n];
      ReflectFirstRejection(prefix);
      assert forall i :: 0 <= i < n ==> prefix[i] == entries[i];
      if Reflect(prefix).Err? {
        var i :| 0 <= i < n
          && (forall j :: 0 <= j < i ==> Acceptable(prefix[j].0, prefix[j].1))
          && !Acceptable(prefix[i].0, prefix[i].1)
          && Reflect(prefix).error == RejectionOf(prefix[i].0, prefix[i].1);
        assert !Acceptable(entries[i].0, entries[i].1);
      } else {
        ReflectAccepts(prefix);
        AcceptFieldCases(Reflect(prefix).value, entries[n].0, entries[n].1);
      }
    }
  }

  /**
   * `serialize` with `TableStructureGenerator`: only a struct becomes a table,
   * named after the struct with `s` appended; any other kind is rejected with
   * "Unsupported", or serde's default message for a 128-bit integer. A
   * top-level `i32` reaches `todo!()` and is excluded.
   */
  function SchemaOf(v: S.Value): (r: Result<Schema>)
    requires v != S.I32
    ensures r.Ok? ==> v.Struct? && r.value.name == v.name + "s"
    ensures !v.Struct? ==> r == Err(S.Rejection(v))
  {
    match v
    case Struct(name, entries) =>
      (match Reflect(entries)
       case Ok(fs) => Ok(Schema(name + "s", fs))
       case Err(e) => Err(e))
    case _ => Err(S.Rejection(v))
  }

  /** Reflection never stores an untyped column or a `rowid` column. */
  lemma {:induction false} ReflectStorable(entries: seq<(string, S.Value)>)
    ensures Reflect(entries).Ok? ==> StorableFields(Reflect(entries).value)
  {
    if |entries| > 0 {
      ReflectStorable(entries[..|entries| - 1]);
    }
  }

  /**
   * The primary key of a derived schema is the first declared field that is
   * not `rowid`, with its type.
   */
  lemma {:induction false} FirstColumnIsFirstDeclared(entries: seq<(string, S.Value)>)
    requires forall i :: 0 <= i < |entries| ==> Acceptable(entries[i].0, entries[i].1)
    requires |DeclaredColumns(entries)| > 0
    ensures exists i ::
      && 0 <= i < |entries| && entries[i].0 != "rowid"
      && (forall j :: 0 <= j < i ==> entries[j].0 == "rowid")
      && DeclaredColumns(entries)[0] == Field(entries[i].0, FieldTypeExtractor.Classify(entries[i].1).value)
  {
    var n := |entries| - 1;
    var prefix := entries[..n];
    assert forall i :: 0 <= i < n ==> prefix[i] == entries[i];
    if |DeclaredColumns(prefix)| > 0 {
      FirstColumnIsFirstDeclared(prefix);
      var i :| 0 <= i < n && prefix[i].0 != "rowid"
        && (forall j :: 0 <= j < i ==> prefix[j].0 == "rowid")
        && DeclaredColumns(prefix)[0] == Field(prefix[i].0, FieldTypeExtractor.Classify(prefix[i].1).value);
      assert DeclaredColumns(entries)[0] == DeclaredColumns(prefix)[0];
    } else {
      NoColumnsAllRowId(prefix);
      assert entries[n].0 != "rowid";
    }
  }

  /** Declared fields that yield no column are all named `rowid`. */
  lemma {:induction false} NoColumnsAllRowId(entries: seq<(string, S.Value)>)
    requires forall i :: 0 <= i < |entries| ==> Acceptable(entries[i].0, entries[i].1)
    requires DeclaredColumns(entries) == []
    ensures forall j :: 0 <= j < |entries| ==> entries[j].0 == "rowid"
  {
    if |entries| > 0 {
      var n := |entries| - 1;
      NoColumnsAllRowId(entries[..n]);
      assert forall j :: 0 <= j < n ==> entries[..n][j] == entries[j];
    }
  }

  /** The DDL `create_fts_script` issues for a table named `name` with columns `names`. */
  function FtsScript(name: string, names: seq<string>): string {
    "CREATE VIRTUAL TABLE IF NOT EXISTS " + name + " USING fts5 (" + Join(names, ",") + ")"
  }

  /**
   * The DDL names the columns unambiguously: for comma-free column names, two
   * tables get the same script only if they have the same name and the same
   * columns in the same order.
   */
  lemma FtsScriptInjective(name: string, names: seq<string>, name': string, names': seq<string>)
    requires |names| > 0 && |names'| > 0
    requires forall i :: 0 <= i < |names| ==> ',' !in names[i] && ' ' !in names[i]
    requires forall i :: 0 <= i < |names'| ==> ',' !in names'[i] && ' ' !in names'[i]
    requires ' ' !in name && ' ' !in name'
    requires FtsScript(name, names) == FtsScript(name', names')
    ensures name == name' && names == names'
  {
    var tail := " USING fts5 (";
    var j, j' := Join(names, ","), Join(names', ",");
    assert FtsScript(name, names) == "CREATE VIRTUAL TABLE IF NOT EXISTS " + (name + (tail + j + ")"));
    assert FtsScript(name', names') == "CREATE VIRTUAL TABLE IF NOT EXISTS " + (name' + (tail + j' + ")"));
    PrefixCancel("CREATE VIRTUAL TABLE IF NOT EXISTS ", name + (tail + j + ")"), name' + (tail + j' + ")"));
    SpaceCancel(name, tail + j + ")", name', tail + j' + ")");
    assert tail + j + ")" == tail + (j + ")") && tail + j' + ")" == tail + (j' + ")");
    PrefixCancel(tail, j + ")", j' + ")");
    SuffixCancel(j, j', ")");
    SplitJoin(names, ',');
    SplitJoin(names', ',');
  }

  lemma PrefixCancel(x: string, y: string, y': string)
    requires x + y == x + y'
    ensures y == y'
  {
    assert y == (x + y)[|x|..];
    assert y' == (x + y')[|x|..];
  }

  lemma SuffixCancel(y: string, y': string, z: string)
    requires y + z == y' + z
    ensures y == y'
  {
    assert y == (y + z)[..|y|];
    assert y' == (y' + z)[..|y'|];
  }

  /** Two space-free words each followed by text starting with a space: equal sums split equally. */
  lemma SpaceCancel(a: string, b: string, a': string, b': string)
    requires ' ' !in a && ' ' !in a'
    requires |b| > 0 && b[0] == ' ' && |b'| > 0 && b'[0] == ' '
    requires a + b == a' + b'
    ensures a == a' && b == b'
  {
    var s := a + b;
    assert forall k :: 0 <= k < |a| ==> s[k] == a[k] && a[k] in a;
    assert forall k :: 0 <= k < |a'| ==> s[k] == a'[k] && a'[k] in a';
    assert s[|a|] == ' ' && s[|a'|] == ' ';
    assert |a| == |a'|;
    assert a == (a + b)[..|a|];
    assert a' == (a' + b')[..|a'|];
    PrefixCancel(a, b, b');
  }

  /**
   * The table being built while serde walks a struct. Its fields change in
   * place as `serialize_field` accepts columns.
   */
  class Table {
    var name: string
    var fields: seq<Field>

    /** The table invariant: only storable columns. */
    ghost predicate Valid()
      reads this
    {
      StorableFields(fields)
    }

    /** `serialize_struct`: an empty table named after the struct, with `s` appended. */
    constructor (structName: string)
      ensures Valid()
      ensures name == structName + "s" && fields == []
    {
      name := structName + "s";
      fields := [];
    }

    /** `SerializeStruct::serialize_field`: classify the value, then check or append. */
    method SerializeField(key: string, value: S.Value) returns (r: Result<()>)
      requires Valid()
      modifies this
      ensures Valid()
      ensures name == old(name)
      ensures AcceptField(old(fields), key, value).Ok? ==> r == Ok(()) && fields == AcceptField(old(fields), key, value).value
      ensures AcceptField(old(fields), key, value).Err? ==> r == Err(AcceptField(old(fields), key, value).error) && fields == old(fields)
    {
      var c := FieldTypeExtractor.Classify(value);
      if c.Err? {
        return Err(c.error);
      }
      var t := c.value;
      if key == "rowid" {
        if t == I64 {
          return Ok(());
        } else {
          return Err(RowIdError);
        }
      }
      if t == Unsupported {
        r := Err("Unsupported Type");
      } else {
        fields := fields + [Field(key, t)];
        r := Ok(());
      }
    }

    /** `pk`: the first column; a table without columns makes `unwrap` panic, so it is excluded. */
    function Pk(): (f: Field)
      reads this
      requires Valid() && |fields| > 0
      ensures f == fields[0] && f.typ != Unsupported && f.name != "rowid"
    {
      fields[0]
    }

    /**
     * `create_fts_script`: the `CREATE VIRTUAL TABLE ... USING fts5` statement
     * listing every column name, comma-separated, in column order. A table
     * without columns makes `expect` panic, so it is excluded.
     */
    method CreateFtsScript() returns (script: string)
      requires |fields| > 0
      ensures script == FtsScript(name, Names(fields))
    {
      var res := "CREATE VIRTUAL TABLE IF NOT EXISTS ";
      res := res + name;
      res := res + " USING fts5 (";
      var prefix := res;
      res := res + fields[0].name;
      assert Names(fields[..1]) == [fields[0].name];
      var i := 1;
      while i < |fields|
        invariant 1 <= i <= |fields|
        invariant res == prefix + Join(Names(fields[..i]), ",")
      {
        assert Names(fields[..i + 1]) == Names(fields[..i]) + [fields[i].name];
        JoinSnoc(Names(fields[..i]), fields[i].name, ",");
        res := res + ",";
        res := res + fields[i].name;
        i := i + 1;
      }
      assert fields[..i] == fields;
      res := res + ")";
      script := res;
    }
  }

  /**
   * `s.serialize(TableStructureGenerator)`: start a table for a struct and
   * feed it the struct's fields one at a time; anything but a struct is
   * rejected. A top-level `i32` reaches `todo!()` and is excluded.
   */
  method Derive(v: S.Value) returns (r: Result<Table>)
    requires v != S.I32
    ensures r.Ok? <==> SchemaOf(v).Ok?
    ensures r.Ok? ==>
      && fresh(r.value) && r.value.Valid()
      && r.value.name == SchemaOf(v).value.name && r.value.fields == SchemaOf(v).value.fields
    ensures r.Err? ==> r.error == SchemaOf(v).error
  {
    if !v.Struct? {
      return Err(S.Rejection(v));
    }
    var t := new Table(v.name);
    var entries := v.fields;
    var i := 0;
    while i < |entries|
      invariant 0 <= i <= |entries|
      invariant t.Valid() && t.name == v.name + "s"
      invariant Reflect(entries[..i]) == Ok(t.fields)
    {
      ReflectStep(entries, i, t.fields);
      var o := t.SerializeField(entries[i].0, entries[i].1);
      if o.Err? {
        ReflectErrSticky(entries, i + 1);
        assert SchemaOf(v) == Err(o.error);
        return Err(o.error);
      }
      i := i + 1;
    }
    assert entries[..i] == entries;
    assert SchemaOf(v) == Ok(Schema(t.name, t.fields));
    r := Ok(t);
  }

  /** Walking one more field applies `serialize_field` to the columns so far. */
  lemma ReflectStep(entries: seq<(string, S.Value)>, i: nat, fields: seq<Field>)
    requires i < |entries| && Reflect(entries[..i]) == Ok(fields)
    ensures Reflect(entries[..i + 1]) == AcceptField(fields, entries[i].0, entries[i].1)
  {
    assert entries[..i + 1][..i] == entries[..i];
  }

  /** Once a prefix of the fields fails, the whole walk fails with the same error. */
  lemma {:induction false} ReflectErrSticky(entries: seq<(string, S.Value)>, k: nat)
    requires k <= |entries|
    requires Reflect(entries[..k]).Err?
    ensures Reflect(entries) == Reflect(entries[..k])
    decreases |entries| - k
  {
    if k < |entries| {
      assert entries[..k + 1][..k] == entries[..k];
      ReflectErrSticky(entries, k + 1);
    } else {
      assert entries[..k] == entries;
    }
  }
}
