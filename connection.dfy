/**
 * The repository's query and insert preparation (src/db/connection.rs):
 * `find` compiles a JSON filter against the table's columns into a WHERE
 * clause and its named parameters; `add` builds the column and placeholder
 * lists of an insert. Executing the statements is not modelled.
 */
module Connection {
  import opened Wrappers
  import opened Strings
  import opened Json
  import opened Field
  import Table
  import QF = QueryFilter

  /** `key` names a column of the table. */
  predicate IsColumn(fields: seq<Field>, key: string) {
    key in Table.Names(fields)
  }

  /**
   * A filter value under a column key that `find` handles without panicking:
   * not an array, and an operator object only if it deserializes and its
   * comparison operands are scalars.
   */
  predicate ValueOk(value: Json) {
    match value
    case Array(_) => false
    case Object(o) => QF.Deserializable(o) && QF.Compilable(QF.FromJson(o))
    case _ => true
  }

  predicate EntriesOk(fields: seq<Field>, entries: seq<(string, Json)>) {
    forall i :: 0 <= i < |entries| && IsColumn(fields, entries[i].0) ==> ValueOk(entries[i].1)
  }

  /** The filters `find` accepts: objects whose column entries it can compile. */
  predicate Findable(fields: seq<Field>, filter: Json) {
    filter.Object? && EntriesOk(fields, filter.entries)
  }

  /**
   * The condition and parameters one filter entry contributes: nothing for a
   * key that is not a column or an operator object that compiles to nothing.
   */
  function EntryCondition(fields: seq<Field>, key: string, value: Json): (r: Option<(string, seq<Param>)>)
    requires IsColumn(fields, key) ==> ValueOk(value)
    ensures !IsColumn(fields, key) ==> r.None?
    ensures r.Some? ==> r.value.0 != ""
    ensures IsColumn(fields, key) && value.IsScalar() ==> r.Some?
    ensures r.Some? && value.IsScalar() && !value.Null? ==> |r.value.1| == 1 && r.value.1[0].name == key
  {
    if !IsColumn(fields, key) then None
    else if value.Object? then
      var q := QF.FromJson(value.entries);
      var sql := Join(QF.Fragments(q, key), " AND ");
      if sql == "" then None else Some((sql, QF.Params(q, key)))
    else Some(ScalarCondition(key, value))
  }

  /**
   * The condition and parameter of a scalar under a column key: `IS NULL`
   * for null, an equality for a boolean or a number, a full-text match for
   * a string.
   */
  function ScalarCondition(key: string, value: Json): (r: (string, seq<Param>))
    requires value.IsScalar()
    ensures r.0 != ""
    ensures value.Null? ==> r.1 == []
    ensures !value.Null? ==> |r.1| == 1 && r.1[0].name == key
  {
    match value
    case Null => (key + " IS NULL", [])
    case Bool(b) => (key + "=" + ":" + key, [Param(key, Integer(if b then 1 else 0))])
    case Number(n) => (key + "=" + ":" + key, [Param(key, NumberToSql(n))])
    case String(s) => (key + " MATCH :" + key, [Param(key, Text(s))])
  }

  /** The conditions of the entries, in iteration order. */
  function Conditions(fields: seq<Field>, entries: seq<(string, Json)>): (r: seq<string>)
    requires EntriesOk(fields, entries)
    ensures QF.NonEmptyPieces(r)
  {
    if |entries| == 0 then []
    else
      var n := |entries| - 1;
      assert forall i :: 0 <= i < n ==> entries[..n][i] == entries[i];
      Conditions(fields, entries[..n])
      + match EntryCondition(fields, entries[n].0, entries[n].1)
        case None => []
        case Some(c) => [c.0]
  }

  /** The parameters of the entries, in iteration order. */
  function Bindings(fields: seq<Field>, entries: seq<(string, Json)>): seq<Param>
    requires EntriesOk(fields, entries)
  {
    if |entries| == 0 then []
    else
      var n := |entries| - 1;
      assert forall i :: 0 <= i < n ==> entries[..n][i] == entries[i];
      Bindings(fields, entries[..n])
      + match EntryCondition(fields, entries[n].0, entries[n].1)
        case None => []
        case Some(c) => c.1
  }

  lemma PrefixOk(fields: seq<Field>, entries: seq<(string, Json)>, k: nat)
    requires EntriesOk(fields, entries) && k <= |entries|
    ensures EntriesOk(fields, entries[..k])
  {
    assert forall i :: 0 <= i < k ==> entries[..k][i] == entries[i];
  }

  /** The condition list extended by what one entry contributes. */
  function AddCondition(before: seq<string>, ec: Option<(string, seq<Param>)>): seq<string> {
    before + if ec.Some? then [ec.value.0] else []
  }

  /** The parameter list extended by what one entry contributes. */
  function AddBindings(before: seq<Param>, ec: Option<(string, seq<Param>)>): seq<Param> {
    before + if ec.Some? then ec.value.1 else []
  }

  /** Appending a condition after `AND` (when something precedes it) extends the join. */
  lemma AndAppend(before: seq<string>, c: string)
    requires QF.NonEmptyPieces(before)
    ensures (if Join(before, " AND ") == "" then "" else Join(before, " AND ") + " AND ") + c
            == Join(before + [c], " AND ")
  {
    JoinEmpty(before, " AND ");
    JoinSnoc(before, c, " AND ");
  }

  /**
   * One pass of `find`'s loop: given the clause so far, the `AND`-join of the
   * conditions so far, append the entry's condition and parameters.
   */
  method AddEntry(clause: string, params: seq<Param>, ghost before: seq<string>,
                  fields: seq<Field>, key: string, value: Json)
    returns (clause': string, params': seq<Param>)
    requires IsColumn(fields, key) ==> ValueOk(value)
    requires QF.NonEmptyPieces(before) && clause == Join(before, " AND ")
    ensures clause' == Join(AddCondition(before, EntryCondition(fields, key, value)), " AND ")
    ensures params' == AddBindings(params, EntryCondition(fields, key, value))
  {
    clause', params' := clause, params;
    if !IsColumn(fields, key) {
      assert before + [] == before && params + [] == params;
      return;
    }
    if value.Object? {
      clause', params' := AddOperators(clause, params, before, key, value.entries);
    } else {
      clause', params' := AddScalar(clause, params, before, key, value);
    }
  }

  /** The scalar arms of `find`'s loop: `IS NULL`, an equality or a full-text match, with its parameter. */
  method AddScalar(clause: string, params: seq<Param>, ghost before: seq<string>,
                   key: string, value: Json)
    returns (clause': string, params': seq<Param>)
    requires value.IsScalar()
    requires QF.NonEmptyPieces(before) && clause == Join(before, " AND ")
    ensures clause' == Join(before + [ScalarCondition(key, value).0], " AND ")
    ensures params' == params + ScalarCondition(key, value).1
  {
    clause', params' := clause, params;
    match value {
      case Null =>
        AndAppend(before, key + " IS NULL");
        clause' := QF.TryAnd(clause');
        ghost var t := clause';
        clause' := clause' + key;
        clause' := clause' + " IS NULL";
        assert clause' == t + (key + " IS NULL");
        assert params' == params + [];
      case Bool(b) =>
        clause', params' := AddEquality(clause, params, before, key, Integer(if b then 1 else 0));
      case Number(n) =>
        clause', params' := AddEquality(clause, params, before, key, NumberToSql(n));
      case String(s) =>
        AndAppend(before, key + " MATCH :" + key);
        clause' := QF.TryAnd(clause');
        ghost var t := clause';
        clause' := clause' + key;
        clause' := clause' + " MATCH :";
        clause' := clause' + key;
        assert clause' == t + (key + " MATCH :" + key);
        params' := params' + [Param(key, Text(s))];
    }
  }

  /** The equality arms of `find`'s loop: `key=:key`, binding `key` to the value. */
  method AddEquality(clause: string, params: seq<Param>, ghost before: seq<string>,
                     key: string, v: SqlValue)
    returns (clause': string, params': seq<Param>)
    requires QF.NonEmptyPieces(before) && clause == Join(before, " AND ")
    ensures clause' == Join(before + [key + "=" + ":" + key], " AND ")
    ensures params' == params + [Param(key, v)]
  {
    AndAppend(before, key + "=" + ":" + key);
    clause' := QF.TryAnd(clause);
    ghost var t := clause';
    clause' := clause' + key;
    clause' := clause' + "=";
    clause' := clause' + ":";
    clause' := clause' + key;
    assert clause' == t + (key + "=" + ":" + key);
    params' := params + [Param(key, v)];
  }

  /** The operator-object arm of `find`'s loop: the compiled fragments, when there are any. */
  method AddOperators(clause: string, params: seq<Param>, ghost before: seq<string>,
                      key: string, o: seq<(string, Json)>)
    returns (clause': string, params': seq<Param>)
    requires QF.Deserializable(o) && QF.Compilable(QF.FromJson(o))
    requires QF.NonEmptyPieces(before) && clause == Join(before, " AND ")
    ensures var sql := Join(QF.Fragments(QF.FromJson(o), key), " AND ");
            clause' == Join(before + (if sql == "" then [] else [sql]), " AND ")
            && params' == params + (if sql == "" then [] else QF.Params(QF.FromJson(o), key))
  {
    clause', params' := clause, params;
    var sql, vars := QF.ToSql(QF.FromJson(o), key);
    if sql != "" {
      AndAppend(before, sql);
      clause' := QF.TryAnd(clause');
      clause' := clause' + sql;
      params' := params' + vars;
    } else {
      assert before + [] == before && params + [] == params;
    }
  }

  /**
   * `Repository::find` up to the query it would run: the WHERE clause is the
   * `AND`-join of the conditions of the filter's column entries, and the
   * parameters are theirs, in order. A non-object filter, an array under a
   * column key, or an operator object that cannot be compiled panics in the
   * source and is excluded.
   */
  method Find(fields: seq<Field>, filter: Json) returns (clause: string, params: seq<Param>)
    requires Findable(fields, filter)
    ensures clause == Join(Conditions(fields, filter.entries), " AND ")
    ensures params == Bindings(fields, filter.entries)
  {
    var entries := filter.entries;
    clause, params := "", [];
    var i := 0;
    while i < |entries|
      invariant 0 <= i <= |entries|
      invariant EntriesOk(fields, entries[..i])
      invariant clause == Join(Conditions(fields, entries[..i]), " AND ")
      invariant params == Bindings(fields, entries[..i])
    {
      PrefixOk(fields, entries, i + 1);
      assert entries[..i + 1][..i] == entries[..i];
      ghost var ec := EntryCondition(fields, entries[i].0, entries[i].1);
      assert Conditions(fields, entries[..i + 1]) == AddCondition(Conditions(fields, entries[..i]), ec);
      assert Bindings(fields, entries[..i + 1]) == AddBindings(Bindings(fields, entries[..i]), ec);
      clause, params := AddEntry(clause, params, Conditions(fields, entries[..i]), fields, entries[i].0, entries[i].1);
      i := i + 1;
    }
    assert entries[..i] == entries;
  }

  /** The entries whose key is a column, in order. */
  function ColumnEntries(fields: seq<Field>, entries: seq<(string, Json)>): (r: seq<(string, Json)>)
    ensures forall i :: 0 <= i < |r| ==> IsColumn(fields, r[i].0) && r[i] in entries
  {
    if |entries| == 0 then []
    else
      var n := |entries| - 1;
      var prev := ColumnEntries(fields, entries[..n]);
      assert forall e :: e in entries[..n] ==> e in entries;
      if IsColumn(fields, entries[n].0) then prev + [entries[n]] else prev
  }

  /**
   * Keys that are not columns are dropped silently: the filter restricted to
   * its column entries compiles to the same clause and parameters.
   */
  lemma {:induction false} UnknownKeysIgnored(fields: seq<Field>, entries: seq<(string, Json)>)
    requires EntriesOk(fields, entries)
    ensures EntriesOk(fields, ColumnEntries(fields, entries))
    ensures Conditions(fields, ColumnEntries(fields, entries)) == Conditions(fields, entries)
    ensures Bindings(fields, ColumnEntries(fields, entries)) == Bindings(fields, entries)
  {
    var r := ColumnEntries(fields, entries);
    forall i | 0 <= i < |r|
      ensures ValueOk(r[i].1)
    {
      var j :| 0 <= j < |entries| && entries[j] == r[i];
    }
    if |entries| > 0 {
      var n := |entries| - 1;
      PrefixOk(fields, entries, n);
      UnknownKeysIgnored(fields, entries[..n]);
      var prev := ColumnEntries(fields, entries[..n]);
      if IsColumn(fields, entries[n].0) {
        assert r[..|prev|] == prev;
      }
    }
  }

  /** An empty filter, or one whose keys are all unknown, yields an empty clause and no parameters. */
  lemma {:induction false} NoColumnKeysNoClause(fields: seq<Field>, entries: seq<(string, Json)>)
    requires forall i :: 0 <= i < |entries| ==> !IsColumn(fields, entries[i].0)
    ensures EntriesOk(fields, entries)
    ensures Join(Conditions(fields, entries), " AND ") == "" && Bindings(fields, entries) == []
  {
    if |entries| > 0 {
      var n := |entries| - 1;
      assert forall i :: 0 <= i < n ==> entries[..n][i] == entries[i];
      NoColumnKeysNoClause(fields, entries[..n]);
    }
  }

  /**
   * A filter with one scalar under a column compiles to that scalar's
   * condition: `IS NULL` and no parameter for null, `key=:key` bound to the
   * converted value for a boolean or a number, and `key MATCH :key` bound to
   * the text for a string.
   */
  lemma SingleScalarFilter(fields: seq<Field>, key: string, value: Json)
    requires IsColumn(fields, key) && value.IsScalar()
    ensures Findable(fields, Object([(key, value)]))
    ensures Join(Conditions(fields, [(key, value)]), " AND ") ==
      match value
      case Null => key + " IS NULL"
      case Bool(_) => key + "=:" + key
      case Number(_) => key + "=:" + key
      case String(_) => key + " MATCH :" + key
    ensures Bindings(fields, [(key, value)]) ==
      match value
      case Null => []
      case Bool(b) => [Param(key, Integer(if b then 1 else 0))]
      case Number(n) => [Param(key, NumberToSql(n))]
      case String(s) => [Param(key, Text(s))]
  {
    var e: seq<(string, Json)> := [(key, value)];
    assert e[..0] == [];
    assert EntryCondition(fields, key, value) == Some(ScalarCondition(key, value));
    assert key + "=" + ":" + key == key + "=:" + key;
  }

  /** The columns `name: String, age: I32, active: Bool`. */
  const ExampleFields: seq<Field> := [Field("name", FieldType.String), Field("age", I32), Field("active", FieldType.Bool)]

  /** `{"age": {"$gte": 25}}` compiles to `age >= :age_gte` with `age_gte = 25`. */
  lemma ExampleRangeFilter()
    ensures Findable(ExampleFields, Object([("age", Object([("$gte", Number(Int(25)))]))]))
    ensures Join(Conditions(ExampleFields, [("age", Object([("$gte", Number(Int(25)))]))]), " AND ") == "age >= :age_gte"
    ensures Bindings(ExampleFields, [("age", Object([("$gte", Number(Int(25)))]))]) == [Param("age_gte", Integer(25))]
  {
    assert Table.Names(ExampleFields) == ["name", "age", "active"];
    var o: seq<(string, Json)> := [("$gte", Number(Int(25)))];
    QF.GteExample();
    assert EntryCondition(ExampleFields, "age", Object(o)) == Some(("age >= :age_gte", [Param("age_gte", Integer(25))]));
    var e: seq<(string, Json)> := [("age", Object(o))];
    assert e[..0] == [];
  }

  /** `{"active": null}` compiles to `active IS NULL` with no parameter. */
  lemma ExampleNullFilter()
    ensures Findable(ExampleFields, Object([("active", Null)]))
    ensures Join(Conditions(ExampleFields, [("active", Null)]), " AND ") == "active IS NULL"
    ensures Bindings(ExampleFields, [("active", Null)]) == []
  {
    assert Table.Names(ExampleFields) == ["name", "age", "active"];
    assert "active" + " IS NULL" == "active IS NULL";
    assert EntryCondition(ExampleFields, "active", Null) == Some(("active IS NULL", []));
    var e: seq<(string, Json)> := [("active", Null)];
    assert e[..0] == [];
  }

  /** `String::pop`: drop the last character, if any. */
  function Pop(s: string): (r: string)
    ensures |s| > 0 ==> s == r + [s[|s| - 1]]
    ensures |s| == 0 ==> r == s
  {
    if |s| == 0 then s else s[..|s| - 1]
  }

  /** The placeholders of the columns: each name with a `:` in front. */
  function Placeholders(fields: seq<Field>): (r: seq<string>)
    ensures |r| == |fields|
    ensures forall i :: 0 <= i < |fields| ==> r[i] == ":" + fields[i].name
  {
    seq(|fields|, i requires 0 <= i < |fields| => ":" + fields[i].name)
  }

  /** Each element followed by `sep`, concatenated. */
  function Terminated(xs: seq<string>, sep: string): string {
    if |xs| == 0 then "" else Terminated(xs[..|xs| - 1], sep) + xs[|xs| - 1] + sep
  }

  /** Terminating every element is joining them and adding one trailing separator. */
  lemma {:induction false} TerminatedJoin(xs: seq<string>, sep: string)
    ensures Terminated(xs, sep) == if xs == [] then "" else Join(xs, sep) + sep
  {
    if |xs| > 0 {
      var n := |xs| - 1;
      TerminatedJoin(xs[..n], sep);
      JoinSnoc(xs[..n], xs[n], sep);
      assert xs[..n] + [xs[n]] == xs;
    }
  }

  /**
   * The column and placeholder lists `add` builds before its unfinished
   * tail: every column name, and every name behind a `:`, each followed by a
   * comma, and then the last comma popped.
   */
  method InsertLists(fields: seq<Field>) returns (columns: string, placeholders: string)
    ensures columns == Join(Table.Names(fields), ",")
    ensures placeholders == Join(Placeholders(fields), ",")
  {
    var params := "";
    var vals := "";
    for i := 0 to |fields|
      invariant params == Terminated(Table.Names(fields[..i]), ",")
      invariant vals == Terminated(Placeholders(fields[..i]), ",")
    {
      assert Table.Names(fields[..i + 1])[..i] == Table.Names(fields[..i]);
      assert Placeholders(fields[..i + 1])[..i] == Placeholders(fields[..i]);
      params := params + fields[i].name;
      params := params + ",";
      vals := vals + ":";
      vals := vals + fields[i].name;
      vals := vals + ",";
    }
    assert fields[..|fields|] == fields;
    TerminatedJoin(Table.Names(fields), ",");
    TerminatedJoin(Placeholders(fields), ",");
    columns := Pop(params);
    placeholders := Pop(vals);
    if |fields| > 0 {
      assert params == columns + ",";
      assert vals == placeholders + ",";
    }
  }

  /**
   * The two lists line up: read back on commas, the i-th placeholder is the
   * i-th column name behind a `:`, for column names free of commas.
   */
  lemma PlaceholdersMatchColumns(fields: seq<Field>)
    requires |fields| > 0
    requires forall i :: 0 <= i < |fields| ==> ',' !in fields[i].name
    ensures |Split(Join(Table.Names(fields), ","), ",")| == |fields|
    ensures |Split(Join(Placeholders(fields), ","), ",")| == |fields|
    ensures forall i :: 0 <= i < |fields| ==>
      Split(Join(Placeholders(fields), ","), ",")[i] == ":" + Split(Join(Table.Names(fields), ","), ",")[i]
  {
    SplitJoin(Table.Names(fields), ',');
    forall i | 0 <= i < |fields|
      ensures ',' !in Placeholders(fields)[i]
    {
      assert Placeholders(fields)[i] == [':'] + fields[i].name;
    }
    SplitJoin(Placeholders(fields), ',');
  }

  /** What `add` has computed when it reaches its unfinished tail. */
  datatype PendingAdd<R> = PendingAdd(record: R, columns: string, placeholders: string)

  /** `Repository::add` up to its `todo!()`: the record and the insert's column and placeholder lists. */
  method Add<R>(fields: seq<Field>, obj: R) returns (pending: PendingAdd<R>)
    ensures pending.record == obj
    ensures pending.columns == Join(Table.Names(fields), ",")
    ensures pending.placeholders == Join(Placeholders(fields), ",")
  {
    var columns, placeholders := InsertLists(fields);
    pending := PendingAdd(obj, columns, placeholders);
  }

  /** `Repository::add_all`: `add` once per record, in input order. */
  method AddAll<R>(fields: seq<Field>, objs: seq<R>) returns (added: seq<PendingAdd<R>>)
    ensures |added| == |objs|
    ensures forall i :: 0 <= i < |objs| ==>
      && added[i].record == objs[i]
      && added[i].columns == Join(Table.Names(fields), ",")
      && added[i].placeholders == Join(Placeholders(fields), ",")
  {
    added := [];
    for i := 0 to |objs|
      invariant |added| == i
      invariant forall k :: 0 <= k < i ==>
        && added[k].record == objs[k]
        && added[k].columns == Join(Table.Names(fields), ",")
        && added[k].placeholders == Join(Placeholders(fields), ",")
    {
      var pending := Add(fields, objs[i]);
      added := added + [pending];
    }
  }
}
