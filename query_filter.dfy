/**
 * Operator objects of the filter language (src/db/util.rs): `QueryFilter`,
 * its deserialization from a JSON object, `value_to_sql`, and `to_sql`, which
 * compiles the operators applied to one field into an SQL fragment and its
 * named parameters.
 */
module QueryFilter {
  import opened Wrappers
  import opened Strings
  import opened Json

  /** The operators of one filter object; `$in` and `$nin` are read but never compiled. */
  datatype QueryFilter = QueryFilter(
    ne: Option<Json>, lt: Option<Json>, lte: Option<Json>,
    eq: Option<Json>, gte: Option<Json>, gt: Option<Json>,
    inList: Option<seq<Json>>, notInList: Option<seq<Json>>)

  /** The value of the first entry named `key`. */
  function Get(entries: seq<(string, Json)>, key: string): (r: Option<Json>)
    ensures r.None? <==> forall i :: 0 <= i < |entries| ==> entries[i].0 != key
    ensures r.Some? ==> exists i :: 0 <= i < |entries| && entries[i] == (key, r.value)
  {
    if |entries| == 0 then None
    else if entries[0].0 == key then Some(entries[0].1)
    else
      var r := Get(entries[1..], key);
      assert forall i :: 1 <= i < |entries| ==> entries[1..][i - 1] == entries[i];
      r
  }

  /** The value under the first entry with the key is the one found. */
  lemma {:induction false} GetFirst(entries: seq<(string, Json)>, key: string, i: nat)
    requires i < |entries| && entries[i].0 == key
    requires forall j :: 0 <= j < i ==> entries[j].0 != key
    ensures Get(entries, key) == Some(entries[i].1)
  {
    if i > 0 {
      assert forall j :: 0 <= j < i - 1 ==> entries[1..][j] == entries[j + 1];
      GetFirst(entries[1..], key, i - 1);
    }
  }

  /** In a one-entry object, only that entry's key has a value. */
  lemma GetSingle(entries: seq<(string, Json)>, key: string)
    requires |entries| == 1
    ensures Get(entries, key) == if entries[0].0 == key then Some(entries[0].1) else None
  {
  }

  /**
   * A serde `Option` field: a missing key and an explicit JSON `null` both
   * read as absent.
   */
  function Operand(entries: seq<(string, Json)>, key: string): (r: Option<Json>)
    ensures r.Some? ==> Get(entries, key) == r && !r.value.Null?
    ensures Get(entries, key).Some? && !Get(entries, key).value.Null? ==> r == Get(entries, key)
  {
    match Get(entries, key)
    case Some(v) => if v.Null? then None else Some(v)
    case None => None
  }

  /** `$in`/`$nin` must be absent, `null` or an array, or `from_value(..).unwrap()` panics. */
  predicate ListOperandOk(entries: seq<(string, Json)>, key: string) {
    var v := Get(entries, key);
    v.None? || v.value.Null? || v.value.Array?
  }

  function ListOperand(entries: seq<(string, Json)>, key: string): Option<seq<Json>>
    requires ListOperandOk(entries, key)
  {
    match Get(entries, key)
    case Some(Array(xs)) => Some(xs)
    case _ => None
  }

  /** The object deserializes into a `QueryFilter`; unknown keys are ignored. */
  predicate Deserializable(entries: seq<(string, Json)>) {
    ListOperandOk(entries, "$in") && ListOperandOk(entries, "$nin")
  }

  /** `QueryFilter::from_json` applied to a JSON object. */
  function FromJson(entries: seq<(string, Json)>): (q: QueryFilter)
    requires Deserializable(entries)
    ensures q.ne == Operand(entries, "$ne") && q.lt == Operand(entries, "$lt")
    ensures q.lte == Operand(entries, "$lte") && q.eq == Operand(entries, "$eq")
    ensures q.gte == Operand(entries, "$gte") && q.gt == Operand(entries, "$gt")
  {
    QueryFilter(
      Operand(entries, "$ne"), Operand(entries, "$lt"), Operand(entries, "$lte"),
      Operand(entries, "$eq"), Operand(entries, "$gte"), Operand(entries, "$gt"),
      ListOperand(entries, "$in"), ListOperand(entries, "$nin"))
  }

  /** `value_to_sql`; an array or object reaches `unreachable!()`, so only scalars are accepted. */
  function ValueToSql(v: Json): (r: SqlValue)
    requires v.IsScalar()
    ensures v.Null? ==> r == SqlNull
    ensures r.Text? <==> v.String?
    ensures r.Text? ==> r.s == v.s
    ensures v.Bool? ==> r == Integer(if v.b then 1 else 0)
    ensures v.Number? ==> r == NumberToSql(v.n)
    ensures !r.Blob?
  {
    match v
    case Null => SqlNull
    case Bool(b) => Integer(if b then 1 else 0)
    case Number(n) => NumberToSql(n)
    case String(s) => Text(s)
  }

  /** An operand `value_to_sql` accepts. */
  predicate OperandOk(o: Option<Json>) {
    o.None? || o.value.IsScalar()
  }

  /** Every comparison operand of `q` is a scalar. */
  predicate Compilable(q: QueryFilter) {
    OperandOk(q.ne) && OperandOk(q.lt) && OperandOk(q.lte)
    && OperandOk(q.eq) && OperandOk(q.gte) && OperandOk(q.gt)
  }

  /** The `$ne` fragment exactly as the source writes it: the parameter name followed by `!=`. */
  function NeFragment(field: string): string {
    field + "_ne" + "!="
  }

  /** The fragment of one comparison operator: `field op :field_suffix`. */
  function Fragment(field: string, op: string, suffix: string): string {
    field + " " + op + " :" + field + suffix
  }

  /** The fragment an operand contributes: one if present, none if absent. */
  function FragmentIf(o: Option<Json>, fragment: string): seq<string> {
    if o.Some? then [fragment] else []
  }

  /** The parameter an operand binds: one if present, none if absent. */
  function ParamIf(o: Option<Json>, name: string): seq<Param>
    requires OperandOk(o)
  {
    if o.Some? then [Param(name, ValueToSql(o.value))] else []
  }

  /** The fragments of `q` on `field`, in the fixed order `$ne, $lt, $lte, $eq, $gte, $gt`. */
  function Fragments(q: QueryFilter, field: string): seq<string> {
    FragmentIf(q.ne, NeFragment(field))
    + FragmentIf(q.lt, Fragment(field, "<", "_lt"))
    + FragmentIf(q.lte, Fragment(field, "<=", "_lte"))
    + FragmentIf(q.eq, Fragment(field, "=", "_eq"))
    + FragmentIf(q.gte, Fragment(field, ">=", "_gte"))
    + FragmentIf(q.gt, Fragment(field, ">", "_gt"))
  }

  /** The parameters of `q` on `field`, in the same order. */
  function Params(q: QueryFilter, field: string): seq<Param>
    requires Compilable(q)
  {
    ParamIf(q.ne, field + "_ne")
    + ParamIf(q.lt, field + "_lt")
    + ParamIf(q.lte, field + "_lte")
    + ParamIf(q.eq, field + "_eq")
    + ParamIf(q.gte, field + "_gte")
    + ParamIf(q.gt, field + "_gt")
  }

  /** No fragment is empty, so an `AND`-join of fragments is empty only when there are none. */
  predicate NonEmptyPieces(xs: seq<string>) {
    forall i :: 0 <= i < |xs| ==> xs[i] != ""
  }

  /** The fragment list with an operand's fragment appended; it stays free of empty pieces. */
  ghost function Extend(xs: seq<string>, o: Option<Json>, fragment: string): (r: seq<string>)
    requires NonEmptyPieces(xs) && fragment != ""
    ensures r == xs + FragmentIf(o, fragment) && NonEmptyPieces(r)
  {
    xs + FragmentIf(o, fragment)
  }

  /** `try_and!`: separate a new condition from what is already there. */
  method TryAnd(sql: string) returns (r: string)
    ensures sql == "" ==> r == ""
    ensures sql != "" ==> r == sql + " AND "
  {
    r := sql;
    if r != "" {
      r := r + " AND ";
    }
  }

  /**
   * `try_concat!`: when the operand is present, add its fragment (after
   * `AND` when something precedes it) and bind its parameter. Given `sql`
   * the `AND`-join of the fragments so far, the result is the `AND`-join with
   * this operator's fragment appended.
   */
  method TryConcat(sql: string, params: seq<Param>, ghost fragments: seq<string>,
                   field: string, o: Option<Json>, op: string, suffix: string)
    returns (sql': string, params': seq<Param>)
    requires OperandOk(o)
    requires NonEmptyPieces(fragments) && sql == Join(fragments, " AND ")
    ensures sql' == Join(fragments + FragmentIf(o, Fragment(field, op, suffix)), " AND ")
    ensures params' == params + ParamIf(o, field + suffix)
  {
    sql', params' := sql, params;
    if o.Some? {
      JoinEmpty(fragments, " AND ");
      JoinSnoc(fragments, Fragment(field, op, suffix), " AND ");
      sql' := TryAnd(sql');
      sql' := sql' + field;
      sql' := sql' + " ";
      sql' := sql' + op;
      sql' := sql' + " ";
      sql' := sql' + ":";
      var paramName := field + suffix;
      sql' := sql' + paramName;
      params' := params' + [Param(paramName, ValueToSql(o.value))];
    } else {
      assert fragments + [] == fragments;
    }
  }

  /**
   * `QueryFilter::to_sql`: the `AND`-join of one fragment per present
   * operator, and one parameter per present operator, both in the order
   * `$ne, $lt, $lte, $eq, $gte, $gt`. The `$ne` fragment is written without
   * a separator check; it is always first, so none is needed.
   */
  method ToSql(q: QueryFilter, field: string) returns (sql: string, params: seq<Param>)
    requires Compilable(q)
    ensures sql == Join(Fragments(q, field), " AND ")
    ensures params == Params(q, field)
  {
    sql, params := "", [];
    if q.ne.Some? {
      var paramName := field + "_ne";
      sql := sql + paramName;
      sql := sql + "!=";
      params := params + [Param(paramName, ValueToSql(q.ne.value))];
    }
    ghost var fragments := FragmentIf(q.ne, NeFragment(field));
    assert params == ParamIf(q.ne, field + "_ne");
    assert sql == Join(fragments, " AND ");
    assert NonEmptyPieces(fragments);
    sql, params := TryConcat(sql, params, fragments, field, q.lt, "<", "_lt");
    fragments := Extend(fragments, q.lt, Fragment(field, "<", "_lt"));
    sql, params := TryConcat(sql, params, fragments, field, q.lte, "<=", "_lte");
    fragments := Extend(fragments, q.lte, Fragment(field, "<=", "_lte"));
    sql, params := TryConcat(sql, params, fragments, field, q.eq, "=", "_eq");
    fragments := Extend(fragments, q.eq, Fragment(field, "=", "_eq"));
    sql, params := TryConcat(sql, params, fragments, field, q.gte, ">=", "_gte");
    fragments := Extend(fragments, q.gte, Fragment(field, ">=", "_gte"));
    sql, params := TryConcat(sql, params, fragments, field, q.gt, ">", "_gt");
    assert fragments + FragmentIf(q.gt, Fragment(field, ">", "_gt")) == Fragments(q, field);
  }

  /** The operator keys `to_sql` compiles. */
  const ComparisonKeys: set<string> := {"$ne", "$lt", "$lte", "$eq", "$gte", "$gt"}

  /** An operator object with no recognised comparison key compiles to `("", [])`. */
  lemma NoComparisonNoSql(entries: seq<(string, Json)>, field: string)
    requires Deserializable(entries)
    requires forall i :: 0 <= i < |entries| ==> entries[i].0 !in ComparisonKeys
    ensures Compilable(FromJson(entries))
    ensures Join(Fragments(FromJson(entries), field), " AND ") == ""
    ensures Params(FromJson(entries), field) == []
  {
    var q := FromJson(entries);
    assert q.ne.None? && q.lt.None? && q.lte.None? && q.eq.None? && q.gte.None? && q.gt.None?;
  }

  /** `$in` and `$nin` never reach the SQL text or the parameters. */
  lemma ListOperatorsIgnored(q: QueryFilter, field: string, a: Option<seq<Json>>, b: Option<seq<Json>>)
    requires Compilable(q)
    ensures Fragments(q.(inList := a, notInList := b), field) == Fragments(q, field)
    ensures Params(q.(inList := a, notInList := b), field) == Params(q, field)
  {
  }

  /** Each present operator adds exactly one fragment and one parameter. */
  lemma OneParamPerOperator(q: QueryFilter, field: string)
    requires Compilable(q)
    ensures |Params(q, field)| == |Fragments(q, field)| <= 6
    ensures |Params(q, field)| == PresentCount(q)
  {
  }

  /** How many of the six comparison operands are present. */
  function PresentCount(q: QueryFilter): nat {
    (if q.ne.Some? then 1 else 0) + (if q.lt.Some? then 1 else 0)
    + (if q.lte.Some? then 1 else 0) + (if q.eq.Some? then 1 else 0)
    + (if q.gte.Some? then 1 else 0) + (if q.gt.Some? then 1 else 0)
  }

  /** No two parameters share a name. */
  ghost predicate DistinctNames(ps: seq<Param>) {
    forall i, j :: 0 <= i < j < |ps| ==> ps[i].name != ps[j].name
  }

  /** Every parameter is named `field` followed by one of `suffixes`. */
  ghost predicate SuffixedNames(ps: seq<Param>, field: string, suffixes: set<string>) {
    forall i :: 0 <= i < |ps| ==>
      |field| <= |ps[i].name| && ps[i].name[..|field|] == field && ps[i].name[|field|..] in suffixes
  }

  lemma AddSuffixed(ps: seq<Param>, field: string, suffixes: set<string>, o: Option<Json>, suffix: string)
    requires OperandOk(o)
    requires DistinctNames(ps) && SuffixedNames(ps, field, suffixes) && suffix !in suffixes
    ensures DistinctNames(ps + ParamIf(o, field + suffix))
    ensures SuffixedNames(ps + ParamIf(o, field + suffix), field, suffixes + {suffix})
  {
    var name := field + suffix;
    assert name[..|field|] == field && name[|field|..] == suffix;
  }

  /**
   * The parameters of one operator object are named `field` plus their
   * operator's suffix, so no two of them collide.
   */
  lemma ParamNamesDistinct(q: QueryFilter, field: string)
    requires Compilable(q)
    ensures DistinctNames(Params(q, field))
    ensures SuffixedNames(Params(q, field), field, {"_ne", "_lt", "_lte", "_eq", "_gte", "_gt"})
  {
    var p0 := ParamIf(q.ne, field + "_ne");
    AddSuffixed([], field, {}, q.ne, "_ne");
    assert [] + p0 == p0;
    var p1 := p0 + ParamIf(q.lt, field + "_lt");
    AddSuffixed(p0, field, {"_ne"}, q.lt, "_lt");
    var p2 := p1 + ParamIf(q.lte, field + "_lte");
    AddSuffixed(p1, field, {"_ne", "_lt"}, q.lte, "_lte");
    var p3 := p2 + ParamIf(q.eq, field + "_eq");
    AddSuffixed(p2, field, {"_ne", "_lt", "_lte"}, q.eq, "_eq");
    var p4 := p3 + ParamIf(q.gte, field + "_gte");
    AddSuffixed(p3, field, {"_ne", "_lt", "_lte", "_eq"}, q.gte, "_gte");
    AddSuffixed(p4, field, {"_ne", "_lt", "_lte", "_eq", "_gte"}, q.gt, "_gt");
  }

  /**
   * The comparison fragments end in the placeholder of the parameter they
   * bind; the `$ne` fragment, as written, holds no placeholder at all, so the
   * `field_ne` parameter it binds is never referenced.
   */
  lemma NePlaceholderMissing(field: string, op: string, suffix: string)
    requires ':' !in field
    ensures Contains(Fragment(field, op, suffix), ":" + field + suffix)
    ensures !Contains(NeFragment(field), ":" + field + "_ne")
  {
    var head := field + " " + op + " ";
    assert Fragment(field, op, suffix) == head + (":" + field + suffix);
    ContainsSuffix(head, ":" + field + suffix);
    assert ':' !in NeFragment(field);
    ContainsFirst(NeFragment(field), ":" + field + "_ne");
  }

  /** `{"$gte": 25}` on `age` compiles to `age >= :age_gte` binding `age_gte` to 25. */
  lemma GteExample()
    ensures var q := FromJson([("$gte", Number(Int(25)))]);
      Compilable(q)
      && Join(Fragments(q, "age"), " AND ") == "age >= :age_gte"
      && Params(q, "age") == [Param("age_gte", Integer(25))]
  {
    var e := [("$gte", Number(Int(25)))];
    assert "$gte"[1] != "$lte"[1] && "$gte"[1] != "$nin"[1];
    GetSingle(e, "$in");
    GetSingle(e, "$nin");
    var q := FromJson(e);
    GetSingle(e, "$ne");
    GetSingle(e, "$lt");
    GetSingle(e, "$lte");
    GetSingle(e, "$eq");
    GetSingle(e, "$gte");
    GetSingle(e, "$gt");
    assert q.gte == Some(Number(Int(25)));
    assert q.ne.None? && q.lt.None? && q.lte.None? && q.eq.None? && q.gt.None?;
    assert ValueToSql(Number(Int(25))) == Integer(25);
    assert "age" + "_gte" == "age_gte";
    assert ParamIf(q.gte, "age" + "_gte") == [Param("age_gte", Integer(25))];
    assert Fragments(q, "age") == [Fragment("age", ">=", "_gte")];
  }
}
