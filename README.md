# pacutil persistence layer and package parsers, modelled in Dafny

pacutil is a small command-line helper around Arch Linux's `pacman`. It reads
the package lists `pacman` prints and stores them in an in-memory SQLite
database through a small generic persistence layer. This project models:

- **The storage types** (`Field`, `FieldTypeExtractor`):
  - the closed set of column types and their SQL type names;
  - the serializer that classifies a serde value kind as a column type.
- **The schema reflector** (`Table`):
  - `TableStructureGenerator` walks a record struct field by field;
  - `serialize_field` checks each field and appends it to a `Table` in place;
  - `create_fts_script` writes the table's `CREATE VIRTUAL TABLE … USING fts5` statement;
  - `pk` returns the first column.
  - `Schemas` applies the reflector to the two record types.
- **The filter compiler** (`QueryFilter`, `Connection`):
  - `Repository::find` turns a JSON filter into a WHERE clause and its named parameters;
  - it uses `QueryFilter::to_sql`, `value_to_sql`, `try_and!` and `try_concat!`;
  - `add` and `add_all` build an insert's column and placeholder lists.
- **The list helpers** of `src/util.rs` (`Util`): `split`, a stable partition, and `group`, a group-by-key.
- **The two package parsers**, over in-memory text:
  - `Info`: `parse`, the `pacman -Qi` block parser;
  - `Repo`: the per-line body of `list_all`, the `pacman -Sl` line parser, together with `Package::cvt_object` and `Package::default`.

The model keeps the source's form:

- Code that works step by step becomes methods with loops, and each is proved against a specification function:
  - `Table.Table.SerializeField`, `Table.Table.CreateFtsScript`, `Table.Derive`;
  - `QueryFilter.ToSql`, `Connection.Find`, `Connection.InsertLists`;
  - `Util.Split`, `Util.Group`, `Info.Parse`, `Repo.ListAll`.
- The table under construction is a class whose column list the methods update.
- Expression-level code becomes functions.

serde's value kinds are a datatype (`SerdeData.Value`). A serde walk of a struct is its name plus its `(key, value)` fields in declaration order. JSON values and rusqlite values are datatypes in `Json`.

The Rust standard-library string operations the source relies on are in `Strings`: `split`, `splitn`, `trim`, `contains` and `starts_with`.

Where the code and its documented behaviour differ, the model follows the code:

- A JSON boolean binds as rusqlite `Integer` 0 or 1. rusqlite converts a `bool` to an integer and has no boolean value.
- `{"$ne": null}` contributes nothing. serde reads an explicit `null` for an `Option` field as `None`.
- `$in` and `$nin` are deserialized but never compiled.
- The `$ne` fragment is `field_ne!=`. It has no placeholder and no comparison operand, so the `field_ne` parameter it binds is never referenced (`QueryFilter.NePlaceholderMissing`).
- An empty WHERE clause (an empty filter, or one with no column key) stays empty; it is not replaced by an always-true `1=1` (`Connection.NoColumnKeysNoClause`).
- A struct with no fields, or only a `rowid` field, is not rejected when its schema is derived. Only `create_fts_script` and `pk` panic on it.

## Model

| member | source | states |
|---|---|---|
| Field.SqliteType | src/db/field.rs:27-61 | every supported type maps to one of the nine SQL type names; `Unsupported` is outside the domain (`unreachable!`) |
| Field.SameWidthSameSqlType | src/db/field.rs:38-55 | a signed and an unsigned integer of one width get the same SQL type |
| Field.SqliteTypeSharing | src/db/field.rs:27-61 | two types share an SQL type exactly when they are equal, integers of one width, or both among bool/u8/i8 (`TINYINT`) |
| SerdeData.Rejection | src/db/field_type_extractor.rs:76-130 | the error text for a rejected kind is never empty: serde's default message for `i128` and `u128`, which neither serializer overrides, and "Unsupported" for every other kind |
| SerdeData.Unwrapped | src/db/field_type_extractor.rs:80-82 | peeling `Some` wrappers ends at a value that is not `Some` |
| FieldTypeExtractor.Classify | src/db/field_type_extractor.rs:20-130 | classification succeeds exactly on primitive kinds under any number of `Some`; success is never `Unsupported`; failure reports serde's default message for a 128-bit integer ("i128 is not supported", "u128 is not supported") and "Unsupported" for every other kind |
| FieldTypeExtractor.KindOf | src/db/field_type_extractor.rs:20-74 | each supported column type has a primitive serde kind |
| FieldTypeExtractor.ClassifyKindOf | src/db/field_type_extractor.rs:20-74 | classifying the kind of a supported type gives that type back |
| FieldTypeExtractor.KindOfClassify | src/db/field_type_extractor.rs:20-74 | every primitive kind is classified, and the kind of its type is the kind itself: primitive kinds and supported types correspond one to one |
| FieldTypeExtractor.ClassifyThroughSome | src/db/field_type_extractor.rs:80-82 | any number of `Some` wrappers is classified as the wrapped value (`Some(Some(x))` as `x`) |
| Table.AcceptField | src/db/table.rs:16-31 | an accepted `rowid` leaves the columns unchanged; any other accepted field is appended with the earlier columns kept; storable columns stay storable |
| Table.AcceptPlain | src/db/table.rs:25-29 | a classified field not named `rowid` is appended as a column of its name and type |
| Table.AcceptFieldCases | src/db/table.rs:16-31 | `serialize_field` succeeds exactly on fields with a type (and `rowid` only as `I64`); on success a non-`rowid` field is appended; on failure the error is the classification error or "typeof _rowid_ != i64" |
| Table.ReflectPlainColumns | src/db/table.rs:16-31 | typed fields with no `rowid` among them become one column each, in declaration order |
| Table.ReflectAccepts | src/db/table.rs:16-31 | the walk succeeds exactly when every field is acceptable, and the columns are then the declared fields minus `rowid`, in order |
| Table.ReflectFirstRejection | src/db/table.rs:16-31 | a failed walk reports the error of the first unacceptable field, and all fields before it are acceptable |
| Table.ReflectStep | src/db/table.rs:16-31 | walking one more field applies `serialize_field` to the columns so far |
| Table.ReflectErrSticky | src/db/table.rs:17 | once a prefix of the walk fails, the whole walk fails with that error |
| Table.ReflectStorable | src/db/table.rs:18-30 | a derived table never holds an untyped column or a `rowid` column |
| Table.NoColumnsAllRowId | src/db/table.rs:18-20 | accepted fields that leave no column are all `rowid` |
| Table.FirstColumnIsFirstDeclared | src/db/table.rs:47-49 | the primary key of a derived table is the first declared field that is not `rowid`, with its type |
| Table.SchemaOf | src/db/table.rs:85-198 | only a struct yields a table, named after the struct with `s` appended; any other kind fails with "Unsupported", or serde's default message for a 128-bit integer; a top-level `i32` (`todo!()`) is outside the domain |
| Table.FtsScriptInjective | src/db/table.rs:51-69 | for space-free names and comma-free column names, equal DDL means equal table name and equal column list |
| Table.Table.constructor | src/db/table.rs:189-194 | `serialize_struct` starts an empty, valid table named after the struct with `s` appended |
| Table.Table.SerializeField | src/db/table.rs:16-31 | the column list becomes exactly what `AcceptField` gives, or stays unchanged with the matching error; the name is untouched and the table stays valid |
| Table.Table.Pk | src/db/table.rs:47-49 | `pk` is the first column, which is typed and not `rowid`; a table without columns (`unwrap` panic) is outside the domain |
| Table.Table.CreateFtsScript | src/db/table.rs:51-69 | the script is `CREATE VIRTUAL TABLE IF NOT EXISTS <name> USING fts5 (<column names joined by ",">)`; an empty table (`expect` panic) is outside the domain |
| Table.Derive | src/db/table.rs:189-194 | serializing a value through the generator yields a fresh valid table exactly when `SchemaOf` succeeds, with its name and columns, and otherwise the same error |
| QueryFilter.Operand | src/db/util.rs:7-23 | a comparison operand is present exactly when its key is there with a non-null value, and it is then that value |
| QueryFilter.FromJson | src/db/util.rs:80-82 | each of the six comparison fields of the filter is the operand under its `$` key; unknown keys are ignored |
| QueryFilter.ValueToSql | src/db/util.rs:32-52 | null is NULL; a boolean is Integer 1/0; a number is converted as `NumberToSql`; a string is the same Text; no other value (`unreachable!`) is accepted |
| Json.NumberToSql | src/db/util.rs:40-46 | a float binds as Real with the same bits; an integer in i64 range binds as that Integer; anything else (`as_i64` is `None`) binds as NULL |
| QueryFilter.TryAnd | src/db/util.rs:54-59 | `" AND "` is appended exactly when the clause is non-empty |
| QueryFilter.TryConcat | src/db/util.rs:61-77 | with the clause being the AND-join of the fragments so far, a present operand appends `field op :field_suffix` to that join and binds `field_suffix`; an absent one changes nothing |
| QueryFilter.ToSql | src/db/util.rs:84-103 | the clause is the AND-join of one fragment per present operator, in the order `$ne, $lt, $lte, $eq, $gte, $gt`, and the parameters are theirs in the same order |
| QueryFilter.NoComparisonNoSql | src/db/util.rs:84-103 | an operator object with no recognised comparison key compiles to an empty clause and no parameters |
| QueryFilter.ListOperatorsIgnored | src/db/util.rs:25-29 | `$in` and `$nin` change neither the fragments nor the parameters |
| QueryFilter.OneParamPerOperator | src/db/util.rs:87-100 | each present operator adds one fragment and one parameter, so there are at most six |
| QueryFilter.ParamNamesDistinct | src/db/util.rs:70-74 | every parameter is named the field plus its operator's suffix, and no two names collide |
| QueryFilter.NePlaceholderMissing | src/db/util.rs:87-94 | each comparison fragment contains the `:field_suffix` placeholder of the parameter it binds; the `$ne` fragment holds no `:field_ne` placeholder |
| QueryFilter.GteExample | src/db/util.rs:99 | `{"$gte": 25}` on `age` compiles to `age >= :age_gte` with `age_gte` bound to 25 |
| Connection.EntryCondition | src/db/connection.rs:119-163 | a key that is not a column contributes nothing; a scalar under a column always contributes a non-empty condition, with one parameter named after the column unless it is null |
| Connection.ScalarCondition | src/db/connection.rs:125-152 | a scalar condition is non-empty; null binds nothing; a boolean, number or string binds one parameter named after the column |
| Connection.AndAppend | src/db/util.rs:57 | writing `try_and!` and then a condition after the AND-join of non-empty conditions gives the AND-join with that condition appended |
| Connection.AddEntry | src/db/connection.rs:119-163 | one pass of `find`'s loop extends the AND-joined clause by the entry's condition and the parameters by its parameters |
| Connection.AddScalar | src/db/connection.rs:125-152 | the scalar arms append `IS NULL`, an equality or a `MATCH` condition after the clause so far, and bind the parameter |
| Connection.AddEquality | src/db/connection.rs:130-145 | a boolean or number appends `key=:key` and binds `key` to its value |
| Connection.AddOperators | src/db/connection.rs:156-163 | an operator object's compiled SQL is appended, with its parameters, only when it is non-empty |
| Connection.Find | src/db/connection.rs:114-168 | the WHERE clause is the AND-join of the column entries' conditions, and the parameters are theirs, in filter order; a non-object filter, an array under a column, or an operator object that cannot be compiled is outside the domain |
| Connection.UnknownKeysIgnored | src/db/connection.rs:120-123 | dropping the keys that are not columns changes neither the clause nor the parameters |
| Connection.NoColumnKeysNoClause | src/db/connection.rs:115-123 | an empty filter, or one with no column key, yields an empty clause and no parameters |
| Connection.SingleScalarFilter | src/db/connection.rs:125-152 | a one-entry filter with a scalar under a column compiles to `key IS NULL` with no parameter, to `key=:key` bound to Integer 1/0 or the number's SQL value, or to `key MATCH :key` bound to the text |
| Connection.ExampleRangeFilter | src/db/connection.rs:156-163 | `{"age": {"$gte": 25}}` compiles to `age >= :age_gte` with `age_gte = 25` |
| Connection.ExampleNullFilter | src/db/connection.rs:125-129 | `{"active": null}` compiles to `active IS NULL` with no parameter |
| Connection.Pop | src/db/connection.rs:103-104 | `pop` removes the last character when there is one, and leaves an empty string as it is |
| Connection.TerminatedJoin | src/db/connection.rs:96-102 | a comma after every element is the comma-join plus one trailing comma, or nothing for no elements |
| Connection.InsertLists | src/db/connection.rs:94-104 | the columns are the names joined by `,` and the placeholders are `:name` joined by `,`, in column order |
| Connection.PlaceholdersMatchColumns | src/db/connection.rs:96-102 | for comma-free names, both lists have one item per column, and the i-th placeholder is `:` plus the i-th column |
| Connection.Add | src/db/connection.rs:92-105 | `add`, up to its `todo!()`, keeps the record and builds the insert's column and placeholder lists |
| Connection.AddAll | src/db/connection.rs:110-112 | one `add` per record, in input order |
| Util.Split | src/util.rs:19-30 | `left` is the elements passing the filter and `right` the others, each in input order |
| Util.SplitPartition | src/util.rs:19-30 | the two sides' sizes add up to the input's, and together they are a permutation of the input |
| Util.SelectMembers | src/util.rs:22-28 | an element is on a side exactly when it occurs in the input and its test result belongs to that side |
| Util.SelectInOrder | src/util.rs:22-28 | each side is the input read at strictly increasing positions, and those positions are exactly the ones whose test result belongs to that side |
| Util.SelectAtPositions | src/util.rs:22-28 | each side is the input read at its positions |
| Util.PositionsIncreasing | src/util.rs:22-28 | the positions of a side are strictly increasing |
| Util.PositionsComplete | src/util.rs:22-28 | a position belongs to a side exactly when its element's test result does |
| Util.GroupOf | src/util.rs:33-40 | the key of the last element is present in the grouping |
| Util.Group | src/util.rs:33-40 | the loop's map is the grouping of the whole input |
| Util.GroupKeys | src/util.rs:33-40 | the keys are exactly the keys of the input's elements |
| Util.NoGroupNoneSelected | src/util.rs:36-37 | a key absent from the map is the key of no element |
| Util.GroupLists | src/util.rs:36-37 | each list is the input's elements with that key, in input order, and is non-empty |
| Util.GroupTotal | src/util.rs:35-38 | the list lengths add up to the input's length |
| Info.Entry | src/wrapper/info.rs:63-66 | a line yields an entry exactly when it contains a `:` |
| Info.EntryAtFirstColon | src/wrapper/info.rs:63-65 | a line is split at its first `:` only; key and value are trimmed, and later colons stay in the value |
| Info.AssignStep | src/wrapper/info.rs:62-66 | each line's entry, when present, is inserted into the map built from the earlier lines |
| Info.AssignUnset | src/wrapper/info.rs:62-66 | a key that no line sets is not in the block's map |
| Info.AssignLastWins | src/wrapper/info.rs:65 | the map holds the value of the last line that sets a key: a later duplicate overwrites an earlier one |
| Info.AsDependency | src/wrapper/info.rs:75 | the flag is 1 exactly when `Install Reason` is present and contains "as a dependency", and 0 otherwise |
| Info.Record | src/wrapper/info.rs:68-76 | a block yields a record exactly when it has `Name`, with the name from `Name` and the installed version from `Version` |
| Info.ParseBlock | src/wrapper/info.rs:60-66 | the inner loop builds the block's key/value map from its lines |
| Info.Parse | src/wrapper/info.rs:56-82 | the records added are those of the blocks in order, and the returned count is their number |
| Info.RecordsOfNamed | src/wrapper/info.rs:58-78 | there is exactly one record per block with a `Name`, in block order, each built from its block |
| Repo.DefaultPackage | src/wrapper/repo.rs:18-27 | the default package has empty strings and `installed = Some("")` |
| Repo.InstalledOf | src/wrapper/repo.rs:52-65 | no fourth part, or one without the `[installed` marker, gives `None`; a part with the marker always gives a version: the listed one when byte 10 is `]`, otherwise the text after the first space without its last two characters |
| Repo.OtherVersion | src/wrapper/repo.rs:56-60 | the version in `[installed: v]` is the text after the part's first space, without its last two characters |
| Repo.ParseLine | src/wrapper/repo.rs:49-71 | a line yields a package exactly when `splitn(4, ' ')` gives at least three parts |
| Repo.ParseLineWords | src/wrapper/repo.rs:49-50 | a listed line starts with its space-free repository and name, each followed by a space |
| Repo.LeadingWords | src/wrapper/repo.rs:49 | the first two of three or more `splitn` parts are space-free, and the line starts with them, each followed by a space |
| Repo.ListAll | src/wrapper/repo.rs:47-75 | the packages pushed are those of the lines in order |
| Repo.PackagesOfAccepted | src/wrapper/repo.rs:49-71 | one package per line with three or more parts, in line order, each parsed from its line |
| Repo.MarkerRoundTrip | src/wrapper/repo.rs:52-65 | `[installed]` reads back as the listed version and `[installed: v]` as `v` |
| Repo.OtherVersionMarker | src/wrapper/repo.rs:56-60 | `[installed: v]` for a version other than the listed one reads back as `v` |
| Repo.ListingLineParts | src/wrapper/repo.rs:49 | `splitn(4, ' ')` cuts a listing line into repository, name, version and marker |
| Repo.ParseListingLine | src/wrapper/repo.rs:49-71 | parsing the line `pacman -Sl` prints for a package of single words gives the package back |
| Repo.CvtObject | src/wrapper/repo.rs:30-38 | the result is an object with four entries |
| Repo.CvtObjectFields | src/wrapper/repo.rs:30-38 | `repo`, `name` and `version` are copied unchanged; `installed` is null for none and the version string otherwise |
| Repo.CvtObjectRoundTrip | src/wrapper/repo.rs:30-38 | reading the object back gives the package: nothing is lost |
| Schemas.InstalledPackageReflects | src/wrapper/info.rs:21-28 | the six fields of an installed package become six columns: five strings and an `I8` |
| Schemas.InstalledPackageTable | src/wrapper/info.rs:21-28 | the repository of installed packages gets the table `InstalledPackages` with those columns |
| Schemas.PackageWalk | src/wrapper/repo.rs:10-16 | a package is walked as a struct of four fields |
| Schemas.PackageTable | src/wrapper/repo.rs:10-16 | a package's table can be derived exactly when `installed` is present; it is then `Packages`, and otherwise the error is "Unsupported" |
| Schemas.PackageLeadingColumns | src/wrapper/repo.rs:11-13 | the three string fields become the first three columns |
| Schemas.DefaultPackageTable | src/wrapper/repo.rs:18-27 | the default package, from which the repository derives its table, yields `Packages` |
| Strings.SplitN | src/wrapper/repo.rs:49 | `splitn(n)` yields between 1 and n pieces, and a last piece short of the limit has no separator |
| Strings.JoinSplitN | src/wrapper/repo.rs:49 | joining the `splitn` pieces with the separator gives back the line, and no piece but the last holds the separator |
| Strings.JoinSplit | src/wrapper/info.rs:58-60 | joining the `split` pieces with the pattern gives back the text |
| Strings.SplitJoin | src/db/connection.rs:96-104 | a comma-join of comma-free pieces splits back into those pieces |
| Strings.Trim | src/wrapper/info.rs:65 | `trim` removes only whitespace, from both ends, and the result neither starts nor ends with whitespace |

The methods above are proved against specification functions that have no row of their own. Each is the value its method or loop computes, defined once:
- `Table.Reflect`, the `serialize_field` fold;
- `QueryFilter.Fragments` and `QueryFilter.Params`;
- `Connection.Conditions` and `Connection.Bindings`;
- `Util.Select`, `Util.Positions` and `Util.GroupOf`;
- `Info.Blocks`, `Info.Lines`, `Info.BlockMap` and `Info.Records`;
- `Repo.Packages`;
- `Strings.Split`, `Strings.Contains` and `Strings.StartsWith`, which are Rust's `str::split`, `str::contains` and `str::starts_with`.

Their properties are the lemma rows above.

## Left out

- SQLite execution is left out because it is I/O against an engine outside the model. This covers `db_init`, the `DbHandler` dereferences, `query` and `query_all` (both `todo!()`), `Repository::init`'s `execute`, and `all`. The statements `find` and `add` would run after their `todo!()` are left out for the same reason.
- `get_repository` and `get_repository_from` are covered only in what they derive: the table of a record type (`Schemas`). Executing the DDL is I/O.
- Process I/O is left out, because it runs `pacman`:
  - `list_installed`;
  - the `read_line` loop of `list_all`.
  - The parsers take the text, and the lines with their terminators, as input instead.
- `Repository::add` ends in `todo!()` (src/db/connection.rs:105), so in the source:
  - `parse` panics at the first block that has a `Name`;
  - `add_all` panics on its first record;
  - `find` panics after printing its query (src/db/connection.rs:173).
  - The model instead treats each `todo!()` as a return with what was computed before it:
    - `Connection.Add` returns the record and the insert lists;
    - `Connection.Find` returns the clause and the parameters;
    - `Info.Parse` collects the records it would add in an out-sequence, in order.
- Logging and `println!` are left out, because they are output only.
- The following are not part of this model:
  - `src/wrapper/install.rs`, glue around `pacman` invocations;
  - `src/wrapper.rs`, which depends on the absent `json_manipulator` module;
  - `src/main.rs` and `src/cli.rs`;
  - `src/ser.rs`, an error-string wrapper, modelled as the error string of `Result`;
  - `parse_json`, which calls `exit`.
- `FieldNameImpl` (src/db/field.rs:64-67) is left out. It is a private trait that no type implements, so its default `field_type` is never called.
- serde's generic `Serializer` trait dispatch is left out. The model keeps its effect, an ordered walk over value kinds, and primitive kinds carry no payload because no serializer here looks at it.
- Floating-point numbers are kept as opaque 64-bit patterns. No float arithmetic is modelled.
- The `FnMut` closures of `split` and `group` are modelled as pure functions. A closure with side effects is not captured.
- `group` returns a `HashMap`. The model is a Dafny `map`, which has no iteration order to expose.
- A JSON object is its entries in the map's iteration order. For serde_json's default `BTreeMap` that order is sorted by key, which is the order `Repo.CvtObject` lists its keys in.
- The other panics are modelled as preconditions that exclude their inputs. This covers `unreachable!`, `unwrap`, `expect`, out-of-range indexing, and the `todo!()` that `TableStructureGenerator::serialize_i32` reaches (src/db/table.rs:97-99).
- Repo.InstalledOf: byte indexing and byte slicing are modelled on characters. Byte 10 is exact after the ASCII `[installed` prefix. Dropping the last two bytes is exact only when the last two characters are ASCII, which `Repo.MarkerOk` requires. With a multi-byte tail, Rust panics when the cut falls inside a character, and drops one 2-byte character where the model would drop two; such tails are outside the model.
- Repo.MarkerOk: a fourth part that starts with `[installed` but is too short, or has no space, panics in Rust. It is excluded by precondition rather than modelled as a panic.
