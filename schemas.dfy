/**
 * The tables the two package repositories get: the serde walk of each
 * record type through the schema reflector.
 */
module Schemas {
  import opened Wrappers
  import opened Field
  import S = SerdeData
  import Table
  import FieldTypeExtractor
  import Repo

  /** The serde walk of an `InstalledPackage`: six fields, five strings and an `i8`. */
  const InstalledPackageShape: S.Value := S.Struct("InstalledPackage", [
    ("name", S.Str), ("installed", S.Str), ("architecture", S.Str),
    ("url", S.Str), ("packager", S.Str), ("as_dependency", S.I8)])

  /** The columns of an installed package, in declaration order. */
  const InstalledPackageColumns: seq<Field> := [
    Field("name", FieldType.String), Field("installed", FieldType.String),
    Field("architecture", FieldType.String), Field("url", FieldType.String),
    Field("packager", FieldType.String), Field("as_dependency", I8)]

  /** Every field of an installed package is a typed column: five `TEXT`-like strings and a `TINYINT`. */
  lemma InstalledPackageReflects()
    ensures Table.Reflect(InstalledPackageShape.fields) == Ok(InstalledPackageColumns)
  {
    var e := InstalledPackageShape.fields;
    var c := InstalledPackageColumns;
    assert forall i :: 0 <= i < |e| ==> |e[i].0| != 5 && e[i].0 == c[i].name;
    assert forall i :: 0 <= i < |e| ==> FieldTypeExtractor.Classify(e[i].1) == Ok(c[i].typ);
    Table.ReflectPlainColumns(e, c);
  }

  /** The table the repository of installed packages gets: `InstalledPackages`, one column per field. */
  lemma InstalledPackageTable()
    ensures Table.SchemaOf(InstalledPackageShape) == Ok(Table.Schema("InstalledPackages", InstalledPackageColumns))
  {
    InstalledPackageReflects();
    assert "InstalledPackage" + "s" == "InstalledPackages";
  }

  /**
   * The serde walk of a `Package`: three strings, then `installed`, which
   * serde walks as `Some(str)` or `None`.
   */
  function PackageWalk(p: Repo.Package): (v: S.Value)
    ensures v.Struct? && |v.fields| == 4
  {
    S.Struct("Package", [
      ("repo", S.Str), ("name", S.Str), ("version", S.Str),
      ("installed", if p.installed.Some? then S.Some(S.Str) else S.None)])
  }

  /** The columns of an available package, in declaration order. */
  const PackageColumns: seq<Field> := [
    Field("repo", FieldType.String), Field("name", FieldType.String),
    Field("version", FieldType.String), Field("installed", FieldType.String)]

  /**
   * A package's table can be derived exactly when its `installed` is
   * present; it is then `Packages`, with `installed` a string column. This
   * is why `Package::default`, which the repository derives its table
   * from, has `installed` set.
   */
  lemma PackageTable(p: Repo.Package)
    ensures Table.SchemaOf(PackageWalk(p)).Ok? <==> p.installed.Some?
    ensures p.installed.Some? ==> Table.SchemaOf(PackageWalk(p)) == Ok(Table.Schema("Packages", PackageColumns))
    ensures p.installed.None? ==> Table.SchemaOf(PackageWalk(p)) == Err("Unsupported")
  {
    var e := PackageWalk(p).fields;
    PackageLeadingColumns(p);
    assert e[..4] == e;
    if p.installed.Some? {
      assert FieldTypeExtractor.Classify(e[3].1) == Ok(FieldType.String);
      assert PackageColumns[..3] + [Field("installed", FieldType.String)] == PackageColumns;
    } else {
      assert FieldTypeExtractor.Classify(e[3].1) == Err("Unsupported");
    }
    assert "Package" + "s" == "Packages";
  }

  /** The three string fields of a package become its first three columns. */
  lemma PackageLeadingColumns(p: Repo.Package)
    ensures Table.Reflect(PackageWalk(p).fields[..3]) == Ok(PackageColumns[..3])
  {
    var e := PackageWalk(p).fields[..3];
    var c := PackageColumns[..3];
    assert forall i :: 0 <= i < 3 ==> |e[i].0| != 5 && e[i].0 == c[i].name;
    assert forall i :: 0 <= i < 3 ==> FieldTypeExtractor.Classify(e[i].1) == Ok(c[i].typ);
    Table.ReflectPlainColumns(e, c);
  }

  /** The repository of available packages gets the `Packages` table. */
  lemma DefaultPackageTable()
    ensures Table.SchemaOf(PackageWalk(Repo.DefaultPackage())) == Ok(Table.Schema("Packages", PackageColumns))
  {
    PackageTable(Repo.DefaultPackage());
  }
}
