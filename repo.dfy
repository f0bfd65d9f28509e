/**
 * The `pacman -Sl` line parser of `src/wrapper/repo.rs`. Each line lists
 * one available package as `repo name version`, optionally followed by an
 * installed marker: `[installed]` when the installed version is the listed
 * one, `[installed: other]` when it differs. The lines are given as they
 * come from `read_line`, line terminator included.
 */
module Repo {
  import opened Wrappers
  import opened Strings
  import Json
  import QF = QueryFilter
  import Util

  /** An available package; `installed` is the installed version, if any. */
  datatype Package = Package(repo: string, name: string, version: string, installed: Option<string>)

  /** `Package::default`: empty strings, and installed as the empty version. */
  function DefaultPackage(): (p: Package)
    ensures p.repo == "" && p.name == "" && p.version == "" && p.installed == Some("")
  {
    Package("", "", "", Some(""))
  }

  const InstalledMarker := "[installed"

  predicate IsAscii(c: char) {
    c as int < 0x80
  }

  /**
   * The fourth part of a line can be read without a panic: after the
   * installed marker there is a byte 10, and when that is not `]` there is
   * a space followed by at least two characters, which are ASCII so that
   * the byte slice dropping two bytes is the text without its last two
   * characters.
   */
  predicate MarkerOk(part: string) {
    StartsWith(part, InstalledMarker) ==>
      |part| > 10
      && (part[10] != ']' ==>
            ' ' in part
            && var ver := SplitN(part, ' ', 2)[1];
               |ver| >= 2 && IsAscii(ver[|ver| - 1]) && IsAscii(ver[|ver| - 2]))
  }

  /** The installed version a line's fourth part (if any) announces for a package listed at `version`. */
  function InstalledOf(part: Option<string>, version: string): (r: Option<string>)
    requires part.Some? ==> MarkerOk(part.value)
    ensures part.None? || !StartsWith(part.value, InstalledMarker) ==> r.None?
    ensures part.Some? && StartsWith(part.value, InstalledMarker) ==> r.Some?
    ensures r.Some? && part.value[10] == ']' ==> r.value == version
    ensures r.Some? && part.value[10] != ']' ==>
              exists i :: 0 <= i < |part.value| - 2 && part.value[i] == ' ' && ' ' !in part.value[..i]
                          && r.value == part.value[i + 1..|part.value| - 2]
  {
    match part
    case None => None
    case Some(it) =>
      if StartsWith(it, InstalledMarker) then
        if it[10] == ']' then Some(version) else Some(OtherVersion(it))
      else None
  }

  /** The version in `[installed: v]`: the text after the first space without its last two characters. */
  function OtherVersion(it: string): (r: string)
    requires ' ' in it && |SplitN(it, ' ', 2)[1]| >= 2
    ensures exists i :: 0 <= i < |it| - 2 && it[i] == ' ' && ' ' !in it[..i] && r == it[i + 1..|it| - 2]
  {
    var ver := SplitN(it, ' ', 2)[1];
    ghost var i := IndexOf(it, ' ').value;
    assert ver == it[i + 1..];
    ver[..|ver| - 2]
  }

  /** Every line of the input whose fourth part carries the installed marker can be read without a panic. */
  predicate LineOk(line: string) {
    var parts := SplitN(line, ' ', 4);
    |parts| == 4 ==> MarkerOk(parts[3])
  }

  /** The package one line lists: none when the line has fewer than three space-separated parts. */
  function ParseLine(line: string): (r: Option<Package>)
    requires LineOk(line)
    ensures r.Some? <==> Accepted(line)
  {
    var parts := SplitN(line, ' ', 4);
    if |parts| < 3 then None
    else
      var version := Trim(parts[2]);
      Some(Package(parts[0], parts[1], version, InstalledOf(if |parts| == 4 then Some(parts[3]) else None, version)))
  }

  /**
   * A line that lists a package starts with its repository and its name,
   * each followed by a space, and neither holds a space.
   */
  lemma ParseLineWords(line: string)
    requires LineOk(line) && ParseLine(line).Some?
    ensures var p := ParseLine(line).value;
            ' ' !in p.repo && ' ' !in p.name && StartsWith(line, p.repo + " " + p.name + " ")
  {
    LeadingWords(line);
  }

  /** The first two of three or more parts are space-free words, each followed by a space in the line. */
  lemma LeadingWords(line: string)
    requires |SplitN(line, ' ', 4)| >= 3
    ensures var parts := SplitN(line, ' ', 4);
            ' ' !in parts[0] && ' ' !in parts[1] && StartsWith(line, parts[0] + " " + parts[1] + " ")
  {
    JoinSplitN(line, ' ', 4);
    JoinLeading(SplitN(line, ' ', 4), line);
  }

  /** A space-join of three or more parts starts with the first two parts, each followed by a space. */
  lemma JoinLeading(parts: seq<string>, line: string)
    requires |parts| >= 3 && Join(parts, " ") == line
    ensures StartsWith(line, parts[0] + " " + parts[1] + " ")
  {
    var rest := parts[1..];
    assert parts == [parts[0]] + rest;
    JoinCons(parts[0], rest, " ");
    assert rest == [parts[1]] + parts[2..];
    JoinCons(parts[1], parts[2..], " ");
    var head := parts[0] + " " + parts[1] + " ";
    assert line == head + Join(parts[2..], " ");
    assert line[..|head|] == head;
  }

  /** The packages the lines list, in line order. */
  function Packages(lines: seq<string>): seq<Package>
    requires forall k :: 0 <= k < |lines| ==> LineOk(lines[k])
  {
    if lines == [] then []
    else
      var n := |lines| - 1;
      assert forall k :: 0 <= k < n ==> lines[..n][k] == lines[k];
      Packages(lines[..n]) + (match ParseLine(lines[n]) case Some(p) => [p] case None => [])
  }

  /**
   * `list_all` after the process is started: each line read is parsed, and
   * a package is pushed for every line that lists one.
   */
  method ListAll(lines: seq<string>) returns (data: seq<Package>)
    requires forall k :: 0 <= k < |lines| ==> LineOk(lines[k])
    ensures data == Packages(lines)
  {
    data := [];
    var i := 0;
    while i < |lines|
      invariant 0 <= i <= |lines|
      invariant data == Packages(lines[..i])
    {
      var buf := lines[i];
      assert lines[..i + 1][..i] == lines[..i];
      assert forall k :: 0 <= k < i ==> lines[..i][k] == lines[k];
      var package := ParseLine(buf);
      if package.Some? {
        data := data + [package.value];
      }
      i := i + 1;
    }
    assert lines[..|lines|] == lines;
  }

  /** The line carries at least three space-separated parts. */
  function Accepted(line: string): bool {
    |SplitN(line, ' ', 4)| >= 3
  }

  /** One package per accepted line, in line order, each parsed from its line. */
  lemma {:induction false} PackagesOfAccepted(lines: seq<string>)
    requires forall k :: 0 <= k < |lines| ==> LineOk(lines[k])
    ensures |Packages(lines)| == |Util.Select(lines, Accepted, true)|
    ensures forall j :: 0 <= j < |Packages(lines)| ==>
              LineOk(Util.Select(lines, Accepted, true)[j])
              && ParseLine(Util.Select(lines, Accepted, true)[j]) == Some(Packages(lines)[j])
  {
    if lines != [] {
      var n := |lines| - 1;
      assert forall k :: 0 <= k < n ==> lines[..n][k] == lines[k];
      PackagesOfAccepted(lines[..n]);
      var sel := Util.Select(lines[..n], Accepted, true);
      assert Util.Select(lines, Accepted, true) == sel + (if Accepted(lines[n]) then [lines[n]] else []);
      var sel' := Util.Select(lines, Accepted, true);
      var prev := Packages(lines[..n]);
      assert Packages(lines) == prev + (if Accepted(lines[n]) then [ParseLine(lines[n]).value] else []);
      forall j | 0 <= j < |Packages(lines)|
        ensures LineOk(sel'[j]) && ParseLine(sel'[j]) == Some(Packages(lines)[j])
      {
        if j < |prev| {
          assert sel'[j] == sel[j] && Packages(lines)[j] == prev[j];
        } else {
          assert sel'[j] == lines[n];
        }
      }
    }
  }

  /** The text has no whitespace at all. */
  predicate Word(s: string) {
    forall i :: 0 <= i < |s| ==> !IsWhitespace(s[i])
  }

  /** A package pacman can list: repository, name and version are single words. */
  predicate Listable(p: Package) {
    ' ' !in p.repo && ' ' !in p.name && Word(p.version)
  }

  /** The installed marker `pacman -Sl` prints for an installed version `v` of a package listed at `version`. */
  function Marker(v: string, version: string): string {
    if v == version then "[installed]\n" else "[installed: " + v + "]\n"
  }

  /** The line `pacman -Sl` prints for a package, with its line terminator. */
  function ListingLine(p: Package): string {
    p.repo + " " + p.name + " " + p.version
    + match p.installed
      case None => "\n"
      case Some(v) => " " + Marker(v, p.version)
  }

  /** The installed marker reads back as the installed version. */
  lemma MarkerRoundTrip(v: string, version: string)
    ensures MarkerOk(Marker(v, version)) && InstalledOf(Some(Marker(v, version)), version) == Some(v)
  {
    if v == version {
      assert StartsWith(Marker(v, version), InstalledMarker);
    } else {
      OtherVersionMarker(v, version);
    }
  }

  /** The `[installed: v]` marker reads back as `v`. */
  lemma OtherVersionMarker(v: string, version: string)
    requires v != version
    ensures MarkerOk(Marker(v, version)) && InstalledOf(Some(Marker(v, version)), version) == Some(v)
  {
    OtherMarkerShape(v, version);
    var ver := v + "]\n";
    assert ver[|ver| - 1] == '\n' && ver[|ver| - 2] == ']';
    assert ver[..|ver| - 2] == v;
  }

  /** The `[installed: v]` marker: the marker prefix, a colon at byte 10, and `v]` plus the terminator after the space. */
  lemma OtherMarkerShape(v: string, version: string)
    requires v != version
    ensures var it := Marker(v, version);
            StartsWith(it, InstalledMarker) && |it| > 10 && it[10] == ':' && ' ' in it
            && SplitN(it, ' ', 2) == ["[installed:", v + "]\n"]
  {
    var it := Marker(v, version);
    var head, ver := "[installed:", v + "]\n";
    assert it == head + [' '] + ver;
    assert it[..10] == head[..10] == InstalledMarker;
    assert it[10] == ':' && it[11] == ' ';
    SplitNAt(head, ' ', ver, 2);
  }

  /** Two space-free words and a rest: the first two parts are the words. */
  lemma TwoWords(a: string, b: string, rest: string)
    requires ' ' !in a && ' ' !in b
    ensures SplitN(a + " " + b + " " + rest, ' ', 4) == [a, b] + SplitN(rest, ' ', 2)
  {
    assert a + " " + b + " " + rest == a + [' '] + (b + [' '] + rest);
    SplitNAt(a, ' ', b + [' '] + rest, 4);
    SplitNAt(b, ' ', rest, 3);
  }

  /** The parts `splitn(4, ' ')` cuts a listed line into. */
  lemma ListingLineParts(p: Package)
    requires Listable(p)
    ensures SplitN(ListingLine(p), ' ', 4)
      == match p.installed
         case None => [p.repo, p.name, p.version + "\n"]
         case Some(v) => [p.repo, p.name, p.version, Marker(v, p.version)]
  {
    assert ' ' !in p.version by {
      assert forall i :: 0 <= i < |p.version| ==> p.version[i] != ' ';
    }
    match p.installed
    case None =>
      assert ListingLine(p) == p.repo + " " + p.name + " " + (p.version + "\n");
      TwoWords(p.repo, p.name, p.version + "\n");
      assert ' ' !in p.version + "\n";
    case Some(v) =>
      var m := Marker(v, p.version);
      assert ListingLine(p) == p.repo + " " + p.name + " " + (p.version + [' '] + m);
      TwoWords(p.repo, p.name, p.version + [' '] + m);
      SplitNAt(p.version, ' ', m, 2);
  }

  /** Parsing the line listed for a package gives the package back. */
  lemma ParseListingLine(p: Package)
    requires Listable(p)
    ensures LineOk(ListingLine(p)) && ParseLine(ListingLine(p)) == Some(p)
  {
    ListingLineParts(p);
    match p.installed
    case None =>
      TrimPadding(p.version, "\n");
    case Some(v) =>
      assert p.version + "" == p.version;
      TrimPadding(p.version, "");
      MarkerRoundTrip(v, p.version);
  }

  /** `cvt_object`: the package as a JSON object, `installed` null when absent (keys in map order). */
  function CvtObject(p: Package): (j: Json.Json)
    ensures j.Object? && |j.entries| == 4
  {
    var installed := match p.installed case None => Json.Null case Some(s) => Json.String(s);
    Json.Object([
      ("installed", installed),
      ("name", Json.String(p.name)),
      ("repo", Json.String(p.repo)),
      ("version", Json.String(p.version))])
  }

  /** The string under `key`, if the object has one. */
  function StringAt(entries: seq<(string, Json.Json)>, key: string): Option<string> {
    match QF.Get(entries, key)
    case Some(String(s)) => Some(s)
    case _ => None
  }

  /** The `installed` value read back: a missing key or null is absent, a string is the version. */
  function InstalledAt(entries: seq<(string, Json.Json)>): Option<Option<string>> {
    match QF.Get(entries, "installed")
    case None => Some(None)
    case Some(Null) => Some(None)
    case Some(String(s)) => Some(Some(s))
    case _ => None
  }

  /** Reading a package back from a JSON object, as its derived deserializer does. */
  function FromObject(j: Json.Json): Option<Package> {
    if j.Object? && StringAt(j.entries, "repo").Some? && StringAt(j.entries, "name").Some?
       && StringAt(j.entries, "version").Some? && InstalledAt(j.entries).Some?
    then
      Some(Package(StringAt(j.entries, "repo").value, StringAt(j.entries, "name").value,
                   StringAt(j.entries, "version").value, InstalledAt(j.entries).value))
    else None
  }

  /** Each field of the package sits under its own key in the object `cvt_object` builds. */
  lemma CvtObjectFields(p: Package)
    ensures StringAt(CvtObject(p).entries, "repo") == Some(p.repo)
    ensures StringAt(CvtObject(p).entries, "name") == Some(p.name)
    ensures StringAt(CvtObject(p).entries, "version") == Some(p.version)
    ensures InstalledAt(CvtObject(p).entries) == Some(p.installed)
  {
    CvtObjectInstalled(p);
    CvtObjectString(p, "name", 1, p.name);
    CvtObjectString(p, "repo", 2, p.repo);
    CvtObjectString(p, "version", 3, p.version);
  }

  /** A string field reads back from its entry. */
  lemma CvtObjectString(p: Package, key: string, i: nat, s: string)
    requires i < 4 && CvtObject(p).entries[i] == (key, Json.String(s))
    ensures StringAt(CvtObject(p).entries, key) == Some(s)
  {
    CvtObjectAt(p, key, i);
  }

  /** `installed` reads back as the installed version, null as none. */
  lemma CvtObjectInstalled(p: Package)
    ensures InstalledAt(CvtObject(p).entries) == Some(p.installed)
  {
    CvtObjectAt(p, "installed", 0);
    var e := CvtObject(p).entries;
    match p.installed
    case None =>
      assert QF.Get(e, "installed") == Some(Json.Null);
    case Some(v) =>
      assert QF.Get(e, "installed") == Some(Json.String(v));
  }

  /** The value under the key of entry `i` is that entry's value. */
  lemma CvtObjectAt(p: Package, key: string, i: nat)
    requires i < 4 && CvtObject(p).entries[i].0 == key
    ensures QF.Get(CvtObject(p).entries, key) == Some(CvtObject(p).entries[i].1)
  {
    CvtObjectKeys(p);
    QF.GetFirst(CvtObject(p).entries, key, i);
  }

  /** The keys of the object are distinct, each one differing from the earlier ones. */
  lemma CvtObjectKeys(p: Package)
    ensures var e := CvtObject(p).entries;
            e[0].0 == "installed" && e[1].0 == "name" && e[2].0 == "repo" && e[3].0 == "version"
            && (forall j :: 0 <= j < 1 ==> e[j].0 != "name")
            && (forall j :: 0 <= j < 2 ==> e[j].0 != "repo")
            && (forall j :: 0 <= j < 3 ==> e[j].0 != "version")
  {
    assert "installed"[0] != "name"[0] && "installed"[0] != "repo"[0] && "installed"[0] != "version"[0];
    assert "name"[0] != "repo"[0] && "name"[0] != "version"[0] && "repo"[0] != "version"[0];
  }

  /** The object `cvt_object` builds holds the whole package: reading it back gives the package. */
  lemma CvtObjectRoundTrip(p: Package)
    ensures FromObject(CvtObject(p)) == Some(p)
  {
    CvtObjectFields(p);
  }
}
