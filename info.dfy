/**
 * The `pacman -Qi` output parser of `src/wrapper/info.rs`. The output is a
 * sequence of blank-line separated blocks of `Key : Value` lines; every
 * block that names a package becomes one `InstalledPackage` record handed
 * to the repository. Here the repository's `add` is an out-sequence that
 * collects the records in order.
 */
module Info {
  import opened Wrappers
  import opened Strings
  import opened Field
  import S = SerdeData
  import Table
  import Util
  import FieldTypeExtractor

  /** One installed package; `asDependency` is 1 or 0 (the source stores the flag as `i8`). */
  datatype InstalledPackage = InstalledPackage(
    name: string,
    installed: string,
    architecture: string,
    url: string,
    packager: string,
    asDependency: int)

  /**
   * What one line contributes: split at its first `:` only, key and value
   * trimmed; a line without `:` contributes nothing.
   */
  function Entry(line: string): (r: Option<(string, string)>)
    ensures r.None? <==> ':' !in line
  {
    var parts := SplitN(line, ':', 2);
    if |parts| == 2 then Some((Trim(parts[0]), Trim(parts[1]))) else None
  }

  /** A line `k:v` whose key part has no colon gives the entry (trimmed `k`, trimmed `v`), colons in `v` kept. */
  lemma EntryAtFirstColon(k: string, v: string)
    requires ':' !in k
    ensures Entry(k + ":" + v) == Some((Trim(k), Trim(v)))
  {
    var s := k + ":" + v;
    assert forall i :: 0 <= i < |k| ==> s[i] == k[i];
    assert s[|k|] == ':' && s[..|k|] == k && s[|k| + 1..] == v;
    assert IndexOf(s, ':') == Some(|k|);
  }

  /** The map built from `entries` in order: a later entry for a key overwrites an earlier one. */
  function Assign(entries: seq<Option<(string, string)>>): map<string, string> {
    if entries == [] then map[]
    else
      var m := Assign(entries[..|entries| - 1]);
      var e := entries[|entries| - 1];
      if e.Some? then m[e.value.0 := e.value.1] else m
  }

  /** Taking one more entry applies it to the map built so far. */
  lemma AssignStep(entries: seq<Option<(string, string)>>, j: nat)
    requires j < |entries|
    ensures Assign(entries[..j + 1]) ==
              if entries[j].Some? then Assign(entries[..j])[entries[j].value.0 := entries[j].value.1]
              else Assign(entries[..j])
  {
    assert entries[..j + 1][..j] == entries[..j];
  }

  /** What each line of a block contributes. */
  function Entries(lines: seq<string>): (r: seq<Option<(string, string)>>)
    ensures |r| == |lines| && forall i :: 0 <= i < |lines| ==> r[i] == Entry(lines[i])
  {
    seq(|lines|, i requires 0 <= i < |lines| => Entry(lines[i]))
  }

  /** The key/value map of a block of lines. */
  function BlockMap(lines: seq<string>): map<string, string> {
    Assign(Entries(lines))
  }

  /** The entry sets key `k`. */
  predicate SetsKey(e: Option<(string, string)>, k: string) {
    e.Some? && e.value.0 == k
  }

  /** A key no entry sets is not in the map. */
  lemma {:induction false} AssignUnset(entries: seq<Option<(string, string)>>, k: string)
    requires forall j :: 0 <= j < |entries| ==> !SetsKey(entries[j], k)
    ensures k !in Assign(entries)
  {
    if entries != [] {
      var n := |entries| - 1;
      assert forall j :: 0 <= j < n ==> entries[..n][j] == entries[j];
      AssignUnset(entries[..n], k);
    }
  }

  /**
   * When entry `j` is the last one that sets `k`, the map holds that
   * entry's value for `k`: a later duplicate key overwrites an earlier one.
   */
  lemma {:induction false} AssignLastWins(entries: seq<Option<(string, string)>>, j: nat, k: string)
    requires j < |entries| && SetsKey(entries[j], k)
    requires forall j' :: j < j' < |entries| ==> !SetsKey(entries[j'], k)
    ensures k in Assign(entries) && Assign(entries)[k] == entries[j].value.1
  {
    var n := |entries| - 1;
    if j < n {
      assert forall i :: 0 <= i < n ==> entries[..n][i] == entries[i];
      AssignLastWins(entries[..n], j, k);
    }
  }

  /** A block that names a package also has the keys the source unwraps. */
  predicate Complete(m: map<string, string>) {
    "Name" in m ==> "Version" in m && "Architecture" in m && "URL" in m && "Packager" in m
  }

  /** `as_dependency`: set exactly when the install reason mentions "as a dependency". */
  function AsDependency(m: map<string, string>): (r: int)
    ensures r == 0 || r == 1
    ensures r == 1 <==> "Install Reason" in m && Contains(m["Install Reason"], "as a dependency")
  {
    if "Install Reason" in m && Contains(m["Install Reason"], "as a dependency") then 1 else 0
  }

  /** The record a block's map yields: one exactly when the block has a `Name`. */
  function Record(m: map<string, string>): (r: Option<InstalledPackage>)
    requires Complete(m)
    ensures r.Some? <==> "Name" in m
    ensures r.Some? ==> r.value.name == m["Name"] && r.value.installed == m["Version"]
  {
    if "Name" in m then
      Some(InstalledPackage(
        m["Name"], m["Version"], m["Architecture"], m["URL"], m["Packager"], AsDependency(m)))
    else None
  }

  /** The blocks of the output and the lines of a block. */
  function Blocks(text: string): seq<string> { Split(text, "\n\n") }
  function Lines(block: string): seq<string> { Split(block, "\n") }

  /** The block names a package. */
  function Named(block: string): bool {
    "Name" in BlockMap(Lines(block))
  }

  /** Every block that names a package has the other keys the source unwraps. */
  predicate Parsable(text: string) {
    forall b :: b in Blocks(text) ==> Complete(BlockMap(Lines(b)))
  }

  /** The records the blocks yield, in block order. */
  function Records(blocks: seq<string>): seq<InstalledPackage>
    requires forall b :: b in blocks ==> Complete(BlockMap(Lines(b)))
  {
    if blocks == [] then []
    else
      var n := |blocks| - 1;
      assert forall b :: b in blocks[..n] ==> b in blocks;
      var m := BlockMap(Lines(blocks[n]));
      Records(blocks[..n]) + (match Record(m) case Some(p) => [p] case None => [])
  }

  /**
   * `parse`: the blocks in order, each block's lines into a map, and one
   * record added and counted per block with a `Name`. Returns the count and
   * the records added.
   */
  method Parse(text: string) returns (count: nat, added: seq<InstalledPackage>)
    requires Parsable(text)
    ensures added == Records(Blocks(text))
    ensures count == |added|
  {
    count, added := 0, [];
    var packages := Split(text, "\n\n");
    var i := 0;
    while i < |packages|
      invariant 0 <= i <= |packages|
      invariant forall b :: b in packages[..i] ==> b in packages
      invariant added == Records(packages[..i]) && count == |added|
    {
      var map_ := ParseBlock(packages[i]);
      assert packages[i] in packages;
      assert Complete(map_);
      assert packages[..i + 1][..i] == packages[..i];
      if "Name" in map_ {
        added := added + [InstalledPackage(
          map_["Name"], map_["Version"], map_["Architecture"], map_["URL"], map_["Packager"],
          AsDependency(map_))];
        count := count + 1;
      }
      i := i + 1;
    }
    assert packages[..|packages|] == packages;
  }

  /** The inner loop of `parse`: one map update per line of a block that has a `:`. */
  method ParseBlock(block: string) returns (map_: map<string, string>)
    ensures map_ == BlockMap(Lines(block))
  {
    var lines := Split(block, "\n");
    map_ := map[];
    var j := 0;
    while j < |lines|
      invariant 0 <= j <= |lines|
      invariant map_ == Assign(Entries(lines)[..j])
    {
      var l := SplitN(lines[j], ':', 2);
      AssignStep(Entries(lines), j);
      assert Entries(lines)[j] == if |l| == 2 then Some((Trim(l[0]), Trim(l[1]))) else None;
      if |l| == 2 {
        map_ := map_[Trim(l[0]) := Trim(l[1])];
      }
      j := j + 1;
    }
    assert Entries(lines)[..|lines|] == Entries(lines);
  }

  /**
   * Exactly one record per block that names a package, in block order, each
   * built from that block: the count `parse` returns is the number of named
   * blocks.
   */
  lemma {:induction false} RecordsOfNamed(blocks: seq<string>)
    requires forall b :: b in blocks ==> Complete(BlockMap(Lines(b)))
    ensures |Records(blocks)| == |Util.Select(blocks, Named, true)|
    ensures forall j :: 0 <= j < |Records(blocks)| ==>
              Complete(BlockMap(Lines(Util.Select(blocks, Named, true)[j])))
              && Record(BlockMap(Lines(Util.Select(blocks, Named, true)[j]))) == Some(Records(blocks)[j])
  {
    if blocks != [] {
      var n := |blocks| - 1;
      var prefix := blocks[..n];
      assert forall b :: b in prefix ==> b in blocks;
      RecordsOfNamed(prefix);
      assert blocks[n] in blocks;
      var m := BlockMap(Lines(blocks[n]));
      var tail := match Record(m) case Some(p) => [p] case None => [];
      assert Records(blocks) == Records(prefix) + tail;
      var sel, sel0 := Util.Select(blocks, Named, true), Util.Select(prefix, Named, true);
      assert sel == sel0 + (if Named(blocks[n]) then [blocks[n]] else []);
      forall j | 0 <= j < |Records(blocks)|
        ensures Complete(BlockMap(Lines(sel[j])))
        ensures Record(BlockMap(Lines(sel[j]))) == Some(Records(blocks)[j])
      {
        if j < |Records(prefix)| {
          assert sel[j] == sel0[j] && Records(blocks)[j] == Records(prefix)[j];
        } else {
          assert sel[j] == blocks[n];
        }
      }
    }
  }
}
