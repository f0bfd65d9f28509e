/**
 * The two list helpers of `src/util.rs`: `split`, a stable partition by a
 * predicate, and `group`, a group-by-key into a map of lists. The closures
 * the source passes (`FnMut`) are modelled as pure functions.
 */
module Util {

  /**
   * The elements `x` of `xs` with `p(x) == keep`, in their order in `xs`.
   * Defined from the right so that it follows a left-to-right loop.
   */
  function Select<T>(xs: seq<T>, p: T -> bool, keep: bool): (r: seq<T>)
    ensures |r| <= |xs|
  {
    if xs == [] then []
    else
      var x := xs[|xs| - 1];
      Select(xs[..|xs| - 1], p, keep) + (if p(x) == keep then [x] else [])
  }

  /** The indices `i` of `xs` with `p(xs[i]) == keep`, in increasing order. */
  function Positions<T>(xs: seq<T>, p: T -> bool, keep: bool): (r: seq<nat>)
    ensures forall j :: 0 <= j < |r| ==> r[j] < |xs|
  {
    if xs == [] then []
    else
      var i := |xs| - 1;
      Positions(xs[..i], p, keep) + (if p(xs[i]) == keep then [i] else [])
  }

  /** `split`: the elements for which `filter` holds, then the others, each in input order. */
  method Split<T>(arr: seq<T>, filter: T -> bool) returns (left: seq<T>, right: seq<T>)
    ensures left == Select(arr, filter, true)
    ensures right == Select(arr, filter, false)
  {
    left, right := [], [];
    var i := 0;
    while i < |arr|
      invariant 0 <= i <= |arr|
      invariant left == Select(arr[..i], filter, true)
      invariant right == Select(arr[..i], filter, false)
    {
      var x := arr[i];
      assert arr[..i + 1][..i] == arr[..i];
      if filter(x) {
        left := left + [x];
      } else {
        right := right + [x];
      }
      i := i + 1;
    }
    assert arr[..|arr|] == arr;
  }

  /** Every element lands in exactly one side: sizes add up and no element is lost or invented. */
  lemma {:induction false} SplitPartition<T>(xs: seq<T>, p: T -> bool)
    ensures |Select(xs, p, true)| + |Select(xs, p, false)| == |xs|
    ensures multiset(Select(xs, p, true) + Select(xs, p, false)) == multiset(xs)
  {
    if xs != [] {
      var init := xs[..|xs| - 1];
      SplitPartition(init, p);
      assert xs == init + [xs[|xs| - 1]];
    }
  }

  /** An element is selected exactly when it occurs in the input and its test gives `keep`. */
  lemma {:induction false} SelectMembers<T>(xs: seq<T>, p: T -> bool, keep: bool)
    ensures forall x :: x in Select(xs, p, keep) ==> x in xs && p(x) == keep
    ensures forall x :: x in xs && p(x) == keep ==> x in Select(xs, p, keep)
  {
    if xs != [] {
      var init := xs[..|xs| - 1];
      SelectMembers(init, p, keep);
      assert xs == init + [xs[|xs| - 1]];
    }
  }

  /**
   * Order is kept: the selection is `xs` read at the positions where the
   * test gives `keep`, and those positions are strictly increasing and
   * are all such positions.
   */
  lemma SelectInOrder<T>(xs: seq<T>, p: T -> bool, keep: bool)
    ensures |Select(xs, p, keep)| == |Positions(xs, p, keep)|
    ensures forall j :: 0 <= j < |Positions(xs, p, keep)| ==>
              Select(xs, p, keep)[j] == xs[Positions(xs, p, keep)[j]]
    ensures forall j, k :: 0 <= j < k < |Positions(xs, p, keep)| ==>
              Positions(xs, p, keep)[j] < Positions(xs, p, keep)[k]
    ensures forall i :: 0 <= i < |xs| ==> (p(xs[i]) == keep <==> i in Positions(xs, p, keep))
  {
    SelectAtPositions(xs, p, keep);
    PositionsIncreasing(xs, p, keep);
    PositionsComplete(xs, p, keep);
  }

  /** The selection is `xs` read at the positions. */
  lemma {:induction false} SelectAtPositions<T>(xs: seq<T>, p: T -> bool, keep: bool)
    ensures |Select(xs, p, keep)| == |Positions(xs, p, keep)|
    ensures forall j :: 0 <= j < |Positions(xs, p, keep)| ==>
              Select(xs, p, keep)[j] == xs[Positions(xs, p, keep)[j]]
  {
    if xs != [] {
      var n := |xs| - 1;
      var init := xs[..n];
      SelectAtPositions(init, p, keep);
      var sel, pos := Select(init, p, keep), Positions(init, p, keep);
      forall j | 0 <= j < |Positions(xs, p, keep)|
        ensures Select(xs, p, keep)[j] == xs[Positions(xs, p, keep)[j]]
      {
        if j < |pos| {
          assert Select(xs, p, keep)[j] == sel[j] && Positions(xs, p, keep)[j] == pos[j];
          assert init[pos[j]] == xs[pos[j]];
        }
      }
    }
  }

  /** The positions are strictly increasing. */
  lemma {:induction false} PositionsIncreasing<T>(xs: seq<T>, p: T -> bool, keep: bool)
    ensures forall j, k :: 0 <= j < k < |Positions(xs, p, keep)| ==>
              Positions(xs, p, keep)[j] < Positions(xs, p, keep)[k]
  {
    if xs != [] {
      var n := |xs| - 1;
      PositionsIncreasing(xs[..n], p, keep);
    }
  }

  /** The positions are exactly the indices whose element passes the test. */
  lemma {:induction false} PositionsComplete<T>(xs: seq<T>, p: T -> bool, keep: bool)
    ensures forall i :: 0 <= i < |xs| ==> (p(xs[i]) == keep <==> i in Positions(xs, p, keep))
  {
    if xs != [] {
      var n := |xs| - 1;
      var init := xs[..n];
      PositionsComplete(init, p, keep);
      assert forall i :: 0 <= i < n ==> init[i] == xs[i];
    }
  }

  /** The test "`keyOf(x)` is `k`", used to name the members of one group. */
  function KeyIs<T>(keyOf: T -> string, k: string): T -> bool {
    x => keyOf(x) == k
  }

  /** What `group` returns for `xs`: each element appended to the list under its key. */
  function GroupOf<T>(xs: seq<T>, keyOf: T -> string): (m: map<string, seq<T>>)
    ensures xs != [] ==> keyOf(xs[|xs| - 1]) in m
  {
    if xs == [] then map[]
    else
      var m := GroupOf(xs[..|xs| - 1], keyOf);
      var x := xs[|xs| - 1];
      var k := keyOf(x);
      m[k := (if k in m then m[k] else []) + [x]]
  }

  /** `group`: the loop of the source, one map update per element. */
  method Group<T>(arr: seq<T>, keyOf: T -> string) returns (m: map<string, seq<T>>)
    ensures m == GroupOf(arr, keyOf)
  {
    m := map[];
    var i := 0;
    while i < |arr|
      invariant 0 <= i <= |arr|
      invariant m == GroupOf(arr[..i], keyOf)
    {
      var x := arr[i];
      var key := keyOf(x);
      assert arr[..i + 1][..i] == arr[..i];
      var list := if key in m then m[key] else [];
      m := m[key := list + [x]];
      i := i + 1;
    }
    assert arr[..|arr|] == arr;
  }

  /** The keys of the result are exactly the keys of the input's elements. */
  lemma {:induction false} GroupKeys<T>(xs: seq<T>, keyOf: T -> string)
    ensures GroupOf(xs, keyOf).Keys == set x | x in xs :: keyOf(x)
  {
    if xs != [] {
      var init := xs[..|xs| - 1];
      GroupKeys(init, keyOf);
      assert xs == init + [xs[|xs| - 1]];
    }
  }

  /** A key without a group selects no element. */
  lemma {:induction false} NoGroupNoneSelected<T>(xs: seq<T>, keyOf: T -> string, k: string)
    requires k !in GroupOf(xs, keyOf)
    ensures Select(xs, KeyIs(keyOf, k), true) == []
  {
    if xs != [] {
      NoGroupNoneSelected(xs[..|xs| - 1], keyOf, k);
    }
  }

  /**
   * The list under each key is the input's elements with that key, in
   * input order; in particular it is never empty.
   */
  lemma {:induction false} GroupLists<T>(xs: seq<T>, keyOf: T -> string)
    ensures forall k :: k in GroupOf(xs, keyOf) ==> GroupOf(xs, keyOf)[k] == Select(xs, KeyIs(keyOf, k), true)
    ensures forall k :: k in GroupOf(xs, keyOf) ==> GroupOf(xs, keyOf)[k] != []
  {
    if xs != [] {
      var init := xs[..|xs| - 1];
      var x := xs[|xs| - 1];
      GroupLists(init, keyOf);
      var k0 := keyOf(x);
      if k0 !in GroupOf(init, keyOf) {
        NoGroupNoneSelected(init, keyOf, k0);
      }
    }
  }

  /** The sum of the lengths of a map's lists. */
  ghost function TotalSize<T>(m: map<string, seq<T>>): nat
    decreases |m.Keys|
  {
    if m == map[] then 0
    else
      var k :| k in m;
      |m[k]| + TotalSize(m - {k})
  }

  /** The sum may be taken starting from any key. */
  lemma {:induction false} TotalSizeAt<T>(m: map<string, seq<T>>, k: string)
    requires k in m
    ensures TotalSize(m) == |m[k]| + TotalSize(m - {k})
    decreases |m.Keys|
  {
    var j :| j in m && TotalSize(m) == |m[j]| + TotalSize(m - {j});
    if j != k {
      TotalSizeAt(m - {j}, k);
      TotalSizeAt(m - {k}, j);
      assert m - {j} - {k} == m - {k} - {j};
    }
  }

  /** The per-key lists of `group` hold as many elements as the input, all told. */
  lemma {:induction false} GroupTotal<T>(xs: seq<T>, keyOf: T -> string)
    ensures TotalSize(GroupOf(xs, keyOf)) == |xs|
  {
    if xs != [] {
      var init := xs[..|xs| - 1];
      var x := xs[|xs| - 1];
      var k := keyOf(x);
      var m := GroupOf(init, keyOf);
      var m' := GroupOf(xs, keyOf);
      GroupTotal(init, keyOf);
      TotalSizeAt(m', k);
      assert m' - {k} == m - {k};
      if k in m {
        TotalSizeAt(m, k);
      } else {
        assert m - {k} == m;
      }
    }
  }
}
