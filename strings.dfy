/**
 * Text helpers with the semantics of the Rust standard library functions the
 * source calls: `str::split`, `str::splitn`, `str::trim`, `str::contains`,
 * `str::starts_with`, and the comma-separated joins the source builds by hand.
 * Strings are sequences of Unicode scalar values (`char`).
 */
module Strings {
  import opened Wrappers

  /** Rust's `char::is_whitespace`: the Unicode White_Space property. */
  predicate IsWhitespace(c: char) {
    ('\U{0009}' <= c <= '\U{000D}') || c == ' ' || c == '\U{0085}' || c == '\U{00A0}'
    || c == '\U{1680}' || ('\U{2000}' <= c <= '\U{200A}') || c == '\U{2028}'
    || c == '\U{2029}' || c == '\U{202F}' || c == '\U{205F}' || c == '\U{3000}'
  }

  predicate AllWhitespace(s: string) {
    forall i :: 0 <= i < |s| ==> IsWhitespace(s[i])
  }

  /** `s.starts_with(p)`. */
  predicate StartsWith(s: string, p: string) {
    |p| <= |s| && s[..|p|] == p
  }

  /** `s.contains(sub)`: `sub` occurs somewhere in `s` (the empty string always does). */
  predicate Contains(s: string, sub: string) {
    StartsWith(s, sub) || (|s| > 0 && Contains(s[1..], sub))
  }

  /** The elements of `xs` with `sep` between each two neighbours. */
  function Join(xs: seq<string>, sep: string): string {
    if |xs| == 0 then ""
    else if |xs| == 1 then xs[0]
    else xs[0] + sep + Join(xs[1..], sep)
  }

  /** Appending one more element to a join adds the separator only if the join was of something. */
  lemma {:induction false} JoinSnoc(xs: seq<string>, x: string, sep: string)
    ensures Join(xs + [x], sep) == if xs == [] then x else Join(xs, sep) + sep + x
  {
    if |xs| >= 2 {
      assert (xs + [x])[1..] == xs[1..] + [x];
      JoinSnoc(xs[1..], x, sep);
    } else if |xs| == 1 {
      assert (xs + [x])[1..] == [x];
    }
  }

  /** A join of non-empty pieces is empty exactly when there are no pieces. */
  lemma {:induction false} JoinEmpty(xs: seq<string>, sep: string)
    requires forall i :: 0 <= i < |xs| ==> xs[i] != ""
    ensures Join(xs, sep) == "" <==> xs == []
  {
    if |xs| >= 2 {
      assert |Join(xs, sep)| >= |xs[0]|;
    }
  }

  /** The index of the first `c` in `s`, if any. */
  function IndexOf(s: string, c: char): (r: Option<nat>)
    ensures r.Some? ==> r.value < |s| && s[r.value] == c && c !in s[..r.value]
    ensures r.None? <==> c !in s
  {
    if |s| == 0 then None
    else if s[0] == c then Some(0)
    else
      match IndexOf(s[1..], c)
      case None => None
      case Some(i) =>
        assert s[..i + 1] == [s[0]] + s[1..][..i];
        Some(i + 1)
  }

  /**
   * `s.split(pat)` with `cur` the piece read so far: the pieces between the
   * non-overlapping occurrences of `pat`, searched from the left.
   */
  function SplitFrom(s: string, pat: string, cur: string): (r: seq<string>)
    requires |pat| > 0
    ensures |r| > 0
    decreases |s|
  {
    if |s| < |pat| then [cur + s]
    else if s[..|pat|] == pat then [cur] + SplitFrom(s[|pat|..], pat, "")
    else SplitFrom(s[1..], pat, cur + [s[0]])
  }

  /** `s.split(pat)` for a non-empty pattern. */
  function Split(s: string, pat: string): (r: seq<string>)
    requires |pat| > 0
    ensures |r| > 0
  {
    SplitFrom(s, pat, "")
  }

  lemma {:induction false} JoinSplitFrom(s: string, pat: string, cur: string)
    requires |pat| > 0
    ensures Join(SplitFrom(s, pat, cur), pat) == cur + s
    decreases |s|
  {
    if |s| < |pat| {
    } else if s[..|pat|] == pat {
      JoinSplitFrom(s[|pat|..], pat, "");
      assert s == pat + s[|pat|..];
    } else {
      JoinSplitFrom(s[1..], pat, cur + [s[0]]);
      assert s == [s[0]] + s[1..];
    }
  }

  /** Splitting loses nothing: joining the pieces with the pattern gives back the input. */
  lemma JoinSplit(s: string, pat: string)
    requires |pat| > 0
    ensures Join(Split(s, pat), pat) == s
  {
    JoinSplitFrom(s, pat, "");
  }

  /**
   * `s.splitn(n, c)`: at most `n` pieces; the last piece holds the rest of
   * the input, separators included.
   */
  function SplitN(s: string, c: char, n: nat): (r: seq<string>)
    requires n >= 1
    ensures 1 <= |r| <= n
    ensures |r| < n ==> c !in r[|r| - 1]
    decreases n
  {
    if n == 1 then [s]
    else
      match IndexOf(s, c)
      case None => [s]
      case Some(i) => [s[..i]] + SplitN(s[i + 1..], c, n - 1)
  }

  /** Splitting at most `n` times loses nothing either; no piece but the last holds the separator. */
  lemma {:induction false} JoinSplitN(s: string, c: char, n: nat)
    requires n >= 1
    ensures Join(SplitN(s, c, n), [c]) == s
    ensures forall k :: 0 <= k < |SplitN(s, c, n)| - 1 ==> c !in SplitN(s, c, n)[k]
    decreases n
  {
    if n > 1 {
      match IndexOf(s, c)
      case None =>
      case Some(i) =>
        JoinSplitN(s[i + 1..], c, n - 1);
        SplitNJoinStep(s, c, n, i, SplitN(s[i + 1..], c, n - 1));
        SplitNSepStep(s, c, n, i, SplitN(s[i + 1..], c, n - 1));
    }
  }

  /** One step of `JoinSplitN`: the first piece, the separator, then the join of the rest. */
  lemma SplitNJoinStep(s: string, c: char, n: nat, i: nat, rest: seq<string>)
    requires n > 1 && IndexOf(s, c) == Some(i) && rest == SplitN(s[i + 1..], c, n - 1)
    requires Join(rest, [c]) == s[i + 1..]
    ensures Join(SplitN(s, c, n), [c]) == s
  {
    SplitNFirst(s, c, n, i);
    JoinCons(s[..i], rest, [c]);
    SliceAround(s, i);
  }

  /** With a separator at `i`, the first piece is what precedes it. */
  lemma SplitNFirst(s: string, c: char, n: nat, i: nat)
    requires n > 1 && IndexOf(s, c) == Some(i)
    ensures SplitN(s, c, n) == [s[..i]] + SplitN(s[i + 1..], c, n - 1)
  {
  }

  /** Joining a first element onto a non-empty rest puts the separator between them. */
  lemma JoinCons(x: string, rest: seq<string>, sep: string)
    requires rest != []
    ensures Join([x] + rest, sep) == x + sep + Join(rest, sep)
  {
    assert ([x] + rest)[1..] == rest;
  }

  /** A string is the part before index `i`, the character at `i` and the part after. */
  lemma SliceAround(s: string, i: nat)
    requires i < |s|
    ensures s == s[..i] + [s[i]] + s[i + 1..]
  {
  }

  /** One step of `JoinSplitN`: the first piece has no separator, the others are the rest's pieces. */
  lemma SplitNSepStep(s: string, c: char, n: nat, i: nat, rest: seq<string>)
    requires n > 1 && IndexOf(s, c) == Some(i) && rest == SplitN(s[i + 1..], c, n - 1)
    requires forall k :: 0 <= k < |rest| - 1 ==> c !in rest[k]
    ensures forall k :: 0 <= k < |SplitN(s, c, n)| - 1 ==> c !in SplitN(s, c, n)[k]
  {
    var r := [s[..i]] + rest;
    SplitNFirst(s, c, n, i);
    forall k | 0 <= k < |r| - 1
      ensures c !in r[k]
    {
      if k > 0 {
        assert r[k] == rest[k - 1];
      }
    }
  }

  function TrimStart(s: string): (r: string)
    ensures |r| <= |s| && r == s[|s| - |r|..]
    ensures AllWhitespace(s[..|s| - |r|])
    ensures r == [] || !IsWhitespace(r[0])
  {
    if |s| > 0 && IsWhitespace(s[0]) then
      var r := TrimStart(s[1..]);
      ghost var k := |s| - |r|;
      assert forall i :: 1 <= i < k ==> s[..k][i] == s[1..][..k - 1][i - 1];
      r
    else s
  }

  function TrimEnd(s: string): (r: string)
    ensures |r| <= |s| && r == s[..|r|]
    ensures AllWhitespace(s[|r|..])
    ensures r == [] || !IsWhitespace(r[|r| - 1])
  {
    if |s| > 0 && IsWhitespace(s[|s| - 1]) then
      var r := TrimEnd(s[..|s| - 1]);
      assert forall i :: 0 <= i < |s| - 1 - |r| ==> s[|r|..][i] == s[..|s| - 1][|r|..][i];
      r
    else s
  }

  /** `r` is `s` with some whitespace removed from both ends. */
  ghost predicate PaddedBy(s: string, r: string) {
    exists i :: 0 <= i <= |s| - |r| && AllWhitespace(s[..i]) && r == s[i..i + |r|]
      && AllWhitespace(s[i + |r|..])
  }

  /** `s.trim()`: `s` without its leading and trailing whitespace. */
  function Trim(s: string): (r: string)
    ensures PaddedBy(s, r)
    ensures r == [] || (!IsWhitespace(r[0]) && !IsWhitespace(r[|r| - 1]))
  {
    var t := TrimStart(s);
    var r := TrimEnd(t);
    TrimWitness(s, t, r);
    r
  }

  /** Trimming a suffix off the result of trimming a prefix leaves `s` padded on both sides. */
  lemma TrimWitness(s: string, t: string, r: string)
    requires |t| <= |s| && t == s[|s| - |t|..] && AllWhitespace(s[..|s| - |t|])
    requires |r| <= |t| && r == t[..|r|] && AllWhitespace(t[|r|..])
    ensures PaddedBy(s, r)
    ensures r != [] ==> r[0] == t[0]
  {
    var i := |s| - |t|;
    assert r == s[i..i + |r|];
    assert s[i + |r|..] == t[|r|..];
  }

  /** A non-empty string occurs only where its first character does. */
  lemma {:induction false} ContainsFirst(s: string, sub: string)
    requires |sub| > 0 && sub[0] !in s
    ensures !Contains(s, sub)
  {
    if |s| > 0 {
      assert s[0] != sub[0];
      ContainsFirst(s[1..], sub);
    }
  }

  /** A string occurs in any text that ends with it. */
  lemma {:induction false} ContainsSuffix(head: string, sub: string)
    ensures Contains(head + sub, sub)
  {
    if |head| == 0 {
      assert head + sub == sub;
    } else {
      assert (head + sub)[1..] == head[1..] + sub;
      ContainsSuffix(head[1..], sub);
    }
  }

  lemma {:induction false} SplitFromNoSep(x: string, c: char, cur: string)
    requires c !in x
    ensures SplitFrom(x, [c], cur) == [cur + x]
    decreases |x|
  {
    if |x| > 0 {
      assert x[0] in x;
      assert x[..1] != [c];
      SplitFromNoSep(x[1..], c, cur + [x[0]]);
      assert cur + [x[0]] + x[1..] == cur + x;
    }
  }

  lemma {:induction false} SplitFromSep(x: string, c: char, rest: string, cur: string)
    requires c !in x
    ensures SplitFrom(x + [c] + rest, [c], cur) == [cur + x] + SplitFrom(rest, [c], "")
    decreases |x|
  {
    var s := x + [c] + rest;
    if |x| == 0 {
      assert s == [c] + rest && |s| >= 1;
      assert s[..1] == [c] && s[1..] == rest;
      assert cur + x == cur;
    } else {
      assert x[0] in x && s[0] == x[0];
      assert s[..1] != [c];
      assert s[1..] == x[1..] + [c] + rest;
      SplitFromSep(x[1..], c, rest, cur + [x[0]]);
      assert cur + [x[0]] + x[1..] == cur + x;
    }
  }

  /** A one-character separator that occurs in no piece splits a join back into its pieces. */
  lemma {:induction false} SplitJoin(xs: seq<string>, c: char)
    requires |xs| > 0
    requires forall i :: 0 <= i < |xs| ==> c !in xs[i]
    ensures Split(Join(xs, [c]), [c]) == xs
  {
    if |xs| == 1 {
      SplitFromNoSep(xs[0], c, "");
    } else {
      assert Join(xs, [c]) == xs[0] + [c] + Join(xs[1..], [c]);
      SplitFromSep(xs[0], c, Join(xs[1..], [c]), "");
      assert forall i :: 0 <= i < |xs| - 1 ==> xs[1..][i] == xs[i + 1];
      SplitJoin(xs[1..], c);
      assert "" + xs[0] == xs[0];
      assert xs == [xs[0]] + xs[1..];
    }
  }

  /** `splitn` cuts at the first separator: the piece before it, then the rest split once fewer. */
  lemma SplitNAt(a: string, c: char, rest: string, n: nat)
    requires n >= 2 && c !in a
    ensures SplitN(a + [c] + rest, c, n) == [a] + SplitN(rest, c, n - 1)
  {
    var s := a + [c] + rest;
    assert forall i :: 0 <= i < |a| ==> s[i] == a[i];
    assert s[|a|] == c && s[..|a|] == a && s[|a| + 1..] == rest;
    assert IndexOf(s, c) == Some(|a|);
  }

  /** A word followed only by whitespace trims to the word. */
  lemma TrimPadding(w: string, t: string)
    requires forall i :: 0 <= i < |w| ==> !IsWhitespace(w[i])
    requires AllWhitespace(t)
    ensures Trim(w + t) == w
  {
    var s := w + t;
    var u := TrimStart(s);
    assert forall k :: 0 <= k < |w| ==> s[k] == w[k];
    assert forall k :: |w| <= k < |s| ==> s[k] == t[k - |w|];
    assert u == s[|s| - |u|..];
    assert forall k :: 0 <= k < |s| - |u| ==> s[..|s| - |u|][k] == s[k];
    assert u == s[|w| + |t| - |u|..];
    assert |u| >= |w|;
    assert |u| == |s| || w == [];
    var r := TrimEnd(u);
    assert forall k :: |r| <= k < |u| ==> u[|r|..][k - |r|] == u[k];
    assert w != [] ==> u == s && !IsWhitespace(u[|w| - 1]);
    assert |r| >= |w|;
    assert |r| <= |w|;
    assert r == u[..|r|];
  }
}
