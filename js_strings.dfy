/**
 * The JavaScript string primitives the converter relies on, stated over
 * `seq<char>`: `indexOf`, `replace` with a string pattern (first occurrence
 * only), `split` with a string separator, `join`, `trim` and `toLowerCase`
 * (the last two restricted to ASCII), and the way an absent value is
 * rendered when it is concatenated into a string.
 */
module JsStrings {

  /** A value that may be absent; `None` plays the part of `undefined`. */
  datatype Option<T> = None | Some(value: T)

  /** String concatenation turns `undefined` into the text `undefined`. */
  function Render(o: Option<string>): string {
    match o
    case None => "undefined"
    case Some(s) => s
  }

  /** JavaScript truthiness of a string that may be absent. */
  predicate Truthy(o: Option<string>) {
    o.Some? && o.value != ""
  }

  // ---------------------------------------------------------------------
  // indexOf

  /** `pat` occurs in `s` starting at index `i`. */
  predicate OccursAt(s: string, pat: string, i: int) {
    0 <= i && i + |pat| <= |s| && s[i..i + |pat|] == pat
  }

  /** `s.indexOf(pat, k)`: the first occurrence at or after `k`, or -1. */
  function IndexOfFrom(s: string, pat: string, k: nat): (r: int)
    ensures r == -1 || (k <= r && OccursAt(s, pat, r))
    ensures r == -1 ==> forall j :: k <= j ==> !OccursAt(s, pat, j)
    ensures r != -1 ==> forall j :: k <= j < r ==> !OccursAt(s, pat, j)
    decreases |s| - k
  {
    if k + |pat| > |s| then -1
    else if s[k..k + |pat|] == pat then k
    else IndexOfFrom(s, pat, k + 1)
  }

  /** `s.indexOf(pat)`. */
  function IndexOf(s: string, pat: string): int {
    IndexOfFrom(s, pat, 0)
  }

  /** `s.indexOf(pat) >= 0`. */
  predicate Contains(s: string, pat: string) {
    IndexOf(s, pat) >= 0
  }

  /** The index `IndexOf` returns is the least index at which `pat` occurs. */
  lemma IndexOfIsFirst(s: string, pat: string, i: int)
    requires OccursAt(s, pat, i)
    requires forall j :: 0 <= j < i ==> !OccursAt(s, pat, j)
    ensures IndexOf(s, pat) == i
  {
  }

  /** A pattern with a character that `s` lacks does not occur in `s`. */
  lemma MissingCharNotContained(s: string, pat: string, c: char)
    requires c in pat && c !in s
    ensures !Contains(s, pat)
  {
    var k :| 0 <= k < |pat| && pat[k] == c;
    forall i | 0 <= i
      ensures !OccursAt(s, pat, i)
    {
      if i + |pat| <= |s| {
        assert s[i..i + |pat|][k] == s[i + k] != c;
      }
    }
  }

  /** The part of `s` before the first occurrence of `pat` does not contain it. */
  lemma PrefixBeforeFirstOccurrence(s: string, pat: string)
    requires |pat| > 0 && IndexOf(s, pat) >= 0
    ensures !Contains(s[..IndexOf(s, pat)], pat)
  {
    var i := IndexOf(s, pat);
    forall j | 0 <= j
      ensures !OccursAt(s[..i], pat, j)
    {
      if j + |pat| <= i {
        assert s[..i][j..j + |pat|] == s[j..j + |pat|];
        assert !OccursAt(s, pat, j);
      }
    }
  }

  /** No non-empty proper prefix of `pat` is also a suffix of it. */
  predicate Unbordered(pat: string) {
    forall m :: 0 < m < |pat| ==> pat[..m] != pat[|pat| - m..]
  }

  /**
   * When `x` does not contain an unbordered `pat`, the first occurrence of
   * `pat` in `x + pat + y` is the one right after `x`.
   */
  lemma {:induction false} IndexOfAfterFree(x: string, pat: string, y: string)
    requires |pat| > 0 && Unbordered(pat) && !Contains(x, pat)
    ensures IndexOf(x + pat + y, pat) == |x|
  {
    var s := x + pat + y;
    assert s[|x|..|x| + |pat|] == pat;
    forall j | 0 <= j < |x|
      ensures !OccursAt(s, pat, j)
    {
      if j + |pat| <= |x| {
        assert s[j..j + |pat|] == x[j..j + |pat|];
        assert !OccursAt(x, pat, j);
      } else if j + |pat| <= |s| {
        var m := j + |pat| - |x|;
        assert 0 < m < |pat|;
        assert s[j..j + |pat|][|pat| - m..] == s[|x|..|x| + |pat|][..m] == pat[..m];
        assert pat[..m] != pat[|pat| - m..];
      }
    }
    IndexOfIsFirst(s, pat, |x|);
  }

  /** A one-character pattern is unbordered. */
  lemma UnborderedChar(c: char)
    ensures Unbordered([c])
  {
  }

  /** A two-character pattern of distinct characters is unbordered. */
  lemma UnborderedPair(a: char, b: char)
    requires a != b
    ensures Unbordered([a, b])
  {
    var pat := [a, b];
    assert pat[..1] == [a] && pat[1..] == [b];
  }

  /** Where `a + b` occurs, `a` occurs. */
  lemma OccursPrefix(s: string, a: string, b: string, i: int)
    requires OccursAt(s, a + b, i)
    ensures OccursAt(s, a, i)
  {
    assert s[i..i + |a|] == s[i..i + |a + b|][..|a|] == (a + b)[..|a|] == a;
  }

  // ---------------------------------------------------------------------
  // replace, split, join

  /** `s.replace(pat, rep)` with a string pattern: only the first occurrence. */
  function ReplaceFirst(s: string, pat: string, rep: string): string {
    var i := IndexOf(s, pat);
    if i < 0 then s else s[..i] + rep + s[i + |pat|..]
  }

  /** Removing a pattern that starts the string leaves the rest. */
  lemma ReplaceFirstAtStart(pat: string, y: string)
    ensures ReplaceFirst(pat + y, pat, "") == y
  {
    var s := pat + y;
    assert s[0..|pat|] == pat;
    IndexOfIsFirst(s, pat, 0);
    assert s[|pat|..] == y;
  }

  /** Removing the first occurrence of a pattern that `x` lacks, from `x + pat + y`. */
  lemma ReplaceFirstAfterFree(x: string, pat: string, y: string)
    requires |pat| > 0 && Unbordered(pat) && !Contains(x, pat)
    ensures ReplaceFirst(x + pat + y, pat, "") == x + y
  {
    IndexOfAfterFree(x, pat, y);
    var s := x + pat + y;
    assert s[..|x|] == x && s[|x| + |pat|..] == y;
  }

  /** `xs.join(sep)`. */
  function Join(xs: seq<string>, sep: string): string
    decreases |xs|
  {
    if |xs| == 0 then ""
    else if |xs| == 1 then xs[0]
    else xs[0] + sep + Join(xs[1..], sep)
  }

  /**
   * `s.split(sep)` for a non-empty separator: there is always at least one
   * piece, no piece contains the separator, and joining the pieces with the
   * separator gives `s` back.
   */
  function Split(s: string, sep: string): (r: seq<string>)
    requires |sep| > 0
    ensures |r| >= 1
    ensures forall k :: 0 <= k < |r| ==> !Contains(r[k], sep)
    ensures Join(r, sep) == s
    decreases |s|
  {
    var i := IndexOf(s, sep);
    if i < 0 then [s]
    else
      PrefixBeforeFirstOccurrence(s, sep);
      var rest := Split(s[i + |sep|..], sep);
      assert s == s[..i] + sep + s[i + |sep|..];
      [s[..i]] + rest
  }

  /** Splitting at the first occurrence: the first piece is the text before it. */
  lemma SplitAtFirst(s: string, sep: string)
    requires |sep| > 0 && IndexOf(s, sep) >= 0
    ensures |Split(s, sep)| >= 2
    ensures Split(s, sep)[0] == s[..IndexOf(s, sep)]
    ensures Split(s, sep)[1..] == Split(s[IndexOf(s, sep) + |sep|..], sep)
  {
  }

  /**
   * The converse of `Split`'s round trip: pieces free of an unbordered
   * separator are recovered from their join.
   */
  lemma {:induction false} SplitJoin(xs: seq<string>, sep: string)
    requires |sep| > 0 && Unbordered(sep) && |xs| >= 1
    requires forall k :: 0 <= k < |xs| ==> !Contains(xs[k], sep)
    ensures Split(Join(xs, sep), sep) == xs
    decreases |xs|
  {
    if |xs| > 1 {
      var tail := xs[1..];
      assert forall k :: 0 <= k < |tail| ==> tail[k] == xs[k + 1];
      SplitJoin(tail, sep);
      SplitAfterPiece(xs[0], sep, Join(tail, sep));
      assert [xs[0]] + tail == xs;
    }
  }

  /**
   * Pieces free of an unbordered separator, joined and followed by the
   * separator and more text, split into those pieces and the pieces of the
   * rest.
   */
  lemma {:induction false} SplitAfterJoin(xs: seq<string>, sep: string, y: string)
    requires |sep| > 0 && Unbordered(sep) && |xs| >= 1
    requires forall k :: 0 <= k < |xs| ==> !Contains(xs[k], sep)
    ensures Split(Join(xs, sep) + sep + y, sep) == xs + Split(y, sep)
    decreases |xs|
  {
    if |xs| == 1 {
      SplitAfterPiece(xs[0], sep, y);
    } else {
      var tail := xs[1..];
      assert forall k :: 0 <= k < |tail| ==> tail[k] == xs[k + 1];
      SplitAfterJoin(tail, sep, y);
      assert [xs[0]] + tail == xs;
      JoinCons(xs[0], tail, sep, y);
      SplitAfterCons(xs[0], tail, sep, y, Join(xs, sep) + sep + y, Join(tail, sep) + sep + y);
    }
  }

  lemma SplitAfterCons(x: string, tail: seq<string>, sep: string, y: string, whole: string, rest: string)
    requires |sep| > 0 && Unbordered(sep) && |tail| >= 1 && !Contains(x, sep)
    requires whole == x + sep + rest
    requires Split(rest, sep) == tail + Split(y, sep)
    ensures Split(whole, sep) == [x] + tail + Split(y, sep)
  {
    SplitAfterPiece(x, sep, rest);
    assert [x] + (tail + Split(y, sep)) == [x] + tail + Split(y, sep);
  }

  lemma JoinCons(x: string, tail: seq<string>, sep: string, y: string)
    requires |tail| >= 1
    ensures Join([x] + tail, sep) + sep + y == x + sep + (Join(tail, sep) + sep + y)
  {
    assert ([x] + tail)[1..] == tail;
  }

  /** A piece free of an unbordered separator, followed by it, is the first piece. */
  lemma SplitAfterPiece(x: string, sep: string, rest: string)
    requires |sep| > 0 && Unbordered(sep) && !Contains(x, sep)
    ensures Split(x + sep + rest, sep) == [x] + Split(rest, sep)
  {
    var s := x + sep + rest;
    IndexOfAfterFree(x, sep, rest);
    SplitAtFirst(s, sep);
    assert s[..|x|] == x && s[|x| + |sep|..] == rest;
  }

  /** The first piece of `p + rest` is `p` when `p` lacks the one-character separator and `rest` starts with it or is empty. */
  lemma FirstPiece(p: string, c: char, rest: string)
    requires c !in p && (rest == [] || rest[0] == c)
    ensures Split(p + rest, [c])[0] == p
  {
    MissingCharNotContained(p, [c], c);
    if rest == [] {
      assert p + rest == p;
    } else {
      UnborderedChar(c);
      assert p + rest == p + [c] + rest[1..];
      IndexOfAfterFree(p, [c], rest[1..]);
      SplitAtFirst(p + rest, [c]);
      assert (p + rest)[..|p|] == p;
    }
  }

  // ---------------------------------------------------------------------
  // trim and toLowerCase, restricted to ASCII

  /** The whitespace `trim` removes, restricted to space, tab, CR and LF. */
  predicate IsWhitespace(c: char) {
    c == ' ' || c == '\t' || c == '\r' || c == '\n'
  }

  predicate AllWhitespace(s: string) {
    forall i :: 0 <= i < |s| ==> IsWhitespace(s[i])
  }

  /** Neither end of `s` is whitespace. */
  predicate Trimmed(s: string) {
    s == [] || (!IsWhitespace(s[0]) && !IsWhitespace(s[|s| - 1]))
  }

  function TrimStart(s: string): (r: string)
    ensures |r| <= |s| && r == s[|s| - |r|..]
    ensures AllWhitespace(s[..|s| - |r|])
    ensures r == [] || !IsWhitespace(r[0])
  {
    if s != [] && IsWhitespace(s[0]) then TrimStart(s[1..]) else s
  }

  function TrimEnd(s: string): (r: string)
    ensures |r| <= |s| && r == s[..|r|]
    ensures AllWhitespace(s[|r|..])
    ensures r == [] || !IsWhitespace(r[|r| - 1])
  {
    if s != [] && IsWhitespace(s[|s| - 1]) then TrimEnd(s[..|s| - 1]) else s
  }

  /** `s.trim()`. */
  function Trim(s: string): (r: string)
    ensures Trimmed(r)
  {
    TrimEnd(TrimStart(s))
  }

  /** `trim` removes exactly the surrounding whitespace and nothing else. */
  lemma {:induction false} TrimSurrounded(a: string, t: string, b: string)
    requires AllWhitespace(a) && AllWhitespace(b) && Trimmed(t)
    ensures Trim(a + t + b) == t
  {
    var w := a + t + b;
    if t == [] {
      forall i | 0 <= i < |w|
        ensures IsWhitespace(w[i])
      {
        if i < |a| {
          assert w[i] == a[i];
        } else {
          assert w[i] == b[i - |a|];
        }
      }
      TrimStartAllWhitespace(w);
    } else {
      assert w == a + (t + b);
      TrimStartSurrounded(a, t + b);
      assert TrimStart(w) == t + b;
      TrimEndSurrounded(t, b);
    }
  }

  lemma TrimStartAllWhitespace(w: string)
    requires AllWhitespace(w)
    ensures TrimStart(w) == []
  {
  }

  lemma {:induction false} TrimStartSurrounded(a: string, u: string)
    requires AllWhitespace(a) && (u == [] || !IsWhitespace(u[0]))
    ensures TrimStart(a + u) == u
    decreases |a|
  {
    if a != [] {
      assert (a + u)[1..] == a[1..] + u;
      TrimStartSurrounded(a[1..], u);
    } else {
      assert a + u == u;
    }
  }

  lemma {:induction false} TrimEndSurrounded(t: string, b: string)
    requires AllWhitespace(b) && (t == [] || !IsWhitespace(t[|t| - 1]))
    ensures TrimEnd(t + b) == t
    decreases |b|
  {
    if b != [] {
      assert (t + b)[..|t + b| - 1] == t + b[..|b| - 1];
      TrimEndSurrounded(t, b[..|b| - 1]);
    } else {
      assert t + b == t;
    }
  }

  predicate IsUpper(c: char) {
    'A' <= c <= 'Z'
  }

  /** `toLowerCase` of one character, restricted to ASCII. */
  function LowerChar(c: char): (d: char)
    ensures !IsUpper(d)
    ensures IsUpper(c) ==> d as int == c as int + 32
    ensures !IsUpper(c) ==> d == c
  {
    if IsUpper(c) then (c as int + 32) as char else c
  }

  /** `s.toLowerCase()`, restricted to ASCII. */
  function ToLower(s: string): (r: string)
    ensures |r| == |s|
    ensures forall i :: 0 <= i < |r| ==> r[i] == LowerChar(s[i])
  {
    if s == [] then [] else [LowerChar(s[0])] + ToLower(s[1..])
  }

  // ---------------------------------------------------------------------
  // Characters the operations cannot introduce

  /** Removing the first match and inserting `rep` adds no character that `rep` lacks. */
  lemma ReplaceFirstLacks(s: string, pat: string, rep: string, c: char)
    requires c !in s && c !in rep
    ensures c !in ReplaceFirst(s, pat, rep)
  {
    var i := IndexOf(s, pat);
    if i >= 0 {
      assert c !in s[..i] && c !in s[i + |pat|..];
    }
  }

  /** `trim` keeps a slice of its input. */
  lemma TrimLacks(s: string, c: char)
    requires c !in s
    ensures c !in Trim(s)
  {
    var t := TrimStart(s);
    assert c !in t;
  }

  /** Lower-casing brings in lower-case letters only. */
  lemma ToLowerLacks(s: string, c: char)
    requires c !in s && !('a' <= c <= 'z')
    ensures c !in ToLower(s)
  {
    var r := ToLower(s);
    forall i | 0 <= i < |r|
      ensures r[i] != c
    {
      assert s[i] in s;
    }
  }

  /** A piece of a joined sequence lacks what the join lacks. */
  lemma {:induction false} JoinLacks(xs: seq<string>, sep: string, c: char, k: nat)
    requires k < |xs| && c !in Join(xs, sep)
    ensures c !in xs[k]
    decreases |xs|
  {
    if |xs| > 1 {
      var rest := Join(xs[1..], sep);
      assert Join(xs, sep) == xs[0] + sep + rest;
      if k > 0 {
        JoinLacks(xs[1..], sep, c, k - 1);
      }
    }
  }

  /** The pieces of a split lack what the split string lacks. */
  lemma SplitLacks(s: string, sep: string, c: char)
    requires |sep| > 0 && c !in s
    ensures forall k :: 0 <= k < |Split(s, sep)| ==> c !in Split(s, sep)[k]
  {
    var r := Split(s, sep);
    forall k | 0 <= k < |r|
      ensures c !in r[k]
    {
      JoinLacks(r, sep, c, k);
    }
  }

  /** Joined pieces lack what every piece and the separator lack. */
  lemma {:induction false} JoinOfLacking(xs: seq<string>, sep: string, c: char)
    requires c !in sep && forall k :: 0 <= k < |xs| ==> c !in xs[k]
    ensures c !in Join(xs, sep)
    decreases |xs|
  {
    if |xs| > 1 {
      JoinOfLacking(xs[1..], sep, c);
    }
  }
}
