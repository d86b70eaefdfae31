/**
 * The text transformations applied to one field line before it is split
 * into parts: the `[ ,]+` collapse, the camelCase to snake_case rewrite of
 * the field name and `extractRelation`, which sets a trailing `@relation(...)`
 * annotation apart from the rest of the line.
 */
module Fields {
  import opened JsStrings

  // ---------------------------------------------------------------------
  // The `[ ,]+` to `,` collapse (src/index.ts lines 87 and 107)

  /** A character matched by the class `[ ,]`. */
  predicate IsSep(c: char) {
    c == ' ' || c == ','
  }

  predicate NoSep(s: string) {
    forall i :: 0 <= i < |s| ==> !IsSep(s[i])
  }

  /** No two commas stand next to each other. */
  predicate NoDoubleComma(s: string) {
    forall i :: 0 < i < |s| ==> !(s[i - 1] == ',' && s[i] == ',')
  }

  /** The shape the collapse produces: no space and no doubled comma. */
  predicate Collapsed(s: string) {
    ' ' !in s && NoDoubleComma(s)
  }

  /** `s` with its leading run of `[ ,]` characters removed. */
  function DropSeps(s: string): (r: string)
    ensures |r| <= |s| && r == s[|s| - |r|..]
    ensures r == [] || !IsSep(r[0])
  {
    if s != [] && IsSep(s[0]) then DropSeps(s[1..]) else s
  }

  /**
   * `s.replace(/[ ,]+/g, ',')`: every maximal run of spaces and commas
   * becomes one comma. The result has no space and no doubled comma, is
   * empty exactly when `s` is, and starts with a comma exactly when `s`
   * starts with a space or a comma.
   */
  function Normalise(s: string): (r: string)
    ensures Collapsed(r)
    ensures r == [] <==> s == []
    ensures r != [] ==> (r[0] == ',' <==> IsSep(s[0]))
    decreases |s|
  {
    if s == [] then []
    else if IsSep(s[0]) then "," + Normalise(DropSeps(s))
    else [s[0]] + Normalise(s[1..])
  }

  /** The characters of `s` other than spaces and commas, in order. */
  function Content(s: string): string {
    if s == [] then []
    else if IsSep(s[0]) then Content(s[1..])
    else [s[0]] + Content(s[1..])
  }

  lemma {:induction false} ContentDropSeps(s: string)
    ensures Content(DropSeps(s)) == Content(s)
    decreases |s|
  {
    if s != [] && IsSep(s[0]) {
      ContentDropSeps(s[1..]);
    }
  }

  /** The collapse keeps every character other than a space or a comma, in order. */
  lemma {:induction false} NormaliseKeepsContent(s: string)
    ensures Content(Normalise(s)) == Content(s)
    decreases |s|
  {
    if s == [] {
    } else if IsSep(s[0]) {
      var d := DropSeps(s);
      NormaliseKeepsContent(d);
      ContentDropSeps(s);
      assert ("," + Normalise(d))[1..] == Normalise(d);
    } else {
      NormaliseKeepsContent(s[1..]);
      assert ([s[0]] + Normalise(s[1..]))[1..] == Normalise(s[1..]);
    }
  }

  /** A collapsed string is left as it is. */
  lemma {:induction false} NormaliseFixpoint(s: string)
    requires Collapsed(s)
    ensures Normalise(s) == s
    decreases |s|
  {
    if s != [] {
      CollapsedTail(s);
      NormaliseFixpoint(s[1..]);
      if IsSep(s[0]) {
        CollapsedLeadingComma(s);
        assert Normalise(s) == "," + Normalise(s[1..]);
      } else {
        assert Normalise(s) == [s[0]] + Normalise(s[1..]);
      }
      assert s == [s[0]] + s[1..];
    }
  }

  lemma CollapsedTail(s: string)
    requires Collapsed(s) && s != []
    ensures Collapsed(s[1..])
  {
    forall i | 0 < i < |s[1..]|
      ensures !(s[1..][i - 1] == ',' && s[1..][i] == ',')
    {
      assert s[1..][i - 1] == s[i] && s[1..][i] == s[i + 1];
    }
  }

  /** In a collapsed string a leading separator is a single comma. */
  lemma CollapsedLeadingComma(s: string)
    requires Collapsed(s) && s != [] && IsSep(s[0])
    ensures s[0] == ',' && DropSeps(s) == s[1..]
  {
    assert s[0] == ',';
    assert s[1..] == [] || !IsSep(s[1]);
    assert DropSeps(s[1..]) == s[1..];
  }

  /** The collapse changes a string exactly when it has a space or a doubled comma. */
  lemma NormaliseUnchangedIff(s: string)
    ensures Normalise(s) == s <==> Collapsed(s)
  {
    if Collapsed(s) {
      NormaliseFixpoint(s);
    }
  }

  /** Collapsing twice is collapsing once. */
  lemma NormaliseIdempotent(s: string)
    ensures Normalise(Normalise(s)) == Normalise(s)
  {
    NormaliseFixpoint(Normalise(s));
  }

  /** A prefix free of `[ ,]` passes through the collapse unchanged. */
  lemma {:induction false} NormaliseFreePrefix(x: string, y: string)
    requires NoSep(x)
    ensures Normalise(x + y) == x + Normalise(y)
    decreases |x|
  {
    if x == [] {
      assert x + y == y;
    } else {
      NoSepTail(x);
      NormaliseFreePrefix(x[1..], y);
      NormaliseNonSepHead(x[0], x[1..], y, x);
    }
  }

  lemma NoSepTail(x: string)
    requires NoSep(x) && x != []
    ensures NoSep(x[1..]) && !IsSep(x[0])
  {
    assert forall i :: 0 <= i < |x[1..]| ==> x[1..][i] == x[i + 1];
  }

  lemma NormaliseNonSepHead(c: char, t: string, y: string, x: string)
    requires !IsSep(c) && x == [c] + t
    requires Normalise(t + y) == t + Normalise(y)
    ensures Normalise(x + y) == x + Normalise(y)
  {
    ConsAppend(c, t, y, x);
    NormaliseCons(c, t + y);
    ConsAppend(c, t, Normalise(y), x);
  }

  lemma NormaliseCons(c: char, r: string)
    requires !IsSep(c)
    ensures Normalise([c] + r) == [c] + Normalise(r)
  {
    assert ([c] + r)[1..] == r;
  }

  lemma ConsAppend(c: char, t: string, w: string, x: string)
    requires x == [c] + t
    ensures [c] + (t + w) == x + w
  {
  }

  /** A run of spaces and commas in front of a word becomes one comma. */
  lemma {:induction false} NormaliseGap(g: string, y: string)
    requires g != [] && (forall i :: 0 <= i < |g| ==> IsSep(g[i]))
    requires y == [] || !IsSep(y[0])
    ensures Normalise(g + y) == "," + Normalise(y)
    decreases |g|
  {
    DropSepsGap(g, y);
  }

  lemma {:induction false} DropSepsGap(g: string, y: string)
    requires forall i :: 0 <= i < |g| ==> IsSep(g[i])
    requires y == [] || !IsSep(y[0])
    ensures DropSeps(g + y) == y
    decreases |g|
  {
    if g != [] {
      assert (g + y)[1..] == g[1..] + y;
      DropSepsGap(g[1..], y);
    } else {
      assert g + y == y;
    }
  }

  // ---------------------------------------------------------------------
  // camelCase to snake_case (src/index.ts line 91)

  function CountUpper(s: string): nat {
    if s == [] then 0 else (if IsUpper(s[0]) then 1 else 0) + CountUpper(s[1..])
  }

  predicate NoUpper(s: string) {
    forall i :: 0 <= i < |s| ==> !IsUpper(s[i])
  }

  /** The replacement the callback of line 91 returns for one character. */
  function SnakeChar(c: char): string {
    if IsUpper(c) then ['_', LowerChar(c)] else [c]
  }

  /**
   * `s.replace(/[A-Z]/g, l => '_' + l.toLowerCase())`: the result has no
   * upper-case letter and is longer than `s` by the number of upper-case
   * letters in `s`.
   */
  function Snake(s: string): (r: string)
    ensures NoUpper(r)
    ensures |r| == |s| + CountUpper(s)
  {
    if s == [] then [] else SnakeChar(s[0]) + Snake(s[1..])
  }

  /** A name without upper-case letters is already in snake case. */
  lemma {:induction false} SnakeIdentity(s: string)
    requires NoUpper(s)
    ensures Snake(s) == s
  {
    if s != [] {
      SnakeIdentity(s[1..]);
      assert s == [s[0]] + s[1..];
    }
  }

  /** Snake-casing twice is snake-casing once. */
  lemma SnakeIdempotent(s: string)
    ensures Snake(Snake(s)) == Snake(s)
  {
    SnakeIdentity(Snake(s));
  }

  lemma {:induction false} SnakeAppend(a: string, b: string)
    ensures Snake(a + b) == Snake(a) + Snake(b)
  {
    if a != [] {
      assert (a + b)[1..] == a[1..] + b;
      SnakeAppend(a[1..], b);
    } else {
      assert a + b == b;
    }
  }

  predicate IsLowerLetter(c: char) {
    'a' <= c <= 'z'
  }

  /** The inverse rewrite: `_` followed by a lower-case letter becomes that letter in upper case. */
  function Camel(s: string): string {
    if |s| >= 2 && s[0] == '_' && IsLowerLetter(s[1]) then [(s[1] as int - 32) as char] + Camel(s[2..])
    else if s == [] then []
    else [s[0]] + Camel(s[1..])
  }

  /** Snake-casing loses nothing on a name that has no `_` of its own. */
  lemma {:induction false} SnakeRoundTrip(s: string)
    requires '_' !in s
    ensures Camel(Snake(s)) == s
  {
    if s != [] {
      assert '_' !in s[1..] by {
        assert forall c :: c in s[1..] ==> c in s;
      }
      SnakeRoundTrip(s[1..]);
      var t := Snake(s[1..]);
      if IsUpper(s[0]) {
        var u := ['_', LowerChar(s[0])] + t;
        assert u[2..] == t;
      } else {
        var u := [s[0]] + t;
        assert u[1..] == t;
      }
      assert s == [s[0]] + s[1..];
    }
  }

  // ---------------------------------------------------------------------
  // extractRelation (src/index.ts lines 103-113)

  const RelationMarker := "@relation"

  /**
   * `extractRelation(part)`: when `@relation` first occurs at an index
   * greater than 0, the text before it is trimmed and collapsed and the text
   * from it onwards is appended verbatim after a comma; otherwise (absent,
   * or at index 0, which the source treats as falsy) `part` is unchanged.
   */
  function ExtractRelation(part: string): string {
    var i := IndexOf(part, RelationMarker);
    if i > 0 then
      var relationPart := part[i..];
      var fieldPart := Normalise(Trim(ReplaceFirst(part, relationPart, "")));
      fieldPart + "," + relationPart
    else part
  }

  /** Removing the suffix that starts at the first `@relation` leaves the prefix. */
  lemma RemoveRelationSuffix(part: string, i: int)
    requires i == IndexOf(part, RelationMarker) && i >= 0
    ensures ReplaceFirst(part, part[i..], "") == part[..i]
  {
    var suffix := part[i..];
    assert suffix[..|RelationMarker|] == RelationMarker;
    forall j | 0 <= j < i
      ensures !OccursAt(part, suffix, j)
    {
      if j + |suffix| <= |part| {
        assert !OccursAt(part, RelationMarker, j);
        assert part[j..j + |suffix|][..|RelationMarker|] == part[j..j + |RelationMarker|];
      }
    }
    assert OccursAt(part, suffix, i);
    IndexOfIsFirst(part, suffix, i);
    assert part[i + |suffix|..] == [];
  }

  /** What `extractRelation` returns, in terms of the first `@relation`. */
  lemma ExtractRelationSpec(part: string)
    ensures var i := IndexOf(part, RelationMarker);
      && (i > 0 ==> ExtractRelation(part) == Normalise(Trim(part[..i])) + "," + part[i..])
      && (i <= 0 ==> ExtractRelation(part) == part)
  {
    var i := IndexOf(part, RelationMarker);
    if i > 0 {
      RemoveRelationSuffix(part, i);
    }
  }

  /** `extractRelation` of a line whose first `@relation` follows the non-empty text `x`. */
  lemma ExtractRelationAfter(x: string, tail: string)
    requires |x| > 0 && IndexOf(x + RelationMarker + tail, RelationMarker) == |x|
    ensures ExtractRelation(x + RelationMarker + tail) == Normalise(Trim(x)) + "," + (RelationMarker + tail)
  {
    var part := x + RelationMarker + tail;
    assert part[|x|..] == RelationMarker + tail;
    assert part[..|x|] == x;
    RemoveRelationSuffix(part, |x|);
  }

  // ---------------------------------------------------------------------
  // Characters the transformations cannot introduce

  /** The collapse brings in commas only. */
  lemma {:induction false} NormaliseLacks(s: string, c: char)
    requires c != ',' && c !in s
    ensures c !in Normalise(s)
    decreases |s|
  {
    if s != [] {
      if IsSep(s[0]) {
        var d := DropSeps(s);
        assert c !in d;
        NormaliseLacks(d, c);
      } else {
        assert c !in s[1..];
        NormaliseLacks(s[1..], c);
      }
    }
  }

  /** Snake-casing brings in `_` and lower-case letters only. */
  lemma {:induction false} SnakeLacks(s: string, c: char)
    requires c != '_' && !('a' <= c <= 'z') && c !in s
    ensures c !in Snake(s)
  {
    if s != [] {
      assert c !in s[1..];
      SnakeLacks(s[1..], c);
    }
  }

  /** `extractRelation` brings in a comma at most. */
  lemma ExtractRelationLacks(part: string, c: char)
    requires c != ',' && c !in part
    ensures c !in ExtractRelation(part)
  {
    var i := IndexOf(part, RelationMarker);
    if i > 0 {
      RemoveRelationSuffix(part, i);
      TrimLacks(part[..i], c);
      NormaliseLacks(Trim(part[..i]), c);
    }
  }
}
