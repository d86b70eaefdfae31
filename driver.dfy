/**
 * The per-line steps of `convertPrismaToDrizzle`: a `model` block is cut
 * into lines, the model name is read off its first line, and every further
 * line is turned into one Drizzle column entry.
 */
module Driver {
  import opened JsStrings
  import opened Fields
  import opened Emitters

  // ---------------------------------------------------------------------
  // Cutting a block into lines (src/index.ts lines 71-72)

  /** The piece without one trailing carriage return. */
  function DropCR(piece: string): (r: string)
    ensures r == piece || (piece == r + "\r")
  {
    if |piece| > 0 && piece[|piece| - 1] == '\r' then piece[..|piece| - 1] else piece
  }

  /** A string that `indexOf` finds no one-character pattern `[c]` in lacks `c`. */
  lemma NotContainsChar(s: string, c: char)
    requires !Contains(s, [c])
    ensures c !in s
  {
    forall i | 0 <= i < |s|
      ensures s[i] != c
    {
      assert !OccursAt(s, [c], i);
      assert s[i..i + 1] == [s[i]];
    }
  }

  /** Every piece but the last without its trailing carriage return. */
  function CutCRs(pieces: seq<string>): (r: seq<string>)
    ensures |r| == |pieces|
    ensures forall k :: 0 <= k < |r| - 1 ==> r[k] == DropCR(pieces[k])
    ensures |r| > 0 ==> r[|r| - 1] == pieces[|r| - 1]
  {
    if |pieces| <= 1 then pieces else [DropCR(pieces[0])] + CutCRs(pieces[1..])
  }

  /**
   * `s.split(/\r?\n/)`: the pieces between line feeds, each but the last
   * without the carriage return that ends it. There is always at least one
   * line and no line holds a line feed.
   */
  function SplitLines(s: string): (r: seq<string>)
    ensures |r| == |Split(s, "\n")| >= 1
    ensures forall k :: 0 <= k < |r| ==> '\n' !in r[k]
  {
    var pieces := Split(s, "\n");
    var r := CutCRs(pieces);
    assert forall k :: 0 <= k < |r| ==> '\n' !in r[k] by {
      forall k | 0 <= k < |r|
        ensures '\n' !in r[k]
      {
        NotContainsChar(pieces[k], '\n');
      }
    }
    r
  }

  /** The line feed and the carriage return separate nothing else. */
  predicate SingleLine(s: string) {
    '\n' !in s && '\r' !in s
  }

  /** A single line is one piece when split at line feeds. */
  lemma SplitSingleLine(line: string)
    requires '\n' !in line
    ensures Split(line, "\n") == [line]
  {
    MissingCharNotContained(line, "\n", '\n');
  }

  /** Lines joined with `\n` are cut back into the same lines. */
  lemma {:induction false} SplitLinesOfLF(lines: seq<string>)
    requires |lines| >= 1
    requires forall k :: 0 <= k < |lines| ==> SingleLine(lines[k])
    ensures SplitLines(Join(lines, "\n")) == lines
    decreases |lines|
  {
    if |lines| == 1 {
      SplitSingleLine(lines[0]);
    } else {
      var x := lines[0];
      var rest := Join(lines[1..], "\n");
      SplitLinesOfLF(lines[1..]);
      LineThenRest(x, "\n", rest);
      if |x| > 0 {
        assert x[|x| - 1] in x;
      }
      assert DropCR(x) == x;
      assert lines == [x] + lines[1..];
    }
  }

  /** Lines joined with `\r\n` are cut back into the same lines. */
  lemma {:induction false} SplitLinesOfCRLF(lines: seq<string>)
    requires |lines| >= 1
    requires forall k :: 0 <= k < |lines| ==> SingleLine(lines[k])
    ensures SplitLines(Join(lines, "\r\n")) == lines
    decreases |lines|
  {
    if |lines| == 1 {
      SplitSingleLine(lines[0]);
    } else {
      var x := lines[0];
      var rest := Join(lines[1..], "\r\n");
      SplitLinesOfCRLF(lines[1..]);
      assert "\r\n" == "\r" + "\n";
      assert x + "\r\n" + rest == (x + "\r") + "\n" + rest;
      LineThenRest(x + "\r", "\n", rest);
      assert DropCR(x + "\r") == x by {
        assert (x + "\r")[..|x|] == x;
      }
      assert lines == [x] + lines[1..];
    }
  }

  /** Splitting `x + "\n" + rest` at line feeds, for `x` without one. */
  lemma LineThenRest(x: string, lf: string, rest: string)
    requires lf == "\n" && '\n' !in x
    ensures Split(x + lf + rest, lf) == [x] + Split(rest, lf)
    ensures SplitLines(x + lf + rest) == [DropCR(x)] + SplitLines(rest)
  {
    var s := x + lf + rest;
    UnborderedChar('\n');
    MissingCharNotContained(x, lf, '\n');
    IndexOfAfterFree(x, lf, rest);
    SplitAtFirst(s, lf);
    assert s[..|x|] == x && s[|x| + 1..] == rest;
  }

  // ---------------------------------------------------------------------
  // The model name (src/index.ts lines 74-77)

  /** The characters the `.` of a JavaScript regular expression does not match. */
  predicate IsLineTerminator(c: char) {
    c == '\n' || c == '\r' || c == '\U{2028}' || c == '\U{2029}'
  }

  /** The lookbehind `(?<=(model)+)` holds at position `p`: the text before it ends in `model`. */
  predicate LookbehindModel(s: string, p: nat) {
    p >= 5 && p <= |s| && s[p - 5..p] == "model"
  }

  /**
   * `(.*?)(?=\{)` from position `p`: the first `{` at or after `p`, provided
   * no line terminator stands between `p` and it.
   */
  function LazyBrace(s: string, p: nat): (r: Option<nat>)
    requires p <= |s|
    ensures r.Some? ==> p <= r.value < |s| && s[r.value] == '{'
    ensures r.Some? ==> forall j :: p <= j < r.value ==> s[j] != '{' && !IsLineTerminator(s[j])
    ensures r.None? ==> forall e :: p <= e < |s| && s[e] == '{' ==>
      exists j :: p <= j < e && IsLineTerminator(s[j])
    decreases |s| - p
  {
    if p == |s| then None
    else if s[p] == '{' then Some(p)
    else if IsLineTerminator(s[p]) then None
    else LazyBrace(s, p + 1)
  }

  /** The whole pattern matches starting at `p`. */
  predicate MatchesAt(s: string, p: nat) {
    p <= |s| && LookbehindModel(s, p) && LazyBrace(s, p).Some?
  }

  /** The leftmost position at or after `p` where the pattern matches. */
  function MatchStart(s: string, p: nat): (r: Option<nat>)
    requires p <= |s|
    ensures r.Some? ==> p <= r.value <= |s| && MatchesAt(s, r.value)
    ensures r.Some? ==> forall j :: p <= j < r.value ==> !MatchesAt(s, j)
    ensures r.None? ==> forall j :: p <= j <= |s| ==> !MatchesAt(s, j)
    decreases |s| - p
  {
    if MatchesAt(s, p) then Some(p)
    else if p == |s| then None
    else MatchStart(s, p + 1)
  }

  /**
   * `s.match(/(?<=(model)+)(.*?)(?=\{)/)?.[0]`: the text between the
   * leftmost `model` that is followed on the same line by a `{`, and that
   * `{`. The text holds no `{` and no line terminator.
   */
  function NameMatch(s: string): (r: Option<string>)
    ensures r.Some? ==> '{' !in r.value
    ensures r.Some? ==> forall i :: 0 <= i < |r.value| ==> !IsLineTerminator(r.value[i])
  {
    match MatchStart(s, 0)
    case None => None
    case Some(p) =>
      var e := LazyBrace(s, p).value;
      assert forall i :: 0 <= i < e - p ==> s[p..e][i] == s[p + i];
      Some(s[p..e])
  }

  /** `interestedParts?.[0]?.match(...)?.[0]?.trim()?.toLowerCase()`. */
  function ModelName(fields: seq<string>): Option<string> {
    if |fields| == 0 then None
    else
      match NameMatch(fields[0])
      case None => None
      case Some(m) => Some(ToLower(Trim(m)))
  }

  /** `model` is unbordered: it starts with a letter it has nowhere else. */
  lemma UnborderedModel()
    ensures Unbordered("model")
  {
    var pat := "model";
    forall m | 0 < m < |pat|
      ensures pat[..m] != pat[|pat| - m..]
    {
      assert pat[..m][0] == 'm';
      assert pat[|pat| - m..][0] == pat[|pat| - m] != 'm';
    }
  }

  /** No `model` before `|lead|` when `lead` lacks one. */
  lemma NoLookbehindInLead(lead: string, s: string, j: nat)
    requires !Contains(lead, "model") && IndexOf(s, "model") == |lead|
    requires j < |lead| + 5
    ensures !LookbehindModel(s, j)
  {
    if j >= 5 && j <= |s| {
      assert !OccursAt(s, "model", j - 5);
    }
  }

  /**
   * A header `lead + "model" + name + "{" + rest`, with no `model` in
   * `lead` and neither a `{` nor a line terminator in `name`, names the
   * model by `name`, trimmed and lower-cased.
   */
  lemma ModelNameOfHeader(lead: string, name: string, rest: string, more: seq<string>)
    requires !Contains(lead, "model")
    requires '{' !in name && forall i :: 0 <= i < |name| ==> !IsLineTerminator(name[i])
    ensures ModelName([lead + "model" + name + "{" + rest] + more) == Some(ToLower(Trim(name)))
  {
    HeaderMatch(lead, name, rest);
    assert ([lead + "model" + name + "{" + rest] + more)[0] == lead + "model" + name + "{" + rest;
  }

  lemma HeaderMatch(lead: string, name: string, rest: string)
    requires !Contains(lead, "model")
    requires '{' !in name && forall i :: 0 <= i < |name| ==> !IsLineTerminator(name[i])
    ensures NameMatch(lead + "model" + name + "{" + rest) == Some(name)
  {
    var s := lead + "model" + name + "{" + rest;
    var p := |lead| + 5;
    HeaderStart(lead, name, rest, s, p);
    assert s[p..p + |name|] == name;
  }

  lemma HeaderStart(lead: string, name: string, rest: string, s: string, p: nat)
    requires !Contains(lead, "model")
    requires '{' !in name && forall i :: 0 <= i < |name| ==> !IsLineTerminator(name[i])
    requires s == lead + "model" + name + "{" + rest && p == |lead| + 5
    ensures p <= |s| && MatchStart(s, 0) == Some(p) && LazyBrace(s, p) == Some(p + |name|)
  {
    HeaderLookbehind(lead, name + "{" + rest);
    assert lead + "model" + (name + "{" + rest) == s;
    HeaderBrace(lead + "model", name, rest);
    assert |lead + "model"| == p;
    assert LazyBrace(s, p) == Some(p + |name|);
    assert MatchesAt(s, p);
    MatchStartFirst(s, 0, p);
  }

  /** In `lead + "model" + y`, the lookbehind first holds right after that `model`. */
  lemma HeaderLookbehind(lead: string, y: string)
    requires !Contains(lead, "model")
    ensures LookbehindModel(lead + "model" + y, |lead| + 5)
    ensures forall j :: 0 <= j < |lead| + 5 ==> !LookbehindModel(lead + "model" + y, j)
  {
    var s := lead + "model" + y;
    UnborderedModel();
    IndexOfAfterFree(lead, "model", y);
    assert s[|lead|..|lead| + 5] == "model";
    forall j | 0 <= j < |lead| + 5
      ensures !LookbehindModel(s, j)
    {
      NoLookbehindInLead(lead, s, j);
    }
  }

  /** In `x + name + "{" + rest`, the lazy scan from `|x|` stops at that `{`. */
  lemma HeaderBrace(x: string, name: string, rest: string)
    requires '{' !in name && forall i :: 0 <= i < |name| ==> !IsLineTerminator(name[i])
    ensures LazyBrace(x + name + "{" + rest, |x|) == Some(|x| + |name|)
  {
    var s := x + name + "{" + rest;
    var p := |x|;
    assert forall j :: p <= j < p + |name| ==> s[j] == name[j - p];
    assert s[p + |name|] == '{';
    LazyBraceOver(s, p, p + |name|);
  }

  /** The scan for the leftmost match finds the first position that matches. */
  lemma {:induction false} MatchStartFirst(s: string, p: nat, q: nat)
    requires p <= q <= |s| && MatchesAt(s, q)
    requires forall j :: p <= j < q ==> !MatchesAt(s, j)
    ensures MatchStart(s, p) == Some(q)
    decreases q - p
  {
    if p < q {
      MatchStartFirst(s, p + 1, q);
    }
  }

  /** The lazy scan stops at the first `{` when nothing in between ends the line. */
  lemma {:induction false} LazyBraceOver(s: string, p: nat, e: nat)
    requires p <= e < |s| && s[e] == '{'
    requires forall j :: p <= j < e ==> s[j] != '{' && !IsLineTerminator(s[j])
    ensures LazyBrace(s, p) == Some(e)
    decreases e - p
  {
    if p < e {
      LazyBraceOver(s, p + 1, e);
    }
  }

  /** A first line with no `model` in it gives no model name. */
  lemma ModelNameAbsent(first: string, more: seq<string>)
    requires !Contains(first, "model")
    ensures ModelName([first] + more) == None
  {
    NoMatchWithoutModel(first);
    assert ([first] + more)[0] == first;
  }

  /** A first line with no `{` in it gives no model name either. */
  lemma ModelNameNoBrace(first: string, more: seq<string>)
    requires '{' !in first
    ensures ModelName([first] + more) == None
  {
    NoMatchWithoutBrace(first);
    assert ([first] + more)[0] == first;
  }

  lemma NoMatchWithoutBrace(s: string)
    requires '{' !in s
    ensures NameMatch(s) == None
  {
    assert forall k :: 0 <= k < |s| ==> s[k] != '{';
    forall j | 0 <= j <= |s|
      ensures !MatchesAt(s, j)
    {
      var r := LazyBrace(s, j);
    }
  }

  lemma NoMatchWithoutModel(s: string)
    requires !Contains(s, "model")
    ensures NameMatch(s) == None
  {
    forall j | 0 <= j <= |s|
      ensures !MatchesAt(s, j)
    {
      if j >= 5 {
        assert !OccursAt(s, "model", j - 5);
      }
    }
    assert MatchStart(s, 0) == None;
  }

  // ---------------------------------------------------------------------
  // One field line (src/index.ts lines 84-96)

  /** The field text: `extractRelation` when the line mentions `@relation`, else trimmed and collapsed. */
  function FieldText(line: string): string {
    if Contains(line, RelationMarker) then ExtractRelation(line) else Normalise(Trim(line))
  }

  /** `field ? field.split(',') : null`. */
  function FieldParts(line: string): Option<seq<string>> {
    var field := FieldText(line);
    if field == "" then None else Some(Split(field, ","))
  }

  /** `parts?.[k]`: absent when there are no parts or fewer than `k + 1`. */
  function Part(parts: Option<seq<string>>, k: nat): Option<string> {
    if parts.Some? && k < |parts.value| then Some(parts.value[k]) else None
  }

  /** The values the pipeline derives from the parts of one line. */
  datatype FieldView = FieldView(
    name: Option<string>,
    declared: Option<string>,
    snake: Option<string>,
    relation: Option<string>)

  /**
   * The name is part 0 and its snake-cased form, the declared type is
   * part 1, and the relation is part 3 when that is a non-empty string and
   * part 2 otherwise.
   */
  function ViewField(line: string): FieldView {
    var parts := FieldParts(line);
    var name := Part(parts, 0);
    var snake := if Truthy(name) then Some(Snake(name.value)) else name;
    var relation := if Truthy(Part(parts, 3)) then Part(parts, 3) else Part(parts, 2);
    FieldView(name, Part(parts, 1), snake, relation)
  }

  /** `parts?.[0] + ': ' + type + decorator` for one line of the block. */
  function ConvertField(line: string): string {
    var v := ViewField(line);
    var column := if Truthy(v.declared) then ConvertType(v.declared, v.snake, v.relation) else v.declared;
    Render(v.name) + ": " + Render(column) + ConvertRelation(v.relation, v.declared, v.snake)
  }

  /** A blank line has no parts: every value is absent and rendered as `undefined`. */
  lemma BlankField(line: string)
    requires AllWhitespace(line)
    ensures FieldParts(line) == None
    ensures ConvertField(line) == "undefined: undefined,"
  {
    BlankParts(line);
    AbsentEntry(line);
  }

  lemma BlankParts(line: string)
    requires AllWhitespace(line)
    ensures FieldParts(line) == None
  {
    assert '@' !in line by {
      forall i | 0 <= i < |line|
        ensures line[i] != '@'
      {
        assert IsWhitespace(line[i]);
      }
    }
    MissingCharNotContained(line, RelationMarker, '@');
    TrimStartAllWhitespace(line);
    assert Trim(line) == [];
  }

  /** Without parts, the name, the type and the modifier are all absent. */
  lemma AbsentEntry(line: string)
    requires FieldParts(line) == None
    ensures ConvertField(line) == "undefined: undefined,"
  {
    assert ViewField(line) == FieldView(None, None, None, None);
  }

  /** What the pipeline reads off a line once its parts are known. */
  lemma ViewOfParts(line: string, ps: seq<string>)
    requires FieldParts(line) == Some(ps) && |ps| >= 1
    ensures ViewField(line).name == Some(ps[0])
    ensures ViewField(line).snake == Some(Snake(ps[0]))
    ensures ViewField(line).declared == if |ps| >= 2 then Some(ps[1]) else None
    ensures ViewField(line).relation ==
      if |ps| >= 4 && ps[3] != "" then Some(ps[3])
      else if |ps| >= 3 then Some(ps[2])
      else None
  {
  }

  // Lines made of words separated by runs of spaces and commas

  /** A token of a field line: non-empty, with no separator and no whitespace. */
  predicate Word(t: string) {
    t != [] && forall i :: 0 <= i < |t| ==> !IsSep(t[i]) && !IsWhitespace(t[i])
  }

  /** A non-empty run of spaces and commas. */
  predicate Gap(g: string) {
    g != [] && forall i :: 0 <= i < |g| ==> IsSep(g[i])
  }

  predicate WellSpaced(toks: seq<string>, gaps: seq<string>) {
    |toks| >= 1 && |gaps| == |toks| - 1
    && (forall k :: 0 <= k < |toks| ==> Word(toks[k]))
    && (forall k :: 0 <= k < |gaps| ==> Gap(gaps[k]))
  }

  /** The words `toks` with the gap `gaps[k]` between words `k` and `k + 1`. */
  function Spaced(toks: seq<string>, gaps: seq<string>): string
    requires |toks| >= 1 && |gaps| == |toks| - 1
    decreases |toks|
  {
    if |toks| == 1 then toks[0] else toks[0] + gaps[0] + Spaced(toks[1..], gaps[1..])
  }

  /** A spaced line starts with its first word's first character and ends with its last word's last. */
  lemma {:induction false} SpacedEnds(toks: seq<string>, gaps: seq<string>)
    requires WellSpaced(toks, gaps)
    ensures var s := Spaced(toks, gaps);
      s != [] && s[0] == toks[0][0] && s[|s| - 1] == toks[|toks| - 1][|toks[|toks| - 1]| - 1]
    decreases |toks|
  {
    if |toks| > 1 {
      assert WellSpaced(toks[1..], gaps[1..]) by {
        assert forall k :: 0 <= k < |toks| - 1 ==> toks[1..][k] == toks[k + 1];
        assert forall k :: 0 <= k < |gaps| - 1 ==> gaps[1..][k] == gaps[k + 1];
      }
      SpacedEnds(toks[1..], gaps[1..]);
    }
  }

  lemma WordNoSep(t: string)
    requires Word(t)
    ensures NoSep(t) && ',' !in t && !Contains(t, ",")
  {
    MissingCharNotContained(t, ",", ',');
  }

  /** Collapsing a spaced line gives its words joined by single commas. */
  lemma {:induction false} NormaliseSpaced(toks: seq<string>, gaps: seq<string>)
    requires WellSpaced(toks, gaps)
    ensures Normalise(Spaced(toks, gaps)) == Join(toks, ",")
    decreases |toks|
  {
    WordNoSep(toks[0]);
    if |toks| == 1 {
      NormaliseFixpoint(toks[0]);
    } else {
      var rest := Spaced(toks[1..], gaps[1..]);
      assert WellSpaced(toks[1..], gaps[1..]) by {
        assert forall k :: 0 <= k < |toks| - 1 ==> toks[1..][k] == toks[k + 1];
        assert forall k :: 0 <= k < |gaps| - 1 ==> gaps[1..][k] == gaps[k + 1];
      }
      NormaliseSpaced(toks[1..], gaps[1..]);
      SpacedEnds(toks[1..], gaps[1..]);
      assert !IsSep(rest[0]) by {
        assert Word(toks[1]);
        assert rest[0] == toks[1][0];
      }
      assert toks[0] + gaps[0] + rest == toks[0] + (gaps[0] + rest);
      NormaliseFreePrefix(toks[0], gaps[0] + rest);
      NormaliseGap(gaps[0], rest);
    }
  }

  /** Words joined by commas split back into the words. */
  lemma WordsSplit(toks: seq<string>)
    requires |toks| >= 1 && forall k :: 0 <= k < |toks| ==> Word(toks[k])
    ensures Split(Join(toks, ","), ",") == toks
  {
    forall k | 0 <= k < |toks|
      ensures !Contains(toks[k], ",")
    {
      WordNoSep(toks[k]);
    }
    UnborderedChar(',');
    SplitJoin(toks, ",");
  }

  /** Words joined by commas make a non-empty text. */
  lemma JoinWordsNonEmpty(toks: seq<string>)
    requires |toks| >= 1 && toks[0] != []
    ensures Join(toks, ",") != []
  {
    if |toks| > 1 {
      assert |Join(toks, ",")| >= |toks[0]|;
    }
  }

  /** The spaced words, trimmed, are the spaced words. */
  lemma TrimSpaced(lead: string, toks: seq<string>, gaps: seq<string>, trail: string)
    requires WellSpaced(toks, gaps) && AllWhitespace(lead) && AllWhitespace(trail)
    ensures Trim(lead + Spaced(toks, gaps) + trail) == Spaced(toks, gaps)
  {
    SpacedEnds(toks, gaps);
    var last := toks[|toks| - 1];
    assert Word(toks[0]) && Word(last);
    assert !IsWhitespace(toks[0][0]) && !IsWhitespace(last[|last| - 1]);
    TrimSurrounded(lead, Spaced(toks, gaps), trail);
  }

  /**
   * A line without `@relation` made of words separated by runs of spaces
   * and commas, with any surrounding whitespace, has the words as its parts.
   */
  lemma WordsField(lead: string, toks: seq<string>, gaps: seq<string>, trail: string)
    requires WellSpaced(toks, gaps) && AllWhitespace(lead) && AllWhitespace(trail)
    requires !Contains(lead + Spaced(toks, gaps) + trail, RelationMarker)
    ensures FieldParts(lead + Spaced(toks, gaps) + trail) == Some(toks)
  {
    TrimSpaced(lead, toks, gaps, trail);
    NormaliseSpaced(toks, gaps);
    JoinWordsNonEmpty(toks);
    WordsSplit(toks);
  }

  /**
   * A line of words has the first word as its name and the second as its
   * type; the relation is the fourth word when there is one and the third
   * otherwise.
   */
  lemma WordsFieldConverted(lead: string, toks: seq<string>, gaps: seq<string>, trail: string)
    requires WellSpaced(toks, gaps) && |toks| >= 2 && AllWhitespace(lead) && AllWhitespace(trail)
    requires !Contains(lead + Spaced(toks, gaps) + trail, RelationMarker)
    ensures var snake := Some(Snake(toks[0]));
      var relation := if |toks| >= 4 then Some(toks[3]) else if |toks| == 3 then Some(toks[2]) else None;
      ConvertField(lead + Spaced(toks, gaps) + trail)
        == toks[0] + ": " + Render(ConvertType(Some(toks[1]), snake, relation))
           + ConvertRelation(relation, Some(toks[1]), snake)
  {
    var line := lead + Spaced(toks, gaps) + trail;
    WordsField(lead, toks, gaps, trail);
    assert Word(toks[0]) && Word(toks[1]);
    assert |toks| >= 4 ==> Word(toks[3]);
    ViewOfParts(line, toks);
  }

  // Lines with a trailing `@relation(...)` annotation

  /** `@relation` is unbordered: it starts with a character it has nowhere else. */
  lemma UnborderedRelationMarker()
    ensures Unbordered(RelationMarker)
  {
    var pat := RelationMarker;
    forall m | 0 < m < |pat|
      ensures pat[..m] != pat[|pat| - m..]
    {
      assert pat[..m][0] == '@';
      assert pat[|pat| - m..][0] == pat[|pat| - m] != '@';
    }
  }

  /** A character that is no separator and in no word is not in the spaced line. */
  lemma {:induction false} SpacedLacks(toks: seq<string>, gaps: seq<string>, c: char)
    requires WellSpaced(toks, gaps) && !IsSep(c)
    requires forall k :: 0 <= k < |toks| ==> c !in toks[k]
    ensures c !in Spaced(toks, gaps)
    decreases |toks|
  {
    if |toks| > 1 {
      assert WellSpaced(toks[1..], gaps[1..]) by {
        assert forall k :: 0 <= k < |toks| - 1 ==> toks[1..][k] == toks[k + 1];
        assert forall k :: 0 <= k < |gaps| - 1 ==> gaps[1..][k] == gaps[k + 1];
      }
      SpacedLacks(toks[1..], gaps[1..], c);
      assert Gap(gaps[0]);
      assert c !in gaps[0];
    }
  }

  lemma WhitespaceLacksAt(w: string)
    requires AllWhitespace(w)
    ensures '@' !in w
  {
    forall i | 0 <= i < |w|
      ensures w[i] != '@'
    {
      assert IsWhitespace(w[i]);
    }
  }

  /**
   * A line of words followed by `@relation` has the words as its first
   * parts, and then the pieces of the annotation cut at every comma.
   */
  lemma RelationField(lead: string, toks: seq<string>, gaps: seq<string>, gap: string, tail: string)
    requires WellSpaced(toks, gaps) && AllWhitespace(lead) && AllWhitespace(gap)
    requires forall k :: 0 <= k < |toks| ==> '@' !in toks[k]
    ensures FieldParts(lead + Spaced(toks, gaps) + gap + RelationMarker + tail)
      == Some(toks + Split(RelationMarker + tail, ","))
  {
    var line := lead + Spaced(toks, gaps) + gap + RelationMarker + tail;
    RelationFieldText(lead, toks, gaps, gap, tail);
    var text := Join(toks, ",") + "," + (RelationMarker + tail);
    assert FieldText(line) == text;
    forall k | 0 <= k < |toks|
      ensures !Contains(toks[k], ",")
    {
      WordNoSep(toks[k]);
    }
    UnborderedChar(',');
    SplitAfterJoin(toks, ",", RelationMarker + tail);
  }

  /** The field text of such a line: the words joined by commas, a comma, and the annotation. */
  lemma RelationFieldText(lead: string, toks: seq<string>, gaps: seq<string>, gap: string, tail: string)
    requires WellSpaced(toks, gaps) && AllWhitespace(lead) && AllWhitespace(gap)
    requires forall k :: 0 <= k < |toks| ==> '@' !in toks[k]
    ensures FieldText(lead + Spaced(toks, gaps) + gap + RelationMarker + tail)
      == Join(toks, ",") + "," + (RelationMarker + tail)
  {
    var x := lead + Spaced(toks, gaps) + gap;
    var line := x + RelationMarker + tail;
    RelationIndex(lead, toks, gaps, gap, tail);
    assert Normalise(Trim(x)) == Join(toks, ",") by {
      TrimSpaced(lead, toks, gaps, gap);
      NormaliseSpaced(toks, gaps);
    }
    ExtractRelationAfter(x, tail);
  }

  /** The first `@relation` of such a line comes right after the words and the gap. */
  lemma RelationIndex(lead: string, toks: seq<string>, gaps: seq<string>, gap: string, tail: string)
    requires WellSpaced(toks, gaps) && AllWhitespace(lead) && AllWhitespace(gap)
    requires forall k :: 0 <= k < |toks| ==> '@' !in toks[k]
    ensures var x := lead + Spaced(toks, gaps) + gap;
      |x| > 0 && IndexOf(x + RelationMarker + tail, RelationMarker) == |x|
  {
    var x := lead + Spaced(toks, gaps) + gap;
    SpacedLacks(toks, gaps, '@');
    WhitespaceLacksAt(lead);
    WhitespaceLacksAt(gap);
    MissingCharNotContained(x, RelationMarker, '@');
    UnborderedRelationMarker();
    IndexOfAfterFree(x, RelationMarker, tail);
    SpacedEnds(toks, gaps);
  }

  /**
   * A field whose annotation names the referenced column in its second
   * comma-separated piece: the column is a text column named after the
   * lower-cased type and the referenced column (with whatever follows the
   * first `]` up to the next comma), and the modifier points at the
   * snake-cased field name, with the call left open.
   */
  lemma ReferenceFieldLine(lead: string, name: string, g: string, ty: string, g2: string,
                           f: string, col: string, tail: string, rest: string)
    requires AllWhitespace(lead) && AllWhitespace(g2) && Word(name) && Word(ty) && Gap(g)
    requires '@' !in name && '@' !in ty
    requires !Contains(ty, "Int") && !Contains(ty, "String") && !Contains(ty, "Boolean") && !Contains(ty, "DateTime")
    requires ',' !in f && ',' !in col + tail
    requires '[' !in col && ']' !in col && '[' !in tail && '@' !in col + tail
    requires rest == [] || rest[0] == ','
    ensures ConvertField(lead + name + g + ty + g2 + RelationMarker + f + ", references: [" + col + "]" + tail + rest)
      == name + ": " + ("text('" + ReplaceFirst(ToLower(ty), "?", "") + "_" + col + tail + "')")
         + (".references(()=> " + Snake(name) + "." + col + tail + ",")
  {
    var line := lead + name + g + ty + g2 + RelationMarker + f + ", references: [" + col + "]" + tail + rest;
    ReferenceView(lead, name, g, ty, g2, f, col, tail, rest, line);
    ReferenceEmitters(ty, Snake(name), col, tail);
    EmitReference(line, name, ty, Snake(name), " references: [" + col + "]" + tail,
      "text('" + ReplaceFirst(ToLower(ty), "?", "") + "_" + col + tail + "')",
      ".references(()=> " + Snake(name) + "." + col + tail + ",");
  }

  /** The two emitters on a `references: [col]tail` relation piece. */
  lemma ReferenceEmitters(ty: string, snake: string, col: string, tail: string)
    requires ty != "" && !Contains(ty, "Int") && !Contains(ty, "String") && !Contains(ty, "Boolean") && !Contains(ty, "DateTime")
    requires '[' !in col && ']' !in col && '[' !in tail && '@' !in col + tail
    ensures ConvertType(Some(ty), Some(snake), Some(" references: [" + col + "]" + tail))
      == Some("text('" + ReplaceFirst(ToLower(ty), "?", "") + "_" + col + tail + "')")
    ensures ConvertRelation(Some(" references: [" + col + "]" + tail), Some(ty), Some(snake))
      == ".references(()=> " + snake + "." + col + tail + ","
  {
    assert " " + ReferencesKey == " references: [";
    assert 'r' !in " ";
    MissingCharNotContained(" ", ReferencesKey, 'r');
    NoDefaultInReference(" ", col, tail);
    BracketFreeRest(col, tail);
    ConvertTypeModelReference(ty, Some(snake), " ", col, tail);
    ConvertRelationReferences(ty, Some(snake), " ", col, tail);
  }

  /** The emitted entry of a line, given what the pipeline reads off it and what the emitters give. */
  lemma EmitReference(line: string, name: string, ty: string, snake: string, relation: string,
                      column: string, modifier: string)
    requires ty != ""
    requires ViewField(line) == FieldView(Some(name), Some(ty), Some(snake), Some(relation))
    requires ConvertType(Some(ty), Some(snake), Some(relation)) == Some(column)
    requires ConvertRelation(Some(relation), Some(ty), Some(snake)) == modifier
    ensures ConvertField(line) == name + ": " + column + modifier
  {
  }

  /** What the pipeline reads off such a line: the relation is the `references` piece. */
  lemma ReferenceView(lead: string, name: string, g: string, ty: string, g2: string,
                      f: string, col: string, tail: string, rest: string, line: string)
    requires AllWhitespace(lead) && AllWhitespace(g2) && Word(name) && Word(ty) && Gap(g)
    requires '@' !in name && '@' !in ty
    requires ',' !in f && ',' !in col + tail
    requires rest == [] || rest[0] == ','
    requires line == lead + name + g + ty + g2 + RelationMarker + f + ", references: [" + col + "]" + tail + rest
    ensures ViewField(line) == FieldView(Some(name), Some(ty), Some(Snake(name)), Some(" references: [" + col + "]" + tail))
  {
    var p1 := " references: [" + col + "]" + tail;
    NoCommaInReference(col, tail);
    Regroup(lead, name, g, ty, g2, f, col, tail, rest, line);
    SecondPieceRelation(lead, name, g, ty, g2, f, p1, rest, line);
    var ps := FieldParts(line).value;
    ViewOfParts(line, ps);
  }

  lemma NoCommaInReference(col: string, tail: string)
    requires ',' !in col + tail
    ensures ',' !in " references: [" + col + "]" + tail
  {
    var p1 := " references: [" + col + "]" + tail;
    assert ',' !in " references: [";
    assert forall c :: c in p1 ==> c in " references: [" || c in col + tail || c == ']';
  }

  lemma Regroup(lead: string, name: string, g: string, ty: string, g2: string,
                f: string, col: string, tail: string, rest: string, line: string)
    requires line == lead + name + g + ty + g2 + RelationMarker + f + ", references: [" + col + "]" + tail + rest
    ensures line == lead + (name + g + ty) + g2 + RelationMarker + (f + "," + (" references: [" + col + "]" + tail) + rest)
  {
    assert ", references: [" == "," + " references: [";
  }

  /**
   * A `name type @relation(...)` line whose annotation has a second
   * comma-separated piece `p1`: that piece is part 3.
   */
  lemma SecondPieceRelation(lead: string, name: string, g: string, ty: string, g2: string,
                            f: string, p1: string, rest: string, line: string)
    requires AllWhitespace(lead) && AllWhitespace(g2) && Word(name) && Word(ty) && Gap(g)
    requires '@' !in name && '@' !in ty
    requires ',' !in f && ',' !in p1
    requires rest == [] || rest[0] == ','
    requires line == lead + (name + g + ty) + g2 + RelationMarker + (f + "," + p1 + rest)
    ensures var parts := FieldParts(line);
      parts.Some? && |parts.value| >= 4
      && parts.value[0] == name && parts.value[1] == ty && parts.value[3] == p1
  {
    var toks := [name, ty];
    assert Spaced(toks, [g]) == name + g + ty by {
      assert toks[1..] == [ty];
    }
    assert WellSpaced(toks, [g]);
    RelationField(lead, toks, [g], g2, f + "," + p1 + rest);
    RelationPieces(f, p1, rest);
  }

  /** The first two pieces of `@relation` + `f` + `,` + `p1` + `rest`. */
  lemma RelationPieces(f: string, p1: string, rest: string)
    requires ',' !in f && ',' !in p1 && (rest == [] || rest[0] == ',')
    ensures var pieces := Split(RelationMarker + (f + "," + p1 + rest), ",");
      |pieces| >= 2 && pieces[0] == RelationMarker + f && pieces[1] == p1
  {
    var p0 := RelationMarker + f;
    assert ',' !in RelationMarker;
    assert ',' !in p0;
    MissingCharNotContained(p0, ",", ',');
    UnborderedChar(',');
    assert RelationMarker + (f + "," + p1 + rest) == Join([p0], ",") + "," + (p1 + rest);
    SplitAfterJoin([p0], ",", p1 + rest);
    FirstPiece(p1, ',', rest);
  }

  // ---------------------------------------------------------------------
  // A field line gives a one-line entry

  /** The parts of a line without a line feed have none either. */
  lemma FieldPartsOneLine(line: string)
    requires '\n' !in line
    ensures FieldParts(line).Some? ==> forall k :: 0 <= k < |FieldParts(line).value| ==> '\n' !in FieldParts(line).value[k]
  {
    var text := FieldText(line);
    if Contains(line, RelationMarker) {
      ExtractRelationLacks(line, '\n');
    } else {
      TrimLacks(line, '\n');
      NormaliseLacks(Trim(line), '\n');
    }
    SplitLacks(text, ",", '\n');
  }

  lemma ViewOneLine(line: string)
    requires '\n' !in line
    ensures OneLine(ViewField(line).name) && OneLine(ViewField(line).declared)
    ensures OneLine(ViewField(line).snake) && OneLine(ViewField(line).relation)
  {
    FieldPartsOneLine(line);
    var name := Part(FieldParts(line), 0);
    if Truthy(name) {
      SnakeLacks(name.value, '\n');
    }
  }

  /**
   * The entry of a line without a line feed has none either, so each entry
   * of a block is one line of its text.
   */
  lemma ConvertFieldOneLine(line: string)
    requires '\n' !in line
    ensures '\n' !in ConvertField(line)
  {
    var v := ViewField(line);
    ViewOneLine(line);
    ConvertTypeOneLine(v.declared, v.snake, v.relation);
    ConvertRelationOneLine(v.relation, v.declared, v.snake);
    var column := if Truthy(v.declared) then ConvertType(v.declared, v.snake, v.relation) else v.declared;
    EntryOneLine(v.name, column, ConvertRelation(v.relation, v.declared, v.snake));
  }

  lemma EntryOneLine(name: Option<string>, column: Option<string>, modifier: string)
    requires OneLine(name) && OneLine(column) && '\n' !in modifier
    ensures '\n' !in Render(name) + ": " + Render(column) + modifier
  {
    RenderOneLine(name);
    RenderOneLine(column);
  }
}
