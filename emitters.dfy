/**
 * The two emitters of the converter: `convertType`, which maps a declared
 * Prisma type to a Drizzle column constructor, and `convertRelation`, which
 * maps the annotation fragment of a field to the modifier chain that follows
 * the constructor. Both try their rules in a fixed order; the first that
 * applies decides.
 */
module Emitters {
  import opened JsStrings

  /** The marker whose following text names the referenced column. */
  const ReferencesKey := "references: ["

  /**
   * `relation?.split('references: [')?.[1]?.replace(']', '')`: the text
   * between the first and the second `references: [`, without its first `]`,
   * or absent when the relation is absent or has no `references: [`.
   */
  function ReferencedColumn(relation: Option<string>): Option<string> {
    match relation
    case None => None
    case Some(rel) =>
      var pieces := Split(rel, ReferencesKey);
      if |pieces| < 2 then None else Some(ReplaceFirst(pieces[1], "]", ""))
  }

  /** Without a `references: [` there is no referenced column. */
  lemma ReferencedColumnAbsent(rel: string)
    requires !Contains(rel, ReferencesKey)
    ensures ReferencedColumn(Some(rel)) == None
  {
  }

  /**
   * After a `lead` without `references: [`, the referenced column is the
   * text up to the next `references: [` (or to the end), without its first
   * `]`.
   */
  lemma ReferencedColumnAfterLead(lead: string, rest: string)
    requires !Contains(lead, ReferencesKey)
    ensures ReferencedColumn(Some(lead + ReferencesKey + rest)) == Some(ReplaceFirst(Split(rest, ReferencesKey)[0], "]", ""))
  {
    var rel := lead + ReferencesKey + rest;
    UnborderedReferencesKey();
    IndexOfAfterFree(lead, ReferencesKey, rest);
    assert rel[|lead| + |ReferencesKey|..] == rest;
    SplitAtFirst(rel, ReferencesKey);
    assert Split(rel, ReferencesKey)[1] == Split(rest, ReferencesKey)[0];
  }

  /** With a single `references: [`, the referenced column is what follows it, without its first `]`. */
  lemma ReferencedColumnGeneral(lead: string, rest: string)
    requires !Contains(lead, ReferencesKey) && !Contains(rest, ReferencesKey)
    ensures ReferencedColumn(Some(lead + ReferencesKey + rest)) == Some(ReplaceFirst(rest, "]", ""))
  {
    ReferencedColumnAfterLead(lead, rest);
    assert Split(rest, ReferencesKey) == [rest];
  }

  /**
   * A piece such as ` references: [c`, cut from `references: [c, d]` at its
   * comma, has no `]` to drop: the referenced column is `c`.
   */
  lemma ReferencedColumnUnclosed(lead: string, col: string)
    requires !Contains(lead, ReferencesKey) && '[' !in col && ']' !in col
    ensures ReferencedColumn(Some(lead + ReferencesKey + col)) == Some(col)
  {
    MissingCharNotContained(col, ReferencesKey, '[');
    ReferencedColumnGeneral(lead, col);
    MissingCharNotContained(col, "]", ']');
  }

  /**
   * The referenced column of `lead + "references: [" + col + "]" + tail`,
   * where `lead` holds no `references: [`, is `col` followed by `tail`: only
   * the first `]` is dropped, so a closing `)` of the annotation stays
   * behind.
   */
  lemma ReferencedColumnOf(lead: string, col: string, tail: string)
    requires !Contains(lead, ReferencesKey)
    requires ']' !in col && !Contains(col + "]" + tail, ReferencesKey)
    ensures ReferencedColumn(Some(lead + ReferencesKey + col + "]" + tail)) == Some(col + tail)
  {
    var rest := col + "]" + tail;
    assert lead + ReferencesKey + rest == lead + ReferencesKey + col + "]" + tail;
    ReferencedColumnGeneral(lead, rest);
    DropFirstBracket(col, tail);
  }

  /** A column and a tail without `[` leave no room for a second `references: [`. */
  lemma BracketFreeRest(col: string, tail: string)
    requires '[' !in col && '[' !in tail
    ensures !Contains(col + "]" + tail, ReferencesKey)
  {
    var rest := col + "]" + tail;
    assert '[' !in rest by {
      assert forall c :: c in rest ==> c in col || c == ']' || c in tail;
    }
    MissingCharNotContained(rest, ReferencesKey, '[');
  }

  /** `references: [` is unbordered: it ends with the only `[` it has. */
  lemma UnborderedReferencesKey()
    ensures Unbordered(ReferencesKey)
  {
    var pat := ReferencesKey;
    forall m | 0 < m < |pat|
      ensures pat[..m] != pat[|pat| - m..]
    {
      assert pat[..m][m - 1] == pat[m - 1] != '[';
      assert pat[|pat| - m..][m - 1] == pat[|pat| - 1] == '[';
    }
  }

  /**
   * When `references: [` follows `@relation(` directly, the `)` that closes
   * the annotation is carried into the referenced column.
   */
  lemma ReferencedColumnInRelation()
    ensures ReferencedColumn(Some("@relation(references: [id])")) == Some("id)")
  {
    RelationOpenerFree();
    RelationIdPieces();
    BracketFreeRest("id", ")");
    ReferencedColumnOf("@relation(", "id", ")");
  }

  lemma RelationOpenerFree()
    ensures !Contains("@relation(", ReferencesKey)
  {
    assert 'f' !in "@relation(";
    MissingCharNotContained("@relation(", ReferencesKey, 'f');
  }

  lemma RelationIdPieces()
    ensures "@relation(" + ReferencesKey + "id" + "]" + ")" == "@relation(references: [id])"
    ensures "id" + ")" == "id)"
  {
  }

  lemma DropFirstBracket(col: string, tail: string)
    requires ']' !in col
    ensures ReplaceFirst(col + "]" + tail, "]", "") == col + tail
  {
    MissingCharNotContained(col, "]", ']');
    IndexOfAfterFree(col, "]", tail);
    var rest := col + "]" + tail;
    assert rest[..|col|] == col && rest[|col| + 1..] == tail;
  }

  // ---------------------------------------------------------------------
  // convertType (src/index.ts lines 115-134)

  /** The column text `convertType` gives a DateTime field, whatever its name. */
  const TimestampColumn := "integer('created_at', { mode: 'timestamp' })"

  /**
   * `convertType(type, snakecase, relation)`. An absent or empty type is
   * returned as it is; otherwise the first of `Int?`, `Int`, `String`,
   * `Boolean`, `DateTime` that occurs in the type picks the constructor, and
   * a type with none of them is taken for a reference to another model.
   */
  function ConvertType(ty: Option<string>, snake: Option<string>, relation: Option<string>): Option<string> {
    if !Truthy(ty) then ty
    else
      var t := ty.value;
      // the source tests `type.indexOf('Int?') >= 0` twice in this condition
      if Contains(t, "Int?") then Some("integer(\"" + Render(snake) + "\")")
      else if Contains(t, "Int") && !Contains(t, "Int?") then Some("integer(\"" + Render(snake) + "\").notNull()")
      else if Contains(t, "String") then Some("text(\"" + Render(snake) + "\")")
      else if Contains(t, "Boolean") then Some("integer(\"" + Render(snake) + "\")")
      else if Contains(t, "DateTime") then Some(TimestampColumn)
      else Some("text('" + ReplaceFirst(ToLower(t), "?", "") + "_" + Render(ReferencedColumn(relation)) + "')")
  }

  /** The kinds of column the type keywords select, with the model-reference fallback. */
  datatype ColumnKind = NullableInt | NotNullInt | Text | BooleanInt | Timestamp | ModelReference

  /** The type keywords in the order `convertType` tries them. */
  const TypeKeywords: seq<(string, ColumnKind)> :=
    [("Int?", NullableInt), ("Int", NotNullInt), ("String", Text), ("Boolean", BooleanInt), ("DateTime", Timestamp)]

  /** Entry `i` of `table` is the first whose keyword occurs in `t`. */
  predicate FirstHitAt(table: seq<(string, ColumnKind)>, t: string, i: int) {
    0 <= i < |table| && Contains(t, table[i].0)
    && forall j :: 0 <= j < i ==> !Contains(t, table[j].0)
  }

  /**
   * The kind of the first entry of `table` whose keyword occurs in `t`, or
   * `ModelReference` when no keyword occurs.
   */
  function FirstKeyword(table: seq<(string, ColumnKind)>, t: string): (k: ColumnKind)
    ensures forall i :: FirstHitAt(table, t, i) ==> k == table[i].1
    ensures (forall i :: 0 <= i < |table| ==> !Contains(t, table[i].0)) ==> k == ModelReference
    decreases |table|
  {
    if table == [] then ModelReference
    else if Contains(t, table[0].0) then table[0].1
    else
      var k := FirstKeyword(table[1..], t);
      assert forall i :: FirstHitAt(table, t, i) ==> i > 0 && FirstHitAt(table[1..], t, i - 1);
      k
  }

  /** The column text of each kind. */
  function ColumnText(kind: ColumnKind, t: string, snake: Option<string>, relation: Option<string>): string {
    match kind
    case NullableInt => "integer(\"" + Render(snake) + "\")"
    case NotNullInt => "integer(\"" + Render(snake) + "\").notNull()"
    case Text => "text(\"" + Render(snake) + "\")"
    case BooleanInt => "integer(\"" + Render(snake) + "\")"
    case Timestamp => TimestampColumn
    case ModelReference => "text('" + ReplaceFirst(ToLower(t), "?", "") + "_" + Render(ReferencedColumn(relation)) + "')"
  }

  /**
   * `convertType` is a first-match dispatch over the keyword table: an
   * absent or empty type comes back unchanged, any other type gets the
   * column text of the kind of its first keyword.
   */
  lemma ConvertTypeByKeywords(ty: Option<string>, snake: Option<string>, relation: Option<string>)
    ensures !Truthy(ty) ==> ConvertType(ty, snake, relation) == ty
    ensures Truthy(ty) ==>
      ConvertType(ty, snake, relation) == Some(ColumnText(FirstKeyword(TypeKeywords, ty.value), ty.value, snake, relation))
  {
    if Truthy(ty) {
      var t := ty.value;
      var table := TypeKeywords;
      if Contains(t, "Int?") {
        assert FirstHitAt(table, t, 0);
      } else if Contains(t, "Int") {
        assert FirstHitAt(table, t, 1);
      } else if Contains(t, "String") {
        assert FirstHitAt(table, t, 2);
      } else if Contains(t, "Boolean") {
        assert FirstHitAt(table, t, 3);
      } else if Contains(t, "DateTime") {
        assert FirstHitAt(table, t, 4);
      }
    }
  }

  /** The column text ends in `.notNull()`. */
  predicate IsNotNull(col: string) {
    |col| >= 10 && col[|col| - 10..] == ".notNull()"
  }

  /**
   * Only a type with `Int` and without `Int?` gets `.notNull()`; every
   * other present type gives a nullable column.
   */
  lemma ConvertTypeNotNullIff(t: string, snake: Option<string>, relation: Option<string>)
    requires t != ""
    ensures ConvertType(Some(t), snake, relation).Some?
    ensures IsNotNull(ConvertType(Some(t), snake, relation).value)
        <==> Contains(t, "Int") && !Contains(t, "Int?")
  {
    var col := ConvertType(Some(t), snake, relation).value;
    if Contains(t, "Int") && !Contains(t, "Int?") {
      var x := "integer(\"" + Render(snake) + "\")";
      assert col == x + ".notNull()";
      assert col[|col| - 10..] == ".notNull()";
    } else if Contains(t, "Int?") || Contains(t, "String") || Contains(t, "Boolean") {
      NotNotNull("integer(\"" + Render(snake), "\")");
      NotNotNull("text(\"" + Render(snake), "\")");
    } else if Contains(t, "DateTime") {
      NotNotNull("integer('created_at', { mode: 'timestamp' ", "})");
    } else {
      NotNotNull("text('" + ReplaceFirst(ToLower(t), "?", "") + "_" + Render(ReferencedColumn(relation)), "')");
    }
  }

  /** A column text that closes with `")`, `')` or `})` has no `.notNull()`. */
  lemma NotNotNull(x: string, close: string)
    requires close in {"\")", "')", "})"}
    ensures !IsNotNull(x + close)
  {
    var col := x + close;
    assert col[|col| - 2] == close[0] != '(';
    if |col| >= 10 {
      assert col[|col| - 10..][8] == col[|col| - 2];
    }
  }

  /** A type with `Int?` gives a nullable integer column named after the field. */
  lemma ConvertTypeNullableInt(t: string, snake: Option<string>, relation: Option<string>)
    requires Contains(t, "Int?")
    ensures ConvertType(Some(t), snake, relation) == Some("integer(\"" + Render(snake) + "\")")
  {
  }

  /** A type with `Int` but not `Int?` gives a not-null integer column. */
  lemma ConvertTypeNotNullInt(t: string, snake: Option<string>, relation: Option<string>)
    requires Contains(t, "Int") && !Contains(t, "Int?")
    ensures ConvertType(Some(t), snake, relation) == Some("integer(\"" + Render(snake) + "\").notNull()")
  {
  }

  /**
   * A DateTime type always gives the fixed `created_at` timestamp column,
   * whatever the field name and the relation.
   */
  lemma ConvertTypeTimestamp(t: string, snake1: Option<string>, relation1: Option<string>,
                             snake2: Option<string>, relation2: Option<string>)
    requires Contains(t, "DateTime") && !Contains(t, "Int") && !Contains(t, "String") && !Contains(t, "Boolean")
    ensures ConvertType(Some(t), snake1, relation1) == ConvertType(Some(t), snake2, relation2)
    ensures ConvertType(Some(t), snake1, relation1) == Some(TimestampColumn)
  {
    assert !Contains(t, "Int?") by {
      if Contains(t, "Int?") {
        var i := IndexOf(t, "Int?");
        assert t[i..i + 3] == t[i..i + 4][..3] == "Int";
        assert OccursAt(t, "Int", i);
      }
    }
  }

  /** The type text of a model reference: lower-cased, its optional marker dropped. */
  lemma LowerWithoutMarker(base: string)
    requires '?' !in base
    ensures ReplaceFirst(ToLower(base + "?"), "?", "") == ToLower(base)
  {
    var low := ToLower(base);
    LowerAppend(base, "?");
    assert ToLower("?") == "?";
    LowerKeepsMarkerOut(base);
    MissingCharNotContained(low, "?", '?');
    UnborderedChar('?');
    ReplaceFirstAfterFree(low, "?", "");
    assert low + "?" + "" == low + "?" && low + "" == low;
  }

  lemma LowerAppend(a: string, b: string)
    ensures ToLower(a + b) == ToLower(a) + ToLower(b)
  {
    assert forall i :: 0 <= i < |a| ==> (a + b)[i] == a[i];
    assert forall i :: |a| <= i < |a + b| ==> (a + b)[i] == b[i - |a|];
  }

  lemma LowerKeepsMarkerOut(base: string)
    requires '?' !in base
    ensures '?' !in ToLower(base)
  {
    var low := ToLower(base);
    forall i | 0 <= i < |low|
      ensures low[i] != '?'
    {
      assert low[i] == LowerChar(base[i]);
      assert base[i] in base;
    }
  }

  /**
   * A type naming another model becomes a text column called after the
   * lower-cased type and the referenced column; the `)` that closes the
   * `@relation(...)` annotation is carried into the name.
   */
  lemma ConvertTypeModelReference(t: string, snake: Option<string>, lead: string, col: string, tail: string)
    requires t != "" && !Contains(t, "Int") && !Contains(t, "String") && !Contains(t, "Boolean") && !Contains(t, "DateTime")
    requires !Contains(lead, ReferencesKey)
    requires ']' !in col && !Contains(col + "]" + tail, ReferencesKey)
    ensures ConvertType(Some(t), snake, Some(lead + ReferencesKey + col + "]" + tail))
      == Some("text('" + ReplaceFirst(ToLower(t), "?", "") + "_" + col + tail + "')")
  {
    NoIntNoOptionalInt(t);
    ReferencedColumnOf(lead, col, tail);
    var low := ReplaceFirst(ToLower(t), "?", "");
    assert "text('" + low + "_" + (col + tail) + "')" == "text('" + low + "_" + col + tail + "')";
  }

  /**
   * Without a `references: [` clause the referenced column is absent and the
   * generated name ends in `_undefined`.
   */
  lemma ConvertTypeUnresolvedReference(t: string, snake: Option<string>, relation: Option<string>)
    requires t != "" && !Contains(t, "Int") && !Contains(t, "String") && !Contains(t, "Boolean") && !Contains(t, "DateTime")
    requires relation.None? || !Contains(relation.value, ReferencesKey)
    ensures ConvertType(Some(t), snake, relation)
      == Some("text('" + ReplaceFirst(ToLower(t), "?", "") + "_undefined')")
  {
    NoIntNoOptionalInt(t);
    assert ReferencedColumn(relation) == None;
    var low := ReplaceFirst(ToLower(t), "?", "");
    assert "text('" + low + "_" + "undefined" + "')" == "text('" + low + "_undefined')";
  }

  lemma NoIntNoOptionalInt(t: string)
    requires !Contains(t, "Int")
    ensures !Contains(t, "Int?")
  {
    forall i | 0 <= i
      ensures !OccursAt(t, "Int?", i)
    {
      if i + 4 <= |t| {
        assert !OccursAt(t, "Int", i);
        assert t[i..i + 4][..3] == t[i..i + 3];
      }
    }
  }

  // ---------------------------------------------------------------------
  // convertRelation (src/index.ts lines 136-162)

  /** The modifier `convertRelation` gives a `@default(now())` field. */
  const NowDefault := ".default(sql`(strftime('%s', 'now'))`),"

  /** The relation with the first `open` and, after that, the first `close` removed. */
  function StripCall(rel: string, open: string, close: string): string {
    ReplaceFirst(ReplaceFirst(rel, open, ""), close, "")
  }

  /**
   * `convertRelation(relation, type, snakeCase)`: the modifier chain that
   * follows the column constructor of one field.
   */
  function ConvertRelation(relation: Option<string>, ty: Option<string>, snake: Option<string>): string {
    if !Truthy(relation) then ","
    else
      var rel := relation.value;
      if Contains(rel, "@default") && !Contains(rel, "autoincrement()") && !Contains(rel, "@default(now())") then
        var value :=
          if Truthy(ty) && Contains(ty.value, "Boolean") then
            (if StripCall(rel, "@default(", ")") == "true" then "1" else "0")
          else if Contains(rel, "@default('") then StripCall(rel, "@default('", "')")
          else StripCall(rel, "@default(", ")");
        if Contains(rel, "@default('") then ".default(\"" + value + "\"),"
        else ".default(" + value + "),"
      else if Contains(rel, "@default(now())") then NowDefault
      else if Contains(rel, "@default") && Contains(rel, "autoincrement()") then ".primaryKey(),"
      else if Contains(rel, "references") && Truthy(ty) then
        ".references(()=> " + Render(snake) + "." + Render(ReferencedColumn(relation)) + ","
      else ""
  }

  /** The bare separator comma is the modifier of exactly the fields without a relation. */
  lemma ConvertRelationAbsentIff(relation: Option<string>, ty: Option<string>, snake: Option<string>)
    ensures ConvertRelation(relation, ty, snake) == "," <==> !Truthy(relation)
  {
    var r := ConvertRelation(relation, ty, snake);
    if Truthy(relation) && r != "" {
      assert r[0] == '.';
    }
  }

  /**
   * An auto-incremented default marks the primary key, whatever the type,
   * unless the relation also holds `@default(now())`.
   */
  lemma ConvertRelationPrimaryKey(rel: string, ty: Option<string>, snake: Option<string>)
    requires Contains(rel, "@default") && Contains(rel, "autoincrement()") && !Contains(rel, "@default(now())")
    ensures ConvertRelation(Some(rel), ty, snake) == ".primaryKey(),"
  {
  }

  /** A `@default(now())` relation gives the fixed epoch-seconds default. */
  lemma ConvertRelationNow(rel: string, ty: Option<string>, snake: Option<string>)
    requires Contains(rel, "@default(now())")
    ensures ConvertRelation(Some(rel), ty, snake) == NowDefault
  {
  }

  /**
   * On a Boolean field a default other than `now()` and `autoincrement()`
   * becomes `1` exactly when its stripped argument is `true`, and `0`
   * otherwise.
   */
  lemma ConvertRelationBooleanDefault(rel: string, ty: string, snake: Option<string>)
    requires Contains(rel, "@default") && !Contains(rel, "autoincrement()") && !Contains(rel, "@default(now())")
    requires Contains(ty, "Boolean")
    ensures var bit := if StripCall(rel, "@default(", ")") == "true" then "1" else "0";
      ConvertRelation(Some(rel), Some(ty), snake)
        == if Contains(rel, "@default('") then ".default(\"" + bit + "\")," else ".default(" + bit + "),"
  {
  }

  /**
   * On a Boolean field `@default(x)` gives `.default(1),` when `x` is `true`
   * and `.default(0),` otherwise.
   */
  lemma ConvertRelationBooleanBare(x: string, ty: string, snake: Option<string>)
    requires ')' !in x && '@' !in x && (x == [] || x[0] != '\'')
    requires Contains(ty, "Boolean")
    requires var rel := "@default(" + x + ")";
      !Contains(rel, "autoincrement()") && !Contains(rel, "@default(now())")
    ensures ConvertRelation(Some("@default(" + x + ")"), Some(ty), snake)
      == if x == "true" then ".default(1)," else ".default(0),"
  {
    DefaultCall(x);
  }

  /** `@default(true)` and `@default(false)` on a Boolean field give `1` and `0`. */
  lemma ConvertRelationBooleanLiterals(x: string, ty: string, snake: Option<string>)
    requires x == "true" || x == "false"
    requires Contains(ty, "Boolean")
    ensures ConvertRelation(Some("@default(" + x + ")"), Some(ty), snake)
      == if x == "true" then ".default(1)," else ".default(0),"
  {
    var rel := "@default(" + x + ")";
    assert 'o' !in rel;
    assert 'o' in "autoincrement()" && 'o' in "@default(now())";
    MissingCharNotContained(rel, "autoincrement()", 'o');
    MissingCharNotContained(rel, "@default(now())", 'o');
    ConvertRelationBooleanBare(x, ty, snake);
  }

  /**
   * The facts `convertRelation` tests about `@default(x)` when `x` has no
   * `)` or `@` and does not start with a single quote.
   */
  lemma DefaultCall(x: string)
    requires ')' !in x && '@' !in x && (x == [] || x[0] != '\'')
    ensures var rel := "@default(" + x + ")";
      && Contains(rel, "@default")
      && !Contains(rel, "@default('")
      && StripCall(rel, "@default(", ")") == x
  {
    DefaultCallContains(x);
    DefaultCallUnquoted(x);
    DefaultCallStrip(x);
  }

  lemma DefaultCallContains(x: string)
    ensures Contains("@default(" + x + ")", "@default")
  {
    var rel := "@default(" + x + ")";
    assert rel == "@default" + ("(" + x + ")");
    OccursPrefix(rel, "@default", "(" + x + ")", 0);
  }

  lemma DefaultCallStrip(x: string)
    requires ')' !in x
    ensures StripCall("@default(" + x + ")", "@default(", ")") == x
  {
    var open := "@default(";
    assert open + x + ")" == open + (x + ")");
    ReplaceFirstAtStart(open, x + ")");
    MissingCharNotContained(x, ")", ')');
    UnborderedChar(')');
    ReplaceFirstAfterFree(x, ")", "");
    assert x + ")" + "" == x + ")" && x + "" == x;
  }

  lemma DefaultCallUnquoted(x: string)
    requires (x == [] || x[0] != '\'') && '@' !in x
    ensures !Contains("@default(" + x + ")", "@default('")
  {
    var rel := "@default(" + x + ")";
    var pat := "@default('";
    forall i | 0 <= i
      ensures !OccursAt(rel, pat, i)
    {
      if i + 10 <= |rel| {
        if i == 0 {
          assert rel[i..i + 10][9] == rel[9] != pat[9];
        } else {
          assert rel[i..i + 10][0] == rel[i];
          if i < 9 {
            assert rel[i] == "@default("[i];
          } else if i < 9 + |x| {
            assert rel[i] == x[i - 9];
          }
        }
      }
    }
  }

  /**
   * On a Boolean field a single-quoted default always gives `"0"`, even
   * `'true'`: the argument is compared with its quotes still on.
   */
  lemma ConvertRelationBooleanQuoted(x: string, ty: string, snake: Option<string>)
    requires !Contains(x, "')")
    requires Contains(ty, "Boolean")
    requires var rel := "@default('" + x + "')";
      !Contains(rel, "autoincrement()") && !Contains(rel, "@default(now())")
    ensures ConvertRelation(Some("@default('" + x + "')"), Some(ty), snake) == ".default(\"0\"),"
  {
    QuotedCall(x);
    QuotedArgumentKeepsQuote(x);
    ConvertRelationBooleanDefault("@default('" + x + "')", ty, snake);
  }

  lemma QuotedArgumentKeepsQuote(x: string)
    ensures StripCall("@default('" + x + "')", "@default(", ")") != "true"
  {
    var y := "'" + x + "')";
    assert "@default('" + x + "')" == "@default(" + y;
    ReplaceFirstAtStart("@default(", y);
    var i := IndexOf(y, ")");
    if i >= 0 {
      assert y[i] == y[i..i + 1][0] == ')';
      assert y[0] == '\'';
      assert ReplaceFirst(y, ")", "")[0] == y[0];
    }
  }

  /** A single-quoted default is re-emitted between double quotes. */
  lemma ConvertRelationQuotedDefault(x: string, ty: Option<string>, snake: Option<string>)
    requires !Contains(x, "')")
    requires !(Truthy(ty) && Contains(ty.value, "Boolean"))
    requires var rel := "@default('" + x + "')";
      !Contains(rel, "autoincrement()") && !Contains(rel, "@default(now())")
    ensures ConvertRelation(Some("@default('" + x + "')"), ty, snake) == ".default(\"" + x + "\"),"
  {
    QuotedCall(x);
  }

  /** The tests `convertRelation` makes on `@default('x')`, and its stripped argument. */
  lemma QuotedCall(x: string)
    requires !Contains(x, "')")
    ensures var rel := "@default('" + x + "')";
      && Contains(rel, "@default")
      && Contains(rel, "@default('")
      && StripCall(rel, "@default('", "')") == x
  {
    var rel := "@default('" + x + "')";
    assert rel == "@default('" + (x + "')");
    OccursPrefix(rel, "@default('", x + "')", 0);
    assert rel == "@default" + ("('" + x + "')");
    OccursPrefix(rel, "@default", "('" + x + "')", 0);
    QuotedStrip(x);
  }

  lemma QuotedStrip(x: string)
    requires !Contains(x, "')")
    ensures StripCall("@default('" + x + "')", "@default('", "')") == x
  {
    var open := "@default('";
    assert open + x + "')" == open + (x + "')");
    ReplaceFirstAtStart(open, x + "')");
    UnborderedPair('\'', ')');
    assert "')" == ['\'', ')'];
    ReplaceFirstAfterFree(x, "')", "");
    assert x + "')" + "" == x + "')" && x + "" == x;
  }

  /**
   * Any other default argument without a `)` is passed through unquoted. The
   * only test it must escape is the one for a single-quoted default.
   */
  lemma ConvertRelationBareDefault(x: string, ty: Option<string>, snake: Option<string>)
    requires ')' !in x
    requires !(Truthy(ty) && Contains(ty.value, "Boolean"))
    requires var rel := "@default(" + x + ")";
      !Contains(rel, "@default('") && !Contains(rel, "autoincrement()") && !Contains(rel, "@default(now())")
    ensures ConvertRelation(Some("@default(" + x + ")"), ty, snake) == ".default(" + x + "),"
  {
    DefaultCallContains(x);
    DefaultCallStrip(x);
  }

  /**
   * A default argument that holds a `)` loses its first `)`, not the one
   * that closes `@default(`: `@default(a)b)` gives `.default(ab)),`.
   */
  lemma ConvertRelationCallDefault(a: string, b: string, ty: Option<string>, snake: Option<string>)
    requires ')' !in a
    requires !(Truthy(ty) && Contains(ty.value, "Boolean"))
    requires var rel := "@default(" + a + ")" + b + ")";
      !Contains(rel, "@default('") && !Contains(rel, "autoincrement()") && !Contains(rel, "@default(now())")
    ensures ConvertRelation(Some("@default(" + a + ")" + b + ")"), ty, snake) == ".default(" + a + b + ")),"
  {
    var x := a + ")" + b;
    assert "@default(" + x + ")" == "@default(" + a + ")" + b + ")";
    DefaultCallContains(x);
    DefaultCallStripParen(a, b);
    assert ".default(" + (a + b + ")") + ")," == ".default(" + a + b + ")),";
  }

  lemma DefaultCallStripParen(a: string, b: string)
    requires ')' !in a
    ensures StripCall("@default(" + a + ")" + b + ")", "@default(", ")") == a + b + ")"
  {
    var open := "@default(";
    var rest := a + ")" + (b + ")");
    assert open + a + ")" + b + ")" == open + rest;
    ReplaceFirstAtStart(open, rest);
    MissingCharNotContained(a, ")", ')');
    UnborderedChar(')');
    ReplaceFirstAfterFree(a, ")", b + ")");
    assert a + (b + ")") == a + b + ")";
  }

  /**
   * A relation that mentions `references` and has no `@default`, on a field
   * with a type, points the column at the referenced column, rendered
   * `undefined` when there is no `references: [`; the call is left open.
   */
  lemma ConvertRelationReferencesBranch(rel: string, ty: string, snake: Option<string>)
    requires Contains(rel, "references") && !Contains(rel, "@default") && ty != ""
    ensures ConvertRelation(Some(rel), Some(ty), snake)
      == ".references(()=> " + Render(snake) + "." + Render(ReferencedColumn(Some(rel))) + ","
  {
    if Contains(rel, "@default(now())") {
      var i := IndexOf(rel, "@default(now())");
      assert "@default(now())" == "@default" + "(now())";
      OccursPrefix(rel, "@default", "(now())", i);
      assert false;
    }
  }

  /**
   * A piece ` references: [c`, cut at the comma inside `references: [c, d]`,
   * names the column after `c`.
   */
  lemma ConvertTypeUnclosedReference(t: string, snake: Option<string>, lead: string, col: string)
    requires t != "" && !Contains(t, "Int") && !Contains(t, "String") && !Contains(t, "Boolean") && !Contains(t, "DateTime")
    requires !Contains(lead, ReferencesKey) && '[' !in col && ']' !in col
    ensures ConvertType(Some(t), snake, Some(lead + ReferencesKey + col))
      == Some("text('" + ReplaceFirst(ToLower(t), "?", "") + "_" + col + "')")
  {
    NoIntNoOptionalInt(t);
    ReferencedColumnUnclosed(lead, col);
  }

  /** The same piece points the reference at `c`. */
  lemma ConvertRelationUnclosedReference(ty: string, snake: Option<string>, lead: string, col: string)
    requires ty != ""
    requires !Contains(lead, ReferencesKey) && '[' !in col && ']' !in col
    requires !Contains(lead + ReferencesKey + col, "@default")
    ensures ConvertRelation(Some(lead + ReferencesKey + col), Some(ty), snake)
      == ".references(()=> " + Render(snake) + "." + col + ","
  {
    var rel := lead + ReferencesKey + col;
    ReferencedColumnUnclosed(lead, col);
    MentionsReferencesUnclosed(lead, col);
    ConvertRelationReferencesBranch(rel, ty, snake);
  }

  lemma MentionsReferencesUnclosed(lead: string, col: string)
    ensures Contains(lead + ReferencesKey + col, "references")
  {
    assert lead + "references" + (": [" + col) == lead + ReferencesKey + col;
    ContainsMiddle(lead, "references", ": [" + col);
  }

  /** Without a `references: [` clause the reference points at `undefined`. */
  lemma ConvertRelationReferencesUnresolved(rel: string, ty: string, snake: Option<string>)
    requires Contains(rel, "references") && !Contains(rel, ReferencesKey) && !Contains(rel, "@default") && ty != ""
    ensures ConvertRelation(Some(rel), Some(ty), snake) == ".references(()=> " + Render(snake) + ".undefined,"
  {
    ConvertRelationReferencesBranch(rel, ty, snake);
    ReferencedColumnAbsent(rel);
    var head := ".references(()=> " + Render(snake) + ".";
    assert head + "undefined" + "," == ".references(()=> " + Render(snake) + ".undefined,";
  }

  /**
   * A relation `lead + "references: [" + col + "]" + tail` without
   * `@default`, on a field with a type, points the column at `col + tail`.
   */
  lemma ConvertRelationReferences(ty: string, snake: Option<string>, lead: string, col: string, tail: string)
    requires ty != ""
    requires !Contains(lead, ReferencesKey)
    requires ']' !in col && !Contains(col + "]" + tail, ReferencesKey)
    requires !Contains(lead + ReferencesKey + col + "]" + tail, "@default")
    ensures ConvertRelation(Some(lead + ReferencesKey + col + "]" + tail), Some(ty), snake)
      == ".references(()=> " + Render(snake) + "." + col + tail + ","
  {
    var rel := lead + ReferencesKey + col + "]" + tail;
    ReferencedColumnOf(lead, col, tail);
    MentionsReferences(lead, col, tail);
    ConvertRelationReferencesBranch(rel, ty, snake);
    var head := ".references(()=> " + Render(snake) + ".";
    assert head + (col + tail) + "," == head + col + tail + ",";
  }

  lemma MentionsReferences(lead: string, col: string, tail: string)
    ensures Contains(lead + ReferencesKey + col + "]" + tail, "references")
  {
    var rest := ": [" + col + "]" + tail;
    assert lead + "references" + rest == lead + ReferencesKey + col + "]" + tail;
    ContainsMiddle(lead, "references", rest);
  }

  /** A relation without `@` has no `@default`. */
  lemma NoDefaultInReference(lead: string, col: string, tail: string)
    requires '@' !in lead + col + tail
    ensures !Contains(lead + ReferencesKey + col + "]" + tail, "@default")
  {
    NoAtInReference(lead, col, tail);
    MissingCharNotContained(lead + ReferencesKey + col + "]" + tail, "@default", '@');
  }

  lemma NoAtInReference(lead: string, col: string, tail: string)
    requires '@' !in lead + col + tail
    ensures '@' !in lead + ReferencesKey + col + "]" + tail
  {
    assert '@' !in lead && '@' !in col && '@' !in tail by {
      assert forall c :: c in lead || c in col || c in tail ==> c in lead + col + tail;
    }
    assert '@' !in ReferencesKey;
  }

  lemma ContainsMiddle(a: string, b: string, c: string)
    ensures Contains(a + b + c, b)
  {
    var s := a + b + c;
    assert s[|a|..|a| + |b|] == b;
    assert OccursAt(s, b, |a|);
  }

  /**
   * The empty modifier is given exactly to fields whose relation has no
   * `@default` and either no `references` or no type.
   */
  lemma ConvertRelationEmptyIff(relation: Option<string>, ty: Option<string>, snake: Option<string>)
    ensures ConvertRelation(relation, ty, snake) == "" <==>
      Truthy(relation) && !Contains(relation.value, "@default")
      && !(Contains(relation.value, "references") && Truthy(ty))
  {
    if Truthy(relation) && !Contains(relation.value, "@default(now())") && Contains(relation.value, "@default") {
    } else if Truthy(relation) && Contains(relation.value, "@default(now())") {
      var rel := relation.value;
      var i := IndexOf(rel, "@default(now())");
      assert "@default(now())" == "@default" + "(now())";
      OccursPrefix(rel, "@default", "(now())", i);
    }
  }

  // ---------------------------------------------------------------------
  // The emitted text stays on one line

  /** An absent value, or a present one without a line feed. */
  predicate OneLine(o: Option<string>) {
    o.None? || '\n' !in o.value
  }

  lemma RenderOneLine(o: Option<string>)
    requires OneLine(o)
    ensures '\n' !in Render(o)
  {
  }

  /** The referenced column is cut out of the relation, so it has no line feed the relation lacks. */
  lemma ReferencedColumnOneLine(relation: Option<string>)
    requires OneLine(relation)
    ensures OneLine(ReferencedColumn(relation))
  {
    if relation.Some? {
      var pieces := Split(relation.value, ReferencesKey);
      SplitLacks(relation.value, ReferencesKey, '\n');
      if |pieces| >= 2 {
        ReplaceFirstLacks(pieces[1], "]", "", '\n');
      }
    }
  }

  /** `convertType` writes no line feed that its inputs lack. */
  lemma ConvertTypeOneLine(ty: Option<string>, snake: Option<string>, relation: Option<string>)
    requires OneLine(ty) && OneLine(snake) && OneLine(relation)
    ensures OneLine(ConvertType(ty, snake, relation))
  {
    ConvertTypeByKeywords(ty, snake, relation);
    if Truthy(ty) {
      ColumnTextOneLine(FirstKeyword(TypeKeywords, ty.value), ty.value, snake, relation);
    }
  }

  lemma ColumnTextOneLine(kind: ColumnKind, t: string, snake: Option<string>, relation: Option<string>)
    requires '\n' !in t && OneLine(snake) && OneLine(relation)
    ensures '\n' !in ColumnText(kind, t, snake, relation)
  {
    RenderOneLine(snake);
    match kind
    case Timestamp =>
      ConstantsOneLine();
    case ModelReference =>
      ToLowerLacks(t, '\n');
      ReplaceFirstLacks(ToLower(t), "?", "", '\n');
      ReferencedColumnOneLine(relation);
      RenderOneLine(ReferencedColumn(relation));
    case _ =>
  }

  /** `convertRelation` writes no line feed that its inputs lack. */
  lemma ConvertRelationOneLine(relation: Option<string>, ty: Option<string>, snake: Option<string>)
    requires OneLine(relation) && OneLine(snake)
    ensures '\n' !in ConvertRelation(relation, ty, snake)
  {
    if Truthy(relation) {
      var rel := relation.value;
      StripCallLacks(rel, "@default('", "')");
      StripCallLacks(rel, "@default(", ")");
      ConstantsOneLine();
      RenderOneLine(snake);
      ReferencedColumnOneLine(relation);
      RenderOneLine(ReferencedColumn(relation));
    }
  }

  lemma ConstantsOneLine()
    ensures '\n' !in NowDefault && '\n' !in TimestampColumn
  {
    assert forall i :: 0 <= i < |NowDefault| ==> NowDefault[i] != '\n';
    assert forall i :: 0 <= i < |TimestampColumn| ==> TimestampColumn[i] != '\n';
  }

  lemma StripCallLacks(rel: string, open: string, close: string)
    requires '\n' !in rel
    ensures '\n' !in StripCall(rel, open, close)
  {
    ReplaceFirstLacks(rel, open, "", '\n');
    ReplaceFirstLacks(ReplaceFirst(rel, open, ""), close, "", '\n');
  }
}
