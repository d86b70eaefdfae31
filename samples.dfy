/**
 * Lines of the sample schema at the top of src/index.ts, taken through the
 * field pipeline.
 */
module Samples {
  import opened JsStrings
  import opened Fields
  import opened Emitters
  import opened Driver

  /** Snake-casing a capitalised word without further capitals. */
  lemma SnakeCapitalised(u: char, rest: string, w: string)
    requires IsUpper(u) && NoUpper(rest) && w == [u] + rest
    ensures Snake(w) == ['_', LowerChar(u)] + rest
  {
    assert w[1..] == rest;
    SnakeIdentity(rest);
  }

  lemma SnakeOfThree(a: string, b: string, c: string, s: string)
    requires s == a + b + c
    ensures Snake(s) == Snake(a) + Snake(b) + Snake(c)
  {
    SnakeAppend(a + b, c);
    SnakeAppend(a, b);
  }

  lemma SnakeOrgBrandColor(s: string)
    requires s == "org" + "Brand" + "Color"
    ensures Snake(s) == "org" + "_brand" + "_color"
  {
    SnakeOfThree("org", "Brand", "Color", s);
    SnakeIdentity("org");
    SnakeBrand();
    SnakeColor();
  }

  lemma SnakeBrand()
    ensures Snake("Brand") == "_brand"
  {
    SnakeCapitalised('B', "rand", "Brand");
  }

  lemma SnakeColor()
    ensures Snake("Color") == "_color"
  {
    SnakeCapitalised('C', "olor", "Color");
  }

  /** `String` and `String?` name a text column. */
  lemma StringType(ty: string, snake: Option<string>, relation: Option<string>)
    requires ty == "String" + "?" || ty == "String"
    ensures ConvertType(Some(ty), snake, relation) == Some("text(\"" + Render(snake) + "\")")
  {
    MissingCharNotContained(ty, "Int?", 'I');
    MissingCharNotContained(ty, "Int", 'I');
    if ty == "String" {
      ContainsMiddle("", "String", "");
      assert "" + "String" + "" == ty;
    } else {
      ContainsMiddle("", "String", "?");
      assert "" + "String" + "?" == ty;
    }
  }

  /** Two words on a line indented by tabs. */
  lemma TwoWords(lead: string, name: string, gap: string, ty: string, line: string)
    requires AllWhitespace(lead) && Word(name) && Gap(gap) && Word(ty)
    requires line == lead + name + gap + ty
    ensures WellSpaced([name, ty], [gap]) && line == lead + Spaced([name, ty], [gap]) + ""
  {
    assert Spaced([name, ty], [gap]) == name + gap + Spaced([ty], []);
  }

  /**
   * `orgBrandColor String?` from the `Organization` model becomes
   * `orgBrandColor: text("org_brand_color"),`: a nullable string column
   * under the snake-cased name, keyed by the name as written, and a bare
   * comma since the line has no annotation.
   */
  lemma OrgBrandColorField(line: string, name: string, ty: string)
    requires name == "org" + "Brand" + "Color" && ty == "String" + "?"
    requires line == "\t\t" + name + "         " + ty
    ensures ConvertField(line) == name + ": " + ("text(\"" + ("org" + "_brand" + "_color") + "\")") + ","
  {
    var lead, gap := "\t\t", "         ";
    SampleWords(lead, name, gap, ty);
    TwoWords(lead, name, gap, ty, line);
    MissingCharNotContained(line, RelationMarker, '@');
    PlainField(lead, name, gap, ty, line);
    SnakeOrgBrandColor(name);
    StringType(ty, Some(Snake(name)), None);
  }

  /** A line of a name and a type alone gets the column of the type and a bare comma. */
  lemma PlainField(lead: string, name: string, gap: string, ty: string, line: string)
    requires WellSpaced([name, ty], [gap]) && AllWhitespace(lead)
    requires line == lead + Spaced([name, ty], [gap]) + "" && !Contains(line, RelationMarker)
    ensures ConvertField(line) == name + ": " + Render(ConvertType(Some(ty), Some(Snake(name)), None)) + ","
  {
    WordsFieldConverted(lead, [name, ty], [gap], "");
  }

  lemma SampleWords(lead: string, name: string, gap: string, ty: string)
    requires lead == "\t\t" && name == "org" + "Brand" + "Color" && gap == "         " && ty == "String" + "?"
    ensures AllWhitespace(lead) && Word(name) && Gap(gap) && Word(ty)
    ensures '@' !in lead + name + gap + ty
  {
  }

  /**
   * `orgCountry Country? @relation(fields: [countryCode], references: [code])`
   * from the `Organization` model: only the first `]` of the referenced
   * column is removed, so the `)` that closes the annotation is carried into
   * both the column name and the reference, and the reference call is left
   * open.
   */
  lemma OrgCountryField(lead: string, g: string, g2: string, line: string)
    requires AllWhitespace(lead) && Gap(g) && AllWhitespace(g2)
    requires line == lead + ("org" + "Country") + g + ("Country" + "?") + g2 + RelationMarker
      + "(fields: [countryCode]" + ", references: [" + "code" + "]" + ")" + ""
    ensures ConvertField(line)
      == ("org" + "Country") + ": " + ("text('" + "country" + "_" + "code" + ")" + "')")
         + (".references(()=> " + ("org" + "_country") + "." + "code" + ")" + ",")
  {
    var name, ty := "org" + "Country", "Country" + "?";
    CountryWords(name, ty);
    ReferencePieces("(fields: [countryCode]", "code", ")");
    ReferenceFieldLine(lead, name, g, ty, g2, "(fields: [countryCode]", "code", ")", "");
    SnakeOrgCountry(name);
    LowerCountry(ty);
  }

  lemma CountryWords(name: string, ty: string)
    requires name == "org" + "Country" && ty == "Country" + "?"
    ensures Word(name) && Word(ty) && '@' !in name && '@' !in ty
    ensures !Contains(ty, "Int") && !Contains(ty, "String") && !Contains(ty, "Boolean") && !Contains(ty, "DateTime")
  {
    WordsOf(name, ty);
    NoKeywordLetters(ty);
  }

  lemma WordsOf(name: string, ty: string)
    requires name == "org" + "Country" && ty == "Country" + "?"
    ensures Word(name) && Word(ty) && '@' !in name && '@' !in ty
  {
  }

  /** A type without the capitals that start the keywords contains none of them. */
  lemma NoKeywordLetters(ty: string)
    requires 'I' !in ty && 'S' !in ty && 'B' !in ty && 'D' !in ty
    ensures !Contains(ty, "Int") && !Contains(ty, "String") && !Contains(ty, "Boolean") && !Contains(ty, "DateTime")
  {
    MissingCharNotContained(ty, "Int", 'I');
    MissingCharNotContained(ty, "String", 'S');
    MissingCharNotContained(ty, "Boolean", 'B');
    MissingCharNotContained(ty, "DateTime", 'D');
  }

  /** The conditions on the pieces of a `references: [...]` annotation. */
  lemma ReferencePieces(f: string, col: string, tail: string)
    requires f == "(fields: [countryCode]" || f == "(fields: [userId]"
    requires col == "code" || col == "id"
    requires tail == ")" || tail == ""
    ensures ',' !in f && ',' !in col + tail
    ensures '[' !in col && ']' !in col && '[' !in tail && '@' !in col + tail
  {
  }

  lemma SnakeOrgCountry(s: string)
    requires s == "org" + "Country"
    ensures Snake(s) == "org" + "_country"
  {
    SnakeAppend("org", "Country");
    SnakeIdentity("org");
    SnakeCountry();
  }

  lemma SnakeCountry()
    ensures Snake("Country") == "_country"
  {
    SnakeCapitalised('C', "ountry", "Country");
  }

  lemma LowerCountry(ty: string)
    requires ty == "Country" + "?"
    ensures ReplaceFirst(ToLower(ty), "?", "") == "country"
  {
    assert ToLower(ty) == "country" + "?";
    UnborderedChar('?');
    MissingCharNotContained("country", "?", '?');
    ReplaceFirstAfterFree("country", "?", "");
    assert "country" + "?" + "" == "country" + "?";
    assert "country" + "" == "country";
  }

  // Lines of three words

  lemma ThreeWords(lead: string, name: string, g: string, ty: string, g2: string, ann: string, line: string)
    requires Word(name) && Gap(g) && Word(ty) && Gap(g2) && Word(ann)
    requires line == lead + name + g + ty + g2 + ann
    ensures WellSpaced([name, ty, ann], [g, g2])
    ensures line == lead + Spaced([name, ty, ann], [g, g2]) + ""
  {
    assert Spaced([name, ty, ann], [g, g2]) == name + g + Spaced([ty, ann], [g2]);
    assert Spaced([ty, ann], [g2]) == ty + g2 + Spaced([ann], []);
  }

  /** A letter none of the words has is not on the line. */
  lemma LineLacks(lead: string, toks: seq<string>, gaps: seq<string>, line: string, c: char)
    requires AllWhitespace(lead) && WellSpaced(toks, gaps) && line == lead + Spaced(toks, gaps) + ""
    requires !IsSep(c) && !IsWhitespace(c) && forall k :: 0 <= k < |toks| ==> c !in toks[k]
    ensures c !in line
  {
    SpacedLacks(toks, gaps, c);
    assert c !in lead by {
      forall i | 0 <= i < |lead|
        ensures lead[i] != c
      {
        assert IsWhitespace(lead[i]);
      }
    }
  }

  /** A line of a name, a type and one annotation. */
  lemma AnnotatedField(lead: string, name: string, g: string, ty: string, g2: string, ann: string, line: string)
    requires AllWhitespace(lead) && WellSpaced([name, ty, ann], [g, g2])
    requires line == lead + Spaced([name, ty, ann], [g, g2]) + "" && !Contains(line, RelationMarker)
    ensures ConvertField(line) == name + ": " + Render(ConvertType(Some(ty), Some(Snake(name)), Some(ann)))
      + ConvertRelation(Some(ann), Some(ty), Some(Snake(name)))
  {
    WordsFieldConverted(lead, [name, ty, ann], [g, g2], "");
  }

  /**
   * `sessionToken String @unique` from the `Session` model: an annotation
   * that no rule of `convertRelation` knows gives the empty modifier, so the
   * entry has no trailing comma.
   */
  lemma SessionTokenField(lead: string, g: string, g2: string, line: string)
    requires AllWhitespace(lead) && Gap(g) && Gap(g2)
    requires line == lead + ("session" + "Token") + g + "String" + g2 + "@unique"
    ensures ConvertField(line) == ("session" + "Token") + ": " + ("text(\"" + ("session" + "_token") + "\")") + ""
  {
    var name, ty, ann := "session" + "Token", "String", "@unique";
    SessionTokenWords(name, ty, ann);
    ThreeWords(lead, name, g, ty, g2, ann, line);
    LineLacks(lead, [name, ty, ann], [g, g2], line, 'l');
    MissingCharNotContained(line, RelationMarker, 'l');
    AnnotatedField(lead, name, g, ty, g2, ann, line);
    SnakeSessionToken(name);
    StringType(ty, Some(Snake(name)), Some(ann));
    UniqueModifier(ann, Some(ty), Some(Snake(name)));
  }

  lemma SessionTokenWords(name: string, ty: string, ann: string)
    requires name == "session" + "Token" && ty == "String" && ann == "@unique"
    ensures Word(name) && Word(ty) && Word(ann)
    ensures 'l' !in name && 'l' !in ty && 'l' !in ann
  {
  }

  lemma SnakeSessionToken(s: string)
    requires s == "session" + "Token"
    ensures Snake(s) == "session" + "_token"
  {
    SnakeAppend("session", "Token");
    SnakeIdentity("session");
    SnakeToken();
  }

  lemma SnakeToken()
    ensures Snake("Token") == "_token"
  {
    SnakeCapitalised('T', "oken", "Token");
  }

  /** `@unique` matches no rule of `convertRelation`. */
  lemma UniqueModifier(ann: string, ty: Option<string>, snake: Option<string>)
    requires ann == "@unique"
    ensures ConvertRelation(Some(ann), ty, snake) == ""
  {
    MissingCharNotContained(ann, "@default", 'd');
    MissingCharNotContained(ann, "references", 'r');
    ConvertRelationEmptyIff(Some(ann), ty, snake);
  }

  /**
   * `storeMode Boolean @default(false)` from the `Organization` model: a
   * Boolean column is an integer one and its `false` default is written `0`.
   */
  lemma StoreModeField(lead: string, g: string, g2: string, line: string)
    requires AllWhitespace(lead) && Gap(g) && Gap(g2)
    requires line == lead + ("store" + "Mode") + g + "Boolean" + g2 + ("@default(" + "false" + ")")
    ensures ConvertField(line) == ("store" + "Mode") + ": " + ("integer(\"" + ("store" + "_mode") + "\")") + ".default(0),"
  {
    var name, ty, ann := "store" + "Mode", "Boolean", "@default(" + "false" + ")";
    StoreModeWords(name, ty, ann);
    ThreeWords(lead, name, g, ty, g2, ann, line);
    LineLacks(lead, [name, ty, ann], [g, g2], line, 'i');
    MissingCharNotContained(line, RelationMarker, 'i');
    AnnotatedField(lead, name, g, ty, g2, ann, line);
    SnakeStoreMode(name);
    BooleanType(ty, Some(Snake(name)), Some(ann));
    FalseDefault(ann, ty, Some(Snake(name)));
  }

  lemma FalseDefault(ann: string, ty: string, snake: Option<string>)
    requires ann == "@default(" + "false" + ")" && ty == "Boolean"
    ensures ConvertRelation(Some(ann), Some(ty), snake) == ".default(0),"
  {
    ContainsMiddle("", "Boolean", "");
    assert "" + "Boolean" + "" == ty;
    ConvertRelationBooleanLiterals("false", ty, snake);
  }

  lemma StoreModeWords(name: string, ty: string, ann: string)
    requires name == "store" + "Mode" && ty == "Boolean" && ann == "@default(" + "false" + ")"
    ensures Word(name) && Word(ty) && Word(ann)
    ensures 'i' !in name && 'i' !in ty && 'i' !in ann
  {
  }

  lemma SnakeStoreMode(s: string)
    requires s == "store" + "Mode"
    ensures Snake(s) == "store" + "_mode"
  {
    SnakeAppend("store", "Mode");
    SnakeIdentity("store");
    SnakeMode();
  }

  lemma SnakeMode()
    ensures Snake("Mode") == "_mode"
  {
    SnakeCapitalised('M', "ode", "Mode");
  }

  /** `Boolean` names an integer column. */
  lemma BooleanType(ty: string, snake: Option<string>, relation: Option<string>)
    requires ty == "Boolean"
    ensures ConvertType(Some(ty), snake, relation) == Some("integer(\"" + Render(snake) + "\")")
  {
    MissingCharNotContained(ty, "Int?", 'I');
    MissingCharNotContained(ty, "Int", 'I');
    MissingCharNotContained(ty, "String", 'S');
    ContainsMiddle("", "Boolean", "");
    assert "" + "Boolean" + "" == ty;
  }

  /**
   * `user User @relation(fields: [userId], references: [id], onDelete: Cascade)`
   * from the `Session` model: the column is named after the lower-cased
   * model and the referenced column, and the reference call is left open.
   */
  lemma SessionUserField(lead: string, g: string, g2: string, line: string)
    requires AllWhitespace(lead) && Gap(g) && AllWhitespace(g2)
    requires line == lead + "user" + g + "User" + g2 + RelationMarker
      + "(fields: [userId]" + ", references: [" + "id" + "]" + "" + ", onDelete: Cascade)"
    ensures ConvertField(line)
      == "user" + ": " + ("text('" + "user" + "_" + "id" + "" + "')")
         + (".references(()=> " + "user" + "." + "id" + "" + ",")
  {
    var name, ty := "user", "User";
    UserWords(name, ty);
    NoKeywordLetters(ty);
    ReferencePieces("(fields: [userId]", "id", "");
    ReferenceFieldLine(lead, name, g, ty, g2, "(fields: [userId]", "id", "", ", onDelete: Cascade)");
    SnakeIdentity(name);
    LowerUser(ty);
  }

  lemma UserWords(name: string, ty: string)
    requires name == "user" && ty == "User"
    ensures Word(name) && Word(ty) && '@' !in name && '@' !in ty && NoUpper(name)
    ensures 'I' !in ty && 'S' !in ty && 'B' !in ty && 'D' !in ty
  {
  }

  lemma LowerUser(ty: string)
    requires ty == "User"
    ensures ReplaceFirst(ToLower(ty), "?", "") == "user"
  {
    assert ToLower(ty) == "user";
    MissingCharNotContained("user", "?", '?');
  }

  /**
   * The block that opens with `model Session {` is declared as the table
   * `session`, whatever lines follow.
   */
  lemma SessionHeader(first: string, more: seq<string>)
    requires first == "" + "model" + " Session " + "{" + ""
    ensures ModelName([first] + more) == Some("session")
  {
    var name := " Session ";
    SessionName(name);
    EmptyLacksModel();
    ModelNameOfHeader("", name, "", more);
    TrimSession(name);
    LowerSession();
  }

  lemma EmptyLacksModel()
    ensures !Contains("", "model")
  {
  }

  lemma SessionName(name: string)
    requires name == " Session "
    ensures '{' !in name && forall i :: 0 <= i < |name| ==> !IsLineTerminator(name[i])
  {
  }

  lemma TrimSession(name: string)
    requires name == " Session "
    ensures Trim(name) == "Session"
  {
    assert AllWhitespace(" ") && Trimmed("Session");
    TrimSurrounded(" ", "Session", " ");
    assert " " + "Session" + " " == name;
  }

  lemma LowerSession()
    ensures ToLower("Session") == "session"
  {
  }

  // ---------------------------------------------------------------------
  // Defaults whose argument holds `@` or `)`

  /**
   * `priceDelimiter String? @default("@")` from the `Organization` model:
   * the `@` inside the argument does not disturb the default, which is
   * passed through with its double quotes.
   */
  lemma PriceDelimiterField(lead: string, g: string, g2: string, line: string)
    requires AllWhitespace(lead) && Gap(g) && Gap(g2)
    requires line == lead + ("price" + "Delimiter") + g + ("String" + "?") + g2 + ("@default(" + "\"@\"" + ")")
    ensures ConvertField(line)
      == ("price" + "Delimiter") + ": " + ("text(\"" + ("price" + "_delimiter") + "\")") + (".default(" + "\"@\"" + "),")
  {
    var name, ty, ann := "price" + "Delimiter", "String" + "?", "@default(" + "\"@\"" + ")";
    PriceDelimiterWords(name, ty, ann);
    ThreeWords(lead, name, g, ty, g2, ann, line);
    LineLacks(lead, [name, ty, ann], [g, g2], line, 'o');
    MissingCharNotContained(line, RelationMarker, 'o');
    AnnotatedField(lead, name, g, ty, g2, ann, line);
    SnakePriceDelimiter(name);
    StringType(ty, Some(Snake(name)), Some(ann));
    QuoteDefault(ann, ty, Some(Snake(name)));
  }

  lemma PriceDelimiterWords(name: string, ty: string, ann: string)
    requires name == "price" + "Delimiter" && ty == "String" + "?" && ann == "@default(" + "\"@\"" + ")"
    ensures Word(name) && Word(ty) && Word(ann)
    ensures 'o' !in name && 'o' !in ty && 'o' !in ann
  {
  }

  lemma SnakePriceDelimiter(s: string)
    requires s == "price" + "Delimiter"
    ensures Snake(s) == "price" + "_delimiter"
  {
    SnakeAppend("price", "Delimiter");
    SnakeIdentity("price");
    SnakeDelimiter();
  }

  lemma SnakeDelimiter()
    ensures Snake("Delimiter") == "_delimiter"
  {
    SnakeCapitalised('D', "elimiter", "Delimiter");
  }

  lemma QuoteDefault(ann: string, ty: string, snake: Option<string>)
    requires ann == "@default(" + "\"@\"" + ")" && ty == "String" + "?"
    ensures ConvertRelation(Some(ann), Some(ty), snake) == ".default(" + "\"@\"" + "),"
  {
    var x := "\"@\"";
    assert ')' !in x && 'o' !in ann && '\'' !in ann && 'B' !in ty;
    MissingCharNotContained(ann, "@default('", '\'');
    MissingCharNotContained(ann, "autoincrement()", 'o');
    MissingCharNotContained(ann, "@default(now())", 'o');
    MissingCharNotContained(ty, "Boolean", 'B');
    ConvertRelationBareDefault(x, Some(ty), snake);
  }

  /** Four words on a line. */
  lemma FourWords(lead: string, name: string, g: string, ty: string, g2: string, a: string, g3: string, b: string,
                  line: string)
    requires Word(name) && Gap(g) && Word(ty) && Gap(g2) && Word(a) && Gap(g3) && Word(b)
    requires line == lead + name + g + ty + g2 + a + g3 + b
    ensures WellSpaced([name, ty, a, b], [g, g2, g3])
    ensures line == lead + Spaced([name, ty, a, b], [g, g2, g3]) + ""
  {
    assert Spaced([name, ty, a, b], [g, g2, g3]) == name + g + Spaced([ty, a, b], [g2, g3]);
    assert Spaced([ty, a, b], [g2, g3]) == ty + g2 + Spaced([a, b], [g3]);
    assert Spaced([a, b], [g3]) == a + g3 + Spaced([b], []);
  }

  /**
   * `id String @id @default(cuid())` from the `Session` model: the fourth
   * word is the relation, and the `replace(')', '')` of the default removes
   * the `)` of `cuid()`, so the closing parenthesis of `@default(` survives.
   */
  lemma SessionIdField(lead: string, g: string, g2: string, g3: string, line: string)
    requires AllWhitespace(lead) && Gap(g) && Gap(g2) && Gap(g3)
    requires line == lead + "id" + g + "String" + g2 + "@id" + g3 + ("@default(" + "cuid(" + ")" + ")")
    ensures ConvertField(line) == "id" + ": " + ("text(\"" + "id" + "\")") + (".default(" + "cuid(" + "" + ")),")
  {
    var name, ty, a, b := "id", "String", "@id", "@default(" + "cuid(" + ")" + ")";
    SessionIdWords(name, ty, a, b);
    FourWords(lead, name, g, ty, g2, a, g3, b, line);
    LineLacks(lead, [name, ty, a, b], [g, g2, g3], line, 'o');
    MissingCharNotContained(line, RelationMarker, 'o');
    WordsFieldConverted(lead, [name, ty, a, b], [g, g2, g3], "");
    SnakeIdentity(name);
    StringType(ty, Some(name), Some(b));
    CuidDefault(b, ty, Some(name));
  }

  lemma SessionIdWords(name: string, ty: string, a: string, b: string)
    requires name == "id" && ty == "String" && a == "@id" && b == "@default(" + "cuid(" + ")" + ")"
    ensures Word(name) && Word(ty) && Word(a) && Word(b) && NoUpper(name)
    ensures 'o' !in name && 'o' !in ty && 'o' !in a && 'o' !in b
  {
  }

  lemma CuidDefault(b: string, ty: string, snake: Option<string>)
    requires b == "@default(" + "cuid(" + ")" + ")" && ty == "String"
    ensures ConvertRelation(Some(b), Some(ty), snake) == ".default(" + "cuid(" + "" + ")),"
  {
    assert 'o' !in b && '\'' !in b && 'B' !in ty;
    MissingCharNotContained(b, "@default('", '\'');
    MissingCharNotContained(b, "autoincrement()", 'o');
    MissingCharNotContained(b, "@default(now())", 'o');
    MissingCharNotContained(ty, "Boolean", 'B');
    assert b == "@default(" + "cuid(" + ")" + "" + ")";
    ConvertRelationCallDefault("cuid(", "", Some(ty), snake);
  }

  // ---------------------------------------------------------------------
  // The short sample lines as written
  //
  // The lemmas above state each line as a concatenation of its words and
  // gaps, with the words themselves split into short literals: the solver
  // compares string literals character by character, and its cost grows
  // quickly with their length, so each fact about a word is proved on its
  // own small piece. For the lines short enough to compare in one step, the
  // lemmas below restate the result on the line exactly as written.

  lemma OrgBrandColorLineText()
    ensures "\t\torgBrandColor         String?"
      == "\t\t" + ("org" + "Brand" + "Color") + "         " + ("String" + "?")
  {
  }

  lemma OrgBrandColorEntryText()
    ensures ("org" + "Brand" + "Color") + ": " + ("text(\"" + ("org" + "_brand" + "_color") + "\")") + ","
      == "orgBrandColor: text(\"org_brand_color\"),"
  {
  }

  /** Line 6 of src/index.ts, as written. */
  lemma OrgBrandColorLine()
    ensures ConvertField("\t\torgBrandColor         String?") == "orgBrandColor: text(\"org_brand_color\"),"
  {
    OrgBrandColorLineText();
    OrgBrandColorEntryText();
    OrgBrandColorField("\t\t" + ("org" + "Brand" + "Color") + "         " + ("String" + "?"),
                       "org" + "Brand" + "Color", "String" + "?");
  }

  /** Line 60 of src/index.ts: the first line of the `Session` block. */
  lemma SessionHeaderLine(more: seq<string>)
    ensures ModelName(["model Session {"] + more) == Some("session")
  {
    assert "model Session {" == "" + "model" + " Session " + "{" + "";
    SessionHeader("model Session {", more);
  }

  lemma SessionIdLineText()
    ensures "        id           String   @id @default(cuid())"
      == "        " + "id" + "           " + "String" + "   " + "@id" + " " + ("@default(" + "cuid(" + ")" + ")")
  {
  }

  lemma SessionIdEntryText()
    ensures "id" + ": " + ("text(\"" + "id" + "\")") + (".default(" + "cuid(" + "" + ")),")
      == "id: text(\"id\").default(cuid()),"
  {
  }

  /** Line 61 of src/index.ts, as written. */
  lemma SessionIdLine()
    ensures ConvertField("        id           String   @id @default(cuid())") == "id: text(\"id\").default(cuid()),"
  {
    SessionIdLineText();
    SessionIdEntryText();
    SessionIdField("        ", "           ", "   ", " ",
      "        " + "id" + "           " + "String" + "   " + "@id" + " " + ("@default(" + "cuid(" + ")" + ")"));
  }

  lemma SessionTokenLineText()
    ensures "        sessionToken String   @unique"
      == "        " + ("session" + "Token") + " " + "String" + "   " + "@unique"
  {
  }

  lemma SessionTokenEntryText()
    ensures ("session" + "Token") + ": " + ("text(\"" + ("session" + "_token") + "\")") + ""
      == "sessionToken: text(\"session_token\")"
  {
  }

  /** Line 62 of src/index.ts, as written. */
  lemma SessionTokenLine()
    ensures ConvertField("        sessionToken String   @unique") == "sessionToken: text(\"session_token\")"
  {
    SessionTokenLineText();
    SessionTokenEntryText();
    SessionTokenField("        ", " ", "   ", "        " + ("session" + "Token") + " " + "String" + "   " + "@unique");
  }
}
