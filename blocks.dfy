/**
 * The block driver of the converter: `convertPrismaToDrizzle` cuts every
 * Prisma `model` block into lines, drops the last one, reads the model name
 * off the first, turns every further line into one Drizzle column entry and
 * joins the header, the entries and a closing `}` into the text of one
 * `sqliteTable` declaration.
 */
module Blocks {
  import opened JsStrings
  import opened Driver

  /** `schemaFields` after `pop()`: every line of the block but the last. */
  function SchemaFields(schema: string): (r: seq<string>)
    ensures |r| + 1 == |SplitLines(schema)|
    ensures forall k :: 0 <= k < |r| ==> r[k] == SplitLines(schema)[k]
  {
    var lines := SplitLines(schema);
    lines[..|lines| - 1]
  }

  /** The line that opens the `sqliteTable` declaration of the model. */
  function Header(modelName: Option<string>): string {
    "export const " + Render(modelName) + " = sqliteTable(\"" + Render(modelName) + "\", {"
  }

  /** `f` applied to every line, in order. */
  function MapLines(f: string -> string, lines: seq<string>): (r: seq<string>)
    ensures |r| == |lines|
    ensures forall k :: 0 <= k < |r| ==> r[k] == f(lines[k])
  {
    if lines == [] then [] else MapLines(f, lines[..|lines| - 1]) + [f(lines[|lines| - 1])]
  }

  /** The field lines the loop has visited before index `i`: lines 1 to `i - 1`. */
  function Visited(fields: seq<string>, i: nat): seq<string> {
    if 1 <= i <= |fields| then fields[1..i] else []
  }

  /** One more turn of the loop appends the entry of line `i`. */
  lemma VisitStep(f: string -> string, header: string, fields: seq<string>, i: nat, before: seq<string>, field: string)
    requires 1 <= i < |fields|
    requires before == [header] + MapLines(f, Visited(fields, i)) && field == f(fields[i])
    ensures before + [field] == [header] + MapLines(f, Visited(fields, i + 1))
  {
    assert Visited(fields, i + 1)[..i - 1] == Visited(fields, i);
  }

  /**
   * The entries the driver joins for one block: the header, one column
   * entry for every line after the first (the last line having been popped),
   * and the closing `}`.
   */
  function EmittedLines(schema: string): seq<string> {
    var fields := SchemaFields(schema);
    [Header(ModelName(fields))] + MapLines(ConvertField, Visited(fields, |fields|)) + ["}"]
  }

  /** The last line of a block, its closing `}`, is dropped before the fields are read. */
  lemma SchemaFieldsOfLines(lines: seq<string>, last: string, eol: string)
    requires eol == "\n" || eol == "\r\n"
    requires forall k :: 0 <= k < |lines| ==> SingleLine(lines[k])
    requires SingleLine(last)
    ensures SchemaFields(Join(lines + [last], eol)) == lines
  {
    var all := lines + [last];
    assert forall k :: 0 <= k < |all| ==> SingleLine(all[k]);
    if eol == "\n" {
      SplitLinesOfLF(all);
    } else {
      SplitLinesOfCRLF(all);
    }
    assert all[..|lines|] == lines;
  }

  /**
   * A block has the header line, then exactly one entry for each field line
   * after the first, in order, then the closing `}`.
   */
  lemma EmittedLinesShape(schema: string)
    ensures var fields := SchemaFields(schema);
      var r := EmittedLines(schema);
      && |r| == (if fields == [] then 1 else |fields|) + 1
      && r[0] == Header(ModelName(fields))
      && (forall k :: 1 <= k < |fields| ==> r[k] == ConvertField(fields[k]))
      && r[|r| - 1] == "}"
  {
    var fields := SchemaFields(schema);
    BlockShape(ConvertField, Header(ModelName(fields)), fields, EmittedLines(schema));
  }

  lemma BlockShape(f: string -> string, header: string, fields: seq<string>, r: seq<string>)
    requires r == [header] + MapLines(f, Visited(fields, |fields|)) + ["}"]
    ensures |r| == (if fields == [] then 1 else |fields|) + 1
    ensures r[0] == header && r[|r| - 1] == "}"
    ensures forall k :: 1 <= k < |fields| ==> r[k] == f(fields[k])
  {
  }

  /**
   * A block whose first line is `lead + "model" + name + "{" + rest` and
   * whose last line is popped: the header names the model by `name`,
   * trimmed and lower-cased, and every line in between gives one entry.
   */
  lemma BlockOfModel(lead: string, name: string, rest: string, lines: seq<string>, last: string, eol: string)
    requires eol == "\n" || eol == "\r\n"
    requires SingleLine(lead + "model" + name + "{" + rest) && SingleLine(last)
    requires forall k :: 0 <= k < |lines| ==> SingleLine(lines[k])
    requires !Contains(lead, "model")
    requires '{' !in name && forall i :: 0 <= i < |name| ==> !IsLineTerminator(name[i])
    ensures EmittedLines(Join([lead + "model" + name + "{" + rest] + lines + [last], eol))
      == [Header(Some(ToLower(Trim(name))))] + MapLines(ConvertField, lines) + ["}"]
  {
    var first := lead + "model" + name + "{" + rest;
    var fields := [first] + lines;
    assert forall k :: 0 <= k < |fields| ==> SingleLine(fields[k]);
    SchemaFieldsOfLines(fields, last, eol);
    ModelNameOfHeader(lead, name, rest, lines);
    BlockOfFields(Join(fields + [last], eol), first, lines);
  }

  lemma BlockOfFields(schema: string, first: string, lines: seq<string>)
    requires SchemaFields(schema) == [first] + lines
    ensures EmittedLines(schema) == [Header(ModelName([first] + lines))] + MapLines(ConvertField, lines) + ["}"]
  {
    assert Visited([first] + lines, |lines| + 1) == lines;
  }

  /**
   * A schema without a line feed is one line, which the pop removes: the
   * model name is `undefined` and the block is the header and `}` alone.
   */
  lemma SingleLineSchema(schema: string)
    requires '\n' !in schema
    ensures SchemaFields(schema) == [] && ModelName(SchemaFields(schema)) == None
    ensures EmittedLines(schema) == [Header(None), "}"]
  {
    SplitSingleLine(schema);
  }

  /** The header line has no line feed. */
  lemma HeaderOneLine(fields: seq<string>)
    ensures '\n' !in Header(ModelName(fields))
  {
    if fields != [] {
      var m := NameMatch(fields[0]);
      if m.Some? {
        assert '\n' !in m.value by {
          forall i | 0 <= i < |m.value|
            ensures m.value[i] != '\n'
          {
            assert !IsLineTerminator(m.value[i]);
          }
        }
        TrimLacks(m.value, '\n');
        ToLowerLacks(Trim(m.value), '\n');
      }
    }
  }

  /** Each entry of field lines without a line feed has none either. */
  lemma EntriesOneLine(lines: seq<string>)
    requires forall k :: 0 <= k < |lines| ==> '\n' !in lines[k]
    ensures forall k :: 0 <= k < |lines| ==> '\n' !in MapLines(ConvertField, lines)[k]
  {
    forall k | 0 <= k < |lines|
      ensures '\n' !in MapLines(ConvertField, lines)[k]
    {
      ConvertFieldOneLine(lines[k]);
    }
  }

  /** No entry of a block holds a line feed. */
  lemma EmittedOneLine(schema: string)
    ensures forall k :: 0 <= k < |EmittedLines(schema)| ==> '\n' !in EmittedLines(schema)[k]
  {
    var fields := SchemaFields(schema);
    var visited := Visited(fields, |fields|);
    VisitedOneLine(fields);
    EntriesOneLine(visited);
    HeaderOneLine(fields);
    Framed(Header(ModelName(fields)), MapLines(ConvertField, visited), EmittedLines(schema));
  }

  lemma VisitedOneLine(fields: seq<string>)
    requires forall k :: 0 <= k < |fields| ==> '\n' !in fields[k]
    ensures forall k :: 0 <= k < |Visited(fields, |fields|)| ==> '\n' !in Visited(fields, |fields|)[k]
  {
  }

  lemma Framed(header: string, entries: seq<string>, r: seq<string>)
    requires r == [header] + entries + ["}"]
    requires '\n' !in header && forall k :: 0 <= k < |entries| ==> '\n' !in entries[k]
    ensures forall k :: 0 <= k < |r| ==> '\n' !in r[k]
  {
  }

  /**
   * Every entry of a block is one line: splitting the logged text at each
   * line feed followed by a tab gives back the header, the entries and the
   * closing `}`.
   */
  lemma BlockReadBack(schema: string)
    ensures Split(Join(EmittedLines(schema), "\n\t"), "\n\t") == EmittedLines(schema)
  {
    EmittedOneLine(schema);
    JoinedLinesReadBack(EmittedLines(schema));
  }

  lemma JoinedLinesReadBack(r: seq<string>)
    requires |r| >= 1 && forall k :: 0 <= k < |r| ==> '\n' !in r[k]
    ensures Split(Join(r, "\n\t"), "\n\t") == r
  {
    forall k | 0 <= k < |r|
      ensures !Contains(r[k], "\n\t")
    {
      MissingCharNotContained(r[k], "\n\t", '\n');
    }
    UnborderedPair('\n', '\t');
    SplitJoin(r, "\n\t");
  }

  /**
   * The text the driver logs for one block: its entries joined with a line
   * feed and a tab.
   */
  method ConvertBlock(schema: string) returns (block: string)
    ensures block == Join(EmittedLines(schema), "\n\t")
  {
    var schemaFields := SplitLines(schema);
    schemaFields := schemaFields[..|schemaFields| - 1];
    assert schemaFields == SchemaFields(schema);
    var modelName := ModelName(schemaFields);
    var drizzleFields := [Header(modelName)];
    var i := 1;
    while i < |schemaFields|
      invariant 1 <= i && (schemaFields != [] ==> i <= |schemaFields|)
      invariant drizzleFields == [Header(modelName)] + MapLines(ConvertField, Visited(schemaFields, i))
    {
      var field := ConvertField(schemaFields[i]);
      VisitStep(ConvertField, Header(modelName), schemaFields, i, drizzleFields, field);
      drizzleFields := drizzleFields + [field];
      i := i + 1;
    }
    assert Visited(schemaFields, i) == Visited(schemaFields, |schemaFields|);
    drizzleFields := drizzleFields + ["}"];
    block := Join(drizzleFields, "\n\t");
  }

  /** `prismaSchemas.forEach(...)`: one block of text per schema, in order. */
  method ConvertSchemas(schemas: seq<string>) returns (blocks: seq<string>)
    ensures |blocks| == |schemas|
    ensures forall k :: 0 <= k < |schemas| ==> blocks[k] == Join(EmittedLines(schemas[k]), "\n\t")
  {
    blocks := [];
    var j := 0;
    while j < |schemas|
      invariant 0 <= j <= |schemas| && |blocks| == j
      invariant forall k :: 0 <= k < j ==> blocks[k] == Join(EmittedLines(schemas[k]), "\n\t")
    {
      var block := ConvertBlock(schemas[j]);
      blocks := blocks + [block];
      j := j + 1;
    }
  }
}
