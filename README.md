# prisma-to-drizzle-schema, modelled in Dafny

The converter reads Prisma `model` blocks and writes Drizzle `sqliteTable`
declarations, one line at a time, with string operations and a short list
of first-match rules. This project restates that translation in Dafny and
proves what it does, quirks included.

- `js_strings.dfy` (module `JsStrings`) holds the JavaScript string
  operations the converter relies on, with their own semantics: `indexOf`,
  `replace` with a string pattern (first occurrence only), `split` (always
  at least one piece), `join`, `trim` and `toLowerCase`. An absent value is
  an `Option<string>`, and `Render` writes it as `undefined`, as string
  concatenation does.
- `fields.dfy` (module `Fields`) covers the per-line text transformations.
  These are the `[ ,]+` to `,` collapse, the camelCase to snake_case
  rewrite of the field name, and `extractRelation`.
- `emitters.dfy` (module `Emitters`) covers `convertType` and
  `convertRelation`. They are pure functions, and lemmas give each branch
  its exact output.
- `driver.dfy` (module `Driver`) covers the steps of `convertPrismaToDrizzle`
  for a block's lines and for a single field line:
  - cutting a block at `/\r?\n/`;
  - the model-name regular expression `(?<=(model)+)(.*?)(?=\{)` (leftmost
    match, lazy up to the first `{` on the same line);
  - the field pipeline, from the field text through the parts, the name
    and its snake form, the type, the chosen relation fragment, and the
    entry `parts[0] + ': ' + type + decorator`.
- `blocks.dfy` (module `Blocks`) covers one block and the `forEach` over
  the blocks:
  - the `pop` of the last line;
  - the header entry;
  - the loop that pushes one entry per remaining line;
  - the closing `}`;
  - the join with a line feed and a tab.

  `ConvertBlock` and `ConvertSchemas` are methods with loops. Each is
  proved against `EmittedLines`.
- `samples.dfy` (module `Samples`) takes lines of the sample schema at the
  top of `src/index.ts` through the pipeline.

Several quirks of the code are reproduced and proved rather than
corrected:

- The `@relation(...)` text is split at its commas like the rest of the
  line, so `parts[3]` is a fragment such as ` references: [code])`.
- Only the first `]` is removed from a referenced column, so the `)` that
  closes the annotation ends up in both the column name and the reference.
- A list `references: [c, d]` is cut at its comma with the rest of the
  annotation, so the piece ` references: [c` has no `]` and only `c` is
  referenced.
- A single-quoted default on a `Boolean` field is compared with `true`
  with its quotes still on, so `@default('true')` gives `.default("0"),`.
- The object key is the name as written. The snake-cased name goes into
  the column constructor and into the target of `.references(()=> `.
- A `DateTime` field is always the column `created_at`.
- The `.references(()=> ` call is never closed.
- An annotation that no rule knows (`@unique`) gives an empty modifier.
  The entry then has no trailing comma.

Further behaviour of `src/index.ts` that the model keeps as written:

- `pop()` drops the block's last line, whatever it holds. In the sample
  schemas that is the closing-brace line, and the `}` entry is appended
  separately.
- `.primaryKey(),` needs both `@default` and `autoincrement()`, and no
  `@default(now())`. `autoincrement()` alone is not enough.
- The reference modifier is written `.references(()=> `, without a space
  before the arrow.
- A default whose argument holds a `)`, such as `@default(cuid())`, loses
  the first `)` of its argument, so `.default(cuid()),` keeps the
  parenthesis of `@default(`.
- `extractRelation` returns its input unchanged when `@relation` sits at
  index 0, because the code reads a match index of 0 as false.

## Model

| member | source | states |
|---|---|---|
| JsStrings.Render | src/index.ts:95 | string concatenation writes an absent value as the text `undefined`; `ConvertTypeUnresolvedReference`, `ConvertRelationReferencesUnresolved` and `BlankField` state the outputs where it shows |
| JsStrings.Truthy | src/index.ts:90-93 | JavaScript truthiness of an optional string: present and non-empty; `ConvertTypeByKeywords`, `ConvertRelationAbsentIff` and `ViewOfParts` state the tests it decides |
| JsStrings.IndexOfFrom | src/index.ts:84 | the result is -1 exactly when the pattern occurs nowhere at or after k, and otherwise the first index at or after k where it occurs |
| JsStrings.IndexOf | src/index.ts:84 | `indexOf` with a string pattern, `IndexOfFrom` from 0, whose contract gives the first occurrence or -1; `Contains` is `IndexOf >= 0`, and `IndexOfIsFirst` gives the index from the first occurrence |
| JsStrings.ReplaceFirst | src/index.ts:128-129 | `replace` with a string pattern; `ReplaceFirstAtStart` and `ReplaceFirstAfterFree` show that only the first occurrence is replaced, and `ReplaceFirstLacks` that no character is introduced except those of the replacement |
| JsStrings.Join | src/index.ts:99 | `join(sep)`; `JsStrings.Split` and `SplitJoin` state that it and `split` undo each other |
| JsStrings.Trim | src/index.ts:87 | `trim`; its own contract states that the result has no whitespace at either end, and `TrimSurrounded` that exactly the surrounding whitespace is removed |
| JsStrings.Split | src/index.ts:90 | `split(',')` gives at least one piece, no piece holds the separator, and joining the pieces with it gives the string back |
| JsStrings.SplitJoin | src/index.ts:90 | pieces free of an unbordered separator are recovered by splitting their join |
| JsStrings.SplitAfterJoin | src/index.ts:90 | pieces free of the separator, joined and followed by more text, split into those pieces followed by the pieces of the rest |
| JsStrings.ReplaceFirstAfterFree | src/index.ts:129 | a string-pattern `replace` removes only the first occurrence of the pattern |
| JsStrings.TrimSurrounded | src/index.ts:87 | `trim` removes exactly the surrounding whitespace and nothing else |
| JsStrings.ToLower | src/index.ts:77 | `toLowerCase` keeps the length and maps each character to its lower-case form |
| Fields.Normalise | src/index.ts:87 | the `[ ,]+` collapse leaves no space and no doubled comma, is empty exactly when its input is, and starts with a comma exactly when the input starts with a space or comma |
| Fields.NormaliseKeepsContent | src/index.ts:87 | the collapse keeps every character other than a space or comma, in order |
| Fields.NormaliseUnchangedIff | src/index.ts:87 | the collapse changes a string exactly when it has a space or a doubled comma |
| Fields.NormaliseIdempotent | src/index.ts:87 | collapsing twice is collapsing once |
| Fields.NormaliseGap | src/index.ts:87 | a run of spaces and commas in front of a word becomes one comma |
| Fields.NormaliseFreePrefix | src/index.ts:87 | a prefix without spaces or commas passes through the collapse unchanged |
| Fields.Snake | src/index.ts:91 | the snake-cased name has no upper-case letter and is longer than the name by its number of upper-case letters |
| Fields.SnakeIdentity | src/index.ts:91 | a name without upper-case letters is unchanged by snake-casing |
| Fields.SnakeIdempotent | src/index.ts:91 | snake-casing twice is snake-casing once |
| Fields.SnakeAppend | src/index.ts:91 | the rewrite works character by character: the snake form of a concatenation is the concatenation of the snake forms |
| Fields.SnakeRoundTrip | src/index.ts:91 | on a name without `_`, turning each `_x` back into `X` restores the name |
| Fields.ExtractRelation | src/index.ts:103-113 | `extractRelation`; `ExtractRelationSpec`, `ExtractRelationAfter` and `ExtractRelationLacks` carry its contract |
| Fields.ExtractRelationSpec | src/index.ts:103-112 | with `@relation` first at index i > 0 the result is the collapsed, trimmed text before it, a comma and the suffix verbatim; otherwise the line is returned unchanged |
| Fields.ExtractRelationAfter | src/index.ts:103-112 | when the first `@relation` of a line comes right after the non-empty text x, the result is x trimmed and collapsed, a comma, then `@relation` and the rest of the line unchanged |
| Fields.NormaliseLacks | src/index.ts:87 | the collapse introduces no character except a comma |
| Fields.SnakeLacks | src/index.ts:91 | snake-casing introduces only `_` and lower-case letters |
| Fields.ExtractRelationLacks | src/index.ts:103-112 | `extractRelation` introduces no character except a comma |
| Emitters.ReferencedColumn | src/index.ts:128 | the `relation?.split('references: [')?.[1]?.replace(']', '')` that both emitters compute; `ReferencedColumnAbsent` and `ReferencedColumnAfterLead` carry its contract for every relation |
| Emitters.ReferencedColumnAbsent | src/index.ts:128 | without `references: [` the referenced column is absent |
| Emitters.ReferencedColumnAfterLead | src/index.ts:128 | for a relation `lead references: [rest` with no `references: [` in `lead`, the referenced column is the text of `rest` up to its next `references: [` (or its end), without its first `]` |
| Emitters.ReferencedColumnGeneral | src/index.ts:128 | with a single `references: [`, the referenced column is everything after it, without its first `]` |
| Emitters.ReferencedColumnUnclosed | src/index.ts:128 | a piece ` references: [c` with no `]`, as cut from `references: [c, d]`, has the referenced column `c` |
| Emitters.ReferencedColumnOf | src/index.ts:128 | the referenced column of `lead references: [col]tail`, for any `lead` and `col]tail` without `references: [`, is `col` + `tail`: only the first `]` is removed |
| Emitters.ReferencedColumnInRelation | src/index.ts:128 | `@relation(references: [id])` has the referenced column `id)` |
| Emitters.ConvertType | src/index.ts:115-134 | `convertType`; `ConvertTypeByKeywords`, `ConvertTypeNotNullIff`, the branch lemmas `ConvertTypeNullableInt` to `ConvertTypeUnresolvedReference` and `ConvertTypeOneLine` carry its contract |
| Emitters.FirstKeyword | src/index.ts:117-126 | the kind chosen is that of the first keyword of the table found in the type, and the model reference when none is found |
| Emitters.ConvertTypeByKeywords | src/index.ts:115-134 | `convertType` returns an absent or empty type unchanged, and otherwise the column of the first of `Int?`, `Int`, `String`, `Boolean`, `DateTime` found in the type |
| Emitters.ConvertTypeNotNullIff | src/index.ts:117-120 | a present type gives a `.notNull()` column exactly when it has `Int` and not `Int?` |
| Emitters.ConvertTypeNullableInt | src/index.ts:117-118 | a type with `Int?` gives `integer("<snake>")` |
| Emitters.ConvertTypeNotNullInt | src/index.ts:119-120 | a type with `Int` and no `Int?` gives `integer("<snake>").notNull()` |
| Emitters.ConvertTypeTimestamp | src/index.ts:125-126 | a `DateTime` type (and no earlier keyword) gives `integer('created_at', { mode: 'timestamp' })` whatever the field name and relation |
| Emitters.LowerWithoutMarker | src/index.ts:129 | the type text of a model reference is the lower-cased type without its `?` |
| Emitters.ConvertTypeModelReference | src/index.ts:127-130 | a type with no keyword gives `text('<type lower-cased, ? removed>_<col><tail>')` for a `lead references: [col]tail` relation with a single `references: [` |
| Emitters.ConvertTypeUnclosedReference | src/index.ts:127-130 | a type with no keyword and a piece ` references: [c` without `]` give `text('<type lower-cased, ? removed>_c')` |
| Emitters.ConvertTypeUnresolvedReference | src/index.ts:127-130 | without a `references: [` clause the generated name ends in `_undefined` |
| Emitters.StripCall | src/index.ts:145-148 | `relation.replace(open, '').replace(close, '')`; `DefaultCallStrip`, `QuotedStrip` and `DefaultCallStripParen` give it on the default shapes the code meets |
| Emitters.ConvertRelation | src/index.ts:136-162 | `convertRelation`; `ConvertRelationAbsentIff`, `ConvertRelationEmptyIff`, the branch lemmas `ConvertRelationPrimaryKey` to `ConvertRelationReferences` and `ConvertRelationOneLine` carry its contract |
| Emitters.ConvertRelationAbsentIff | src/index.ts:137-139 | the modifier is exactly `,` if and only if the relation is absent or empty |
| Emitters.ConvertRelationPrimaryKey | src/index.ts:154-155 | `@default` with `autoincrement()` and no `@default(now())` gives `.primaryKey(),` whatever the type |
| Emitters.ConvertRelationNow | src/index.ts:152-153 | `@default(now())` gives the fixed `strftime` epoch-seconds default whatever the type |
| Emitters.ConvertRelationBooleanDefault | src/index.ts:141-151 | on a Boolean field another default becomes `1` exactly when its stripped argument is `true` and `0` otherwise, quoted when the default was single-quoted |
| Emitters.ConvertRelationBooleanBare | src/index.ts:144-151 | on a Boolean field `@default(x)`, where x has no `)`, no `@` and no leading quote, gives `.default(1),` when x is `true` and `.default(0),` otherwise; `ConvertRelationBooleanDefault` states the general case |
| Emitters.ConvertRelationBooleanQuoted | src/index.ts:144-151 | on a Boolean field a single-quoted `@default('x')` gives `.default("0"),` whatever x is, `'true'` included |
| Emitters.ConvertRelationBooleanLiterals | src/index.ts:144-151 | `@default(true)` and `@default(false)` on a Boolean field give `.default(1),` and `.default(0),` |
| Emitters.ConvertRelationQuotedDefault | src/index.ts:148-151 | on a non-Boolean field `@default('x')` is re-emitted as `.default("x"),` |
| Emitters.ConvertRelationBareDefault | src/index.ts:141-151 | on a non-Boolean field, `@default(x)` with no `)` in x, and not taken by the single-quote, `now()` or `autoincrement()` tests, is passed through as `.default(x),`, whatever else x holds (an `@` included) |
| Emitters.ConvertRelationCallDefault | src/index.ts:141-151 | on such a field `@default(a)b)`, with no `)` in a, loses the first `)` and not the closing one: the modifier is `.default(ab)),` |
| Emitters.ConvertRelationReferences | src/index.ts:156-158 | a `lead references: [col]tail` relation without `@default` and with a single `references: [`, on a typed field, gives `.references(()=> <snake>.<col><tail>,`, left unclosed |
| Emitters.ConvertRelationUnclosedReference | src/index.ts:156-158 | a piece ` references: [c` without `]` or `@default`, on a typed field, gives `.references(()=> <snake>.c,` |
| Emitters.ConvertRelationReferencesBranch | src/index.ts:141-158 | any relation that mentions `references` and has no `@default`, on a typed field, gives `.references(()=> <snake>.<referenced column>,` |
| Emitters.ConvertRelationReferencesUnresolved | src/index.ts:156-158 | such a relation without `references: [` gives `.references(()=> <snake>.undefined,` |
| Emitters.ConvertRelationEmptyIff | src/index.ts:137-161 | the modifier is empty exactly when the relation is present, has no `@default`, and does not both mention `references` and come with a type |
| Emitters.ConvertTypeOneLine | src/index.ts:115-134 | `convertType` writes no line feed that its inputs lack |
| Emitters.ConvertRelationOneLine | src/index.ts:136-162 | `convertRelation` writes no line feed that its inputs lack |
| Driver.CutCRs | src/index.ts:71 | every piece but the last loses one trailing carriage return, and the last is kept as it is |
| Driver.SplitLines | src/index.ts:71 | `split(/\r?\n/)` gives at least one line, as many as there are line-feed pieces, and none holds a line feed |
| Driver.SplitLinesOfLF | src/index.ts:71 | lines joined with `\n` are cut back into the same lines |
| Driver.SplitLinesOfCRLF | src/index.ts:71 | lines joined with `\r\n` are cut back into the same lines |
| Driver.LazyBrace | src/index.ts:75 | the lazy `(.*?)(?=\{)` stops at the first `{`, and fails when a line terminator comes before it |
| Driver.MatchStart | src/index.ts:75 | the regular expression matches at the leftmost position that follows `model` and is followed on the same line by a `{` |
| Driver.NameMatch | src/index.ts:74-75 | the matched text holds no `{` and no line terminator |
| Driver.ModelName | src/index.ts:74-77 | the optional-chained name of a block; `ModelNameOfHeader`, `ModelNameAbsent` and `ModelNameNoBrace` carry its contract |
| Driver.ModelNameOfHeader | src/index.ts:74-77 | a first line `lead + "model" + name + "{" + rest` (no `model` in lead) names the model by name, trimmed and lower-cased |
| Driver.ModelNameAbsent | src/index.ts:74-77 | a first line without `model` gives no model name |
| Driver.ModelNameNoBrace | src/index.ts:74-77 | a first line without `{` gives no model name |
| Driver.FieldText | src/index.ts:84-88 | the field text of a line; `ExtractRelationAfter` (through `RelationField`) and `NormaliseSpaced` (through `WordsField`) give it on relation lines and word lines |
| Driver.FieldParts | src/index.ts:90 | `field ? field.split(',') : null`; `BlankField`, `WordsField` and `RelationField` carry its contract |
| Driver.Part | src/index.ts:91-94 | `parts?.[k]`: absent when there are no parts or fewer than k + 1, and part k otherwise; `ViewOfParts` states what the pipeline reads through it |
| Driver.ViewField | src/index.ts:90-94 | what the pipeline reads off the parts; `ViewOfParts` carries its contract |
| Driver.ConvertField | src/index.ts:84-96 | the entry pushed for one line; `BlankField`, `WordsFieldConverted`, `ReferenceFieldLine`, `ConvertFieldOneLine` and the `Samples` lemmas carry its contract |
| Driver.BlankField | src/index.ts:84-95 | a blank line has no parts and becomes `undefined: undefined,` |
| Driver.ViewOfParts | src/index.ts:90-94 | the name is part 0, the type part 1, and the relation part 3 when non-empty and part 2 otherwise |
| Driver.NormaliseSpaced | src/index.ts:87 | words separated by runs of spaces and commas collapse to the words joined by single commas |
| Driver.WordsField | src/index.ts:84-90 | a line of words without `@relation`, with any surrounding whitespace, has the words as its parts |
| Driver.WordsFieldConverted | src/index.ts:84-95 | such a line becomes `<word 0>: <type column><modifier>`, with the relation chosen from word 3 or word 2 |
| Driver.RelationField | src/index.ts:84-90 | a line of words followed by `@relation` has the words as its first parts, then the pieces of the annotation cut at every comma |
| Driver.ReferenceFieldLine | src/index.ts:84-95 | a `<name> <type> @relation(<fields>, references: [col]tail<rest>)` line, with a type that names a model, becomes `<name>: text('<type lower-cased, first ? removed>_<col><tail>').references(()=> <snake-cased name>.<col><tail>,` |
| Driver.ConvertFieldOneLine | src/index.ts:84-95 | the entry of a line without a line feed has none either |
| Blocks.Header | src/index.ts:80 | the first entry of a block; `HeaderOneLine` carries its contract |
| Blocks.EmittedLines | src/index.ts:79-98 | the entries of one block; `EmittedLinesShape`, `BlockOfModel`, `SingleLineSchema`, `EmittedOneLine` and `BlockReadBack` carry its contract, and `ConvertBlock` is proved to compute it |
| Blocks.SchemaFields | src/index.ts:71-72 | after `pop()` the fields are all the lines of the block but the last |
| Blocks.SchemaFieldsOfLines | src/index.ts:71-72 | for lines joined with `\n` or `\r\n`, the pop drops exactly the last line |
| Blocks.EmittedLinesShape | src/index.ts:79-98 | a block is the header, then one entry for each field line after the first in order, then `}` |
| Blocks.BlockOfModel | src/index.ts:71-98 | a block opening with `model <name> {` gives the header for the trimmed, lower-cased name, the entries of the lines in between, and `}` |
| Blocks.SingleLineSchema | src/index.ts:71-80 | a block without a line feed has nothing left after the pop: its name is `undefined` and it emits the header and `}` alone |
| Blocks.HeaderOneLine | src/index.ts:74-80 | the header line holds no line feed |
| Blocks.EmittedOneLine | src/index.ts:79-98 | no entry of a block holds a line feed |
| Blocks.BlockReadBack | src/index.ts:99 | splitting the logged text at each line feed plus tab gives back exactly the header, the entries and `}` |
| Blocks.ConvertBlock | src/index.ts:71-99 | the loop over the lines after the header builds the joined text of `EmittedLines` |
| Blocks.ConvertSchemas | src/index.ts:70 | one block of text per schema, in order |
| Samples.OrgBrandColorField | src/index.ts:6 | `orgBrandColor String?` becomes `orgBrandColor: text("org_brand_color"),` |
| Samples.OrgBrandColorLine | src/index.ts:6 | the same, on the line exactly as written, tabs and spaces included |
| Samples.OrgCountryField | src/index.ts:8 | `orgCountry Country? @relation(fields: [countryCode], references: [code])` becomes `orgCountry: text('country_code)').references(()=> org_country.code),` |
| Samples.PriceDelimiterField | src/index.ts:26 | `priceDelimiter String? @default("@")` becomes `priceDelimiter: text("price_delimiter").default("@"),` |
| Samples.StoreModeField | src/index.ts:58 | `storeMode Boolean @default(false)` becomes `storeMode: integer("store_mode").default(0),` |
| Samples.SessionHeader | src/index.ts:60 | the block opening with `model Session {` is the table `session` |
| Samples.SessionHeaderLine | src/index.ts:60 | the same, on `model Session {` exactly as the first line of the `Session` template literal holds it |
| Samples.SessionIdField | src/index.ts:61 | `id String @id @default(cuid())` becomes `id: text("id").default(cuid()),`: the fourth word is the relation, and the `)` of `cuid()` is the one removed |
| Samples.SessionIdLine | src/index.ts:61 | the same, on the line exactly as written |
| Samples.SessionTokenField | src/index.ts:62 | `sessionToken String @unique` becomes `sessionToken: text("session_token")` with no trailing comma |
| Samples.SessionTokenLine | src/index.ts:62 | the same, on the line exactly as written |
| Samples.SessionUserField | src/index.ts:65 | `user User @relation(fields: [userId], references: [id], onDelete: Cascade)` becomes `user: text('user_id').references(()=> user.id,` |

## Left out

- Printing: `console.log` at line 99 is output. `ConvertBlock` returns the text it would print, and `ConvertSchemas` returns the texts of all blocks in order.
- The sample schema literal (lines 1-67) and the top-level call at line 164 are input data. A few of its lines are taken through the pipeline in `Samples`.
- Regular expressions in general: only the four patterns the code uses are modelled, each as an explicit function. These are `/\r?\n/`, `/[ ,]+/g`, `/[A-Z]/g` and the model-name pattern with its lookbehind. `part.match('@relation')` is modelled as the first index of `@relation`.
- Trim: JavaScript's `trim` also strips vertical tab, form feed, no-break space, the byte-order mark and the other Unicode space and line-terminator characters. The model's `Trim` strips only space, tab, carriage return and line feed.
- Lower-casing: `toLowerCase` is restricted to the letters A to Z.
- Fields.SnakeRoundTrip: stated only for names without `_`, because a name that already holds `_x` cannot be told apart from a converted capital.
- Samples: the identifier line `id Int @id @default(autoincrement())` is not taken through the whole pipeline. Its type and modifier are covered by `Emitters.ConvertTypeNotNullInt` and `Emitters.ConvertRelationPrimaryKey`, and its relation pick by `Driver.WordsFieldConverted`.
- Null: the code's `null` and `undefined` are both modelled as an absent value. The pipeline never produces `null` for a present line.
