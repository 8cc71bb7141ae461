# unwind compiler core, modelled in Dafny

unwind is a Svelte preprocessor plus a small runtime for class-name aliases. This project
models its core:

- **Alias resolution** (`alias.ts`). A class string is split into tokens. Each token is
  matched by its longest registered hyphen-prefix. The stripped trailing segments (the
  "parts") go to that alias's resolver, and the resolver's output is resolved again.
  `alias(name, params)` builds a resolver from a base and groups of variations.
  `aliasMap` and `joinAliasMaps` build and merge alias tables.
- **The attribute lexer** (`compiler/attribute.ts`). It reads one htmlx attribute value
  (`"..."`, `{...}` or a bare identifier). It reports how many characters the value
  spans and turns it into a JavaScript template literal.
- **The class wrapper** (`compiler/wrap.ts`). It finds every `class\s*=\s*` assignment
  and replaces the value after it with `{fnName(`...`)}`.
- **The import inserter** (`compiler/insert.ts`). It puts an import of the runtime right
  after the first line that opens a script. When no line does, it puts a whole script
  block in front of the markup.
- **The entry point** (`compiler/mod.ts`). It reads the runtime version from the URL the
  compiler was loaded from, inserts the import, then wraps the class attributes.

Files, one module each: `wrappers.dfy` (Option), `text.dfy` (the JavaScript string
operations the source uses: `split`, `join`, `trim`, `replace`, `split(/ +/)`),
`alias.dfy`, `attribute.dfy`, `wrap.dfy`, `insert.dfy`, `compiler.dfy`.

Each operation that loops in the source is a `method` with that loop. It is proved equal
to a specification function:

- `Alias.RunAlias`, `Alias.CreateAliasMap` and `Alias.JoinAliasMaps`;
- `Attribute.AttributeToTemplateLiteral`, specified by `Attribute.Lex`;
- `Wrap.WrapTemplateClasses`, specified by `Wrap.Wrapped`;
- `Insert.InsertUnwindImport`, specified by `Insert.Inserted`.

`Compiler.ImplementUnwind` has no loop of its own: it is a `method` because it calls those
methods, and it is specified by `Compiler.Compiled`.

The lemmas state what the source promises about those functions.

Alias resolvers are closures in the source. Here a resolver is the `AliasParams` it
closes over, and calling it is `Alias.AliasOutput`. `lookup` recurses with no bound, so
`Alias.Lookup` carries `fuel`, the number of nested re-resolutions it follows. `None`
means the source goes deeper than that; see the finding below.

## How the code behaves where it is easy to misread

The model follows the code as written:

- **Variation groups.** alias.ts:81-86 applies every variation of a group whose key is
  among the parts, in declaration order. None shadows another, and nothing is reported
  (`Alias.MatchingStylesSpec`). alias.ts emits no warnings at all. Warnings are still a
  TODO in alias.test.ts:106.
- **Resolver results.** `findLongestAliasMatch` (alias.ts:19-26) picks an alias without
  calling it. `lookup` then uses whatever the resolver returns (alias.ts:13). So a
  resolver cannot decline a match, and a `null` result is not a fallthrough.
- **Tokens.** `splitClasses` splits on runs of the space character only (alias.ts:103).
  Newlines and tabs stay inside tokens.
- **Re-resolution depth.** `lookup` resolves a resolver's output again with no depth
  bound (alias.ts:13); see Findings.
- **Bare identifiers.** Inside an expression, compiler/attribute.ts:117 appends each
  character to the output before lines 124-133 check whether it ends the identifier.
  The ending character is given back to the count (line 128) but stays in the output
  (`Attribute.IdentifierAttribute`).
- **`{...}` values.** The `}` that empties the stack is copied at
  compiler/attribute.ts:117 and ends the loop at line 145. After the loop, line 210
  appends only a backtick (`Attribute.BraceValue`). Only identifier mode appends `}`
  there (line 211).
- **The `version` option.** compiler/mod.ts:5-9 documents
  `ImplementUnwindOptions.version` as the runtime version to use. `implementUnwind`
  (compiler/mod.ts:16-21) never reads it (`Compiler.VersionOptionUnused`).

## Model

| member | source | states |
|---|---|---|
| Alias.MatchingStylesSpec | alias.ts:81-86 | A group's matched styles: every variation whose key is among the parts contributes (no first-wins). Nothing else contributes. The result is empty exactly when no variation applies. |
| Alias.FindDefault | alias.ts:90 | `group.find(g => g.isDefault)`: the index of the first default variation. None exactly when the group has no default. |
| Alias.GroupDefaultPolicy | alias.ts:78-94 | When some variation applies, all applying variations contribute and no default does. Otherwise the first default contributes alone, or nothing when there is none. |
| Alias.NullKeyNeverMatches | alias.ts:82 | A variation with a null key never matches: removing it leaves the matched styles unchanged for every list of parts. |
| Alias.MatchingStylesAppend | alias.ts:81-86 | The matched styles of a concatenated group are those of the two halves, in order. |
| Alias.GroupsStylesAppend | alias.ts:78-94 | The groups' contributions compose over concatenated group lists. |
| Alias.GroupsInDeclarationOrder | alias.ts:78-94 | Each group's contribution sits between those of the groups declared before and after it. |
| Alias.AliasBaseFirst | alias.ts:74-76 | The resolver's first section is the base. Without variations (or with none) the output is the base alone. |
| Alias.RunAlias | alias.ts:73-97 | The closure's nested loops, with the `variationApplied` flag, return exactly the specified output. Without variations they return the base. |
| Alias.ExtractLastPart | alias.ts:28-36 | None exactly when the name has no `-`. Otherwise the name before the last `-`, a `-` and the part spell the name, and the part holds no `-`. |
| Alias.ExtractLastPartOf | alias.ts:31-35 | The segment after the last `-` is the part, and everything before it is the name. |
| Alias.FindLongestAliasMatch | alias.ts:19-26 | A match names a registered name together with its own resolver. |
| Alias.LongestMatchSpec | alias.ts:19-26 | The match is the longest registered hyphen-prefix of the token. There is no match exactly when no hyphen-prefix is registered. |
| Alias.MatchSplitsName | alias.ts:25 | The matched name and the parts, joined with `-`, spell the token followed by the old parts. |
| Alias.MatchKeepsParts | alias.ts:25 | The stripped segments, none holding a `-`, go in front of the parts already collected. |
| Alias.MatchParts | alias.ts:19-26 | The parts a resolver receives are the `-`-segments of the token after the matched name; none when the token itself is registered. |
| Alias.SplitClasses | alias.ts:102-104 | `split(/ +/)` yields at least one token, none holding a space. Re-joining the tokens collapses each run of spaces to one. |
| Alias.ResolveTokenFuelMonotone | alias.ts:8-17 | A token resolved within some fuel resolves the same with more fuel: a `Some` is the source's own result. |
| Alias.ResolveTokensFuelMonotone | alias.ts:9-14 | The same for the list of tokens. |
| Alias.LookupFuelMonotone | alias.ts:8-17 | The same for a whole class string. |
| Alias.UnregisteredTokenUnchanged | alias.ts:11 | A token with no registered hyphen-prefix is emitted unchanged. |
| Alias.LookupWithoutAliases | alias.ts:8-17 | A class string that mentions no alias comes back with each run of spaces collapsed to one. |
| Alias.SelfAliasDiverges | alias.ts:13 | For `alias(name, {base: name})` and a class string `name other`, no fuel is enough: as written, `lookup` never returns a value. In JavaScript the recursion ends in a `RangeError` (call stack exceeded) thrown out of `lookup`. |
| Alias.SelfAliasTokenNeverResolves | alias.ts:10-13 | A self-aliased token is matched again on every re-resolution, so it resolves within no fuel at all. |
| Alias.BtnRedIsSelfAliasCase | alias.test.ts:153-155 | The test's `btn` and `red` are such a pair of tokens. The test passes the string `'btn'` as params; the model uses `{base: 'btn'}`, the params form alias.ts:72 takes. |
| Alias.ResolveTokenBoundedAgrees | alias.ts:8-17 | Whenever the source's lookup of a token ends within `depth` re-resolutions, the depth-bounded lookup gives the same result. |
| Alias.ResolveTokensBoundedAgrees | alias.ts:9-14 | The same for the list of tokens. |
| Alias.LookupBoundedAgrees | alias.ts:8-17 | The same for a whole class string. |
| Alias.SelfAliasBounded | alias.test.ts:150-160 | With the depth bounded, a self-aliased `name other` comes back unchanged at every depth. That is what the test expects, with its string params read as `{base: 'btn'}`. |
| Alias.SelfAliasBoundedToken | alias.test.ts:150-160 | With the depth bounded, a self-aliased token resolves to itself at every depth. |
| Alias.MatchWithTwoParts | alias.ts:19-26 | A registered name followed by two unregistered segments matches that name, with the two segments as parts. |
| Alias.VariationsMatch | alias.test.ts:44 | `alias-name-foo-bar` matches `alias-name` with the parts `foo` and `bar`. |
| Alias.VariationsSections | alias.test.ts:30-49 | Those parts select `apply-foo` and `apply-bar`, and the `baz` group contributes nothing. |
| Alias.VariationsOutput | alias.test.ts:45 | The resolver's output for those parts is `base-styles to-apply apply-foo apply-bar`. |
| Alias.ButtonDefaults | alias.test.ts:51-77 | With no parts, each group falls back on its default, including the default with a null key. |
| Alias.ButtonSpacious | alias.test.ts:72-73 | `spacious` displaces the padding default; the colour group keeps its default. |
| Alias.ButtonPrimarySpacious | alias.test.ts:72-73 | `primary` and `spacious` each displace their group's default. |
| Alias.TableOfSpec | alias.ts:61-67 | `aliasMap` holds exactly the names given, and the last alias given for a name wins. |
| Alias.CreateAliasMap | alias.ts:61-67 | The loop builds exactly that table. |
| Alias.MergedSpec | alias.ts:48-56 | `joinAliasMaps` holds exactly the names of all the maps, and a later map's entry wins. |
| Alias.JoinAliasMaps | alias.ts:48-56 | The nested loops build exactly that table. |
| Attribute.NestedCopied | compiler/attribute.ts:116-117 | Inside any expression or string, a turn appends exactly its character to the output. |
| Attribute.ScanNested | compiler/attribute.ts:75-204 | Over a segment during which a context stays open, the output grows by exactly that segment, each character is counted, and the scan goes on after it. |
| Attribute.ScanCopies | compiler/attribute.ts:75-204 | When every turn over a segment copies and counts its character and changes nothing else, the scan of the segment ends in that state and the scan goes on after it. |
| Attribute.StepCounts | compiler/attribute.ts:76-133 | Every turn counts its character. Only the identifier-mode exit gives the count back, and only on a non-identifier character. The output only grows. |
| Attribute.ScanBounds | compiler/attribute.ts:75-204 | The loop consumes at most the characters it is given and only appends to the output. |
| Attribute.LexBounds | compiler/attribute.ts:21-214 | The reported length never exceeds the input. The result starts and ends with a backtick. Quoted and `{` values always consume their opener. |
| Attribute.LexQuoted | compiler/attribute.ts:35-42 | A `"` start consumes the quote, emits a backtick, and closes with a backtick. |
| Attribute.LexBrace | compiler/attribute.ts:45-57 | A `{` start consumes the brace, pushes an expression, emits `` `${ ``, and closes with a backtick. |
| Attribute.LexIdentifier | compiler/attribute.ts:61-71 | Any other start consumes nothing, pushes an expression, emits `` `${ ``, and closes with `` }` ``. |
| Attribute.EscapedBackticksAreEscaped | compiler/attribute.ts:88-93 | Every backtick of escaped top-level text is preceded by a backslash; text without backticks is unchanged. |
| Attribute.EscapeBackticksAppend | compiler/attribute.ts:88-93 | Escaping distributes over concatenation. |
| Attribute.ScanTopLevelText | compiler/attribute.ts:79-114 | Top-level text without `"` or `{` is counted character by character and copied, its backticks escaped. |
| Attribute.QuotedAttribute | compiler/attribute.ts:79-114 | A quoted value of such text spans the text and both quotes, and comes out as the escaped text between backticks. |
| Attribute.QuotedStepExit | compiler/attribute.ts:75-82 | In a quoted value, a turn ends the scan if and only if it reads `"` at the top level; that quote is counted and not copied, and a `"` inside an expression or string goes on. |
| Attribute.ScanQuotedEnd | compiler/attribute.ts:75-204 | A quoted scan stays within the input and stops only at its end or just after a `"` read at the top level. |
| Attribute.QuotedValue | compiler/attribute.ts:34-204 | Any `"..."` value, whatever it nests, counts from the opening quote to the first top-level `"` inclusive, or to the end of the input. |
| Attribute.ScanPlainExpression | compiler/attribute.ts:117-152 | Expression text without braces or quotes is copied and counted and moves no context. |
| Attribute.BraceAttribute | compiler/attribute.ts:136-147 | A `{...}` value of plain expression text: the exact length and output, `` `${e}` ``. |
| Attribute.BraceStep | compiler/attribute.ts:76-204 | Each turn of a `{...}` value counts and copies its character. The outermost context stays the value's expression. A turn ends the scan only on the `}` that empties the stack. |
| Attribute.ScanBrace | compiler/attribute.ts:75-204 | The scan of a `{...}` value copies exactly the characters it counts. It ends at the input's end or just after the `}` that empties the stack. |
| Attribute.BraceValue | compiler/attribute.ts:45-57 | Any `{...}` value, whatever braces, strings or templates it nests, comes out as `` `$ ``, the counted characters and a backtick. The count ends at the `}` that empties the stack, or at the input's end when none does. |
| Attribute.IdentifierPrefixLength | compiler/attribute.ts:124-125 | The identifier prefix never exceeds the input. |
| Attribute.IdentifierPrefix | compiler/attribute.ts:124-125 | Every character of the prefix matches `/[a-z0-9_$]/i`. |
| Attribute.IdentifierPrefixEnd | compiler/attribute.ts:124-125 | The character after the prefix does not. |
| Attribute.IdentifierAttribute | compiler/attribute.ts:117-133 | A bare identifier followed by another character: the count is the identifier's length, but the output holds the ending character too, then `` }` ``. |
| Attribute.IdentifierEnd | compiler/attribute.ts:124-133 | In identifier mode the first non-identifier character is copied, not counted, and ends the scan with the stack empty. |
| Attribute.IdentifierToEnd | compiler/attribute.ts:210-213 | A bare identifier that runs to the end of the input is counted and copied whole, then closed with `` }` ``. |
| Attribute.EscapeInString | compiler/attribute.ts:157-167 | A backslash in a string is copied with the next character, and that character closes nothing. |
| Attribute.ExpressionInBacktickString | compiler/attribute.ts:185-197 | In a backtick string, `${` is copied and opens a nested expression. |
| Attribute.ScanStringText | compiler/attribute.ts:155-203 | String text with no escape, quote, backtick or `$` is copied and counted and closes nothing. |
| Attribute.OpenAtTopLevel | compiler/attribute.ts:96-107 | At the top level `{` opens an expression and is emitted as `${`. |
| Attribute.CloseAtTopLevel | compiler/attribute.ts:82 | At the top level `"` ends the scan; it is counted, not copied. |
| Attribute.OpenString | compiler/attribute.ts:148-150 | In an expression a quote or backtick opens the matching string and is copied. |
| Attribute.CloseString | compiler/attribute.ts:171-182 | The matching quote closes a string and is copied. |
| Attribute.CloseExpression | compiler/attribute.ts:137-147 | A `}` closes the innermost expression and is copied. In a quoted value, or with more levels open, the scan goes on. |
| Attribute.CloseBraceStep | compiler/attribute.ts:137-145 | In a `{...}` value, the `}` that empties the stack is counted and copied, and the turn leaves the loop. |
| Attribute.CloseBraceValue | compiler/attribute.ts:137-145 | The scan stops at that `}` and reads nothing after it. |
| Attribute.TopLevelTurn | compiler/attribute.ts:79-114 | The top-level branch of the loop body computes exactly the specified turn. |
| Attribute.ExpressionTurn | compiler/attribute.ts:122-153 | The expression branch computes exactly the specified turn. |
| Attribute.StringTurn | compiler/attribute.ts:157-203 | The string branch computes exactly the specified turn. |
| Attribute.Turn | compiler/attribute.ts:76-204 | The whole loop body computes exactly the specified turn. |
| Attribute.AttributeToTemplateLiteral | compiler/attribute.ts:21-214 | The start modes, the loop and the closing return exactly `Lex(input)`. |
| Attribute.ScanPlainText | compiler/attribute.ts:109-113 | Top-level text with no quote, brace or backtick is copied as it is. |
| Attribute.QuotedPlain | compiler/attribute.ts:35-114 | A quoted value of such text comes out between backticks, and both quotes are counted. |
| Attribute.QuotedWithBacktick | compiler/attribute.ts:88-93 | A backtick between plain texts of a quoted value comes out escaped and counts one character. |
| Attribute.EmptyStringExpression | compiler/attribute.ts:136-175 | At the top level, `{""}` is copied as `${""}`: its quotes open and close a JavaScript string. |
| Attribute.QuotedWithEmptyString | compiler/attribute.ts:122-175 | Text then `{""}` in a quoted value: the inner quotes do not end the value. |
| Attribute.OpenTemplateInExpression | compiler/attribute.ts:150 | `{`, expression text and a backtick open an expression and a template string inside it. |
| Attribute.TemplateSubstitution | compiler/attribute.ts:185-203 | In a template string, text and a `${...}` substitution are copied, and the stack returns to the template string. |
| Attribute.CloseTemplateAndExpression | compiler/attribute.ts:137-200 | A backtick closes the template string and `}` the expression around it, back at the top level. |
| Attribute.NestedTemplateExpression | compiler/attribute.ts:122-203 | An expression holding a template string with a substitution is copied whole, behind `$`, and returns to the top level. |
| Attribute.QuotedWithNestedTemplate | compiler/attribute.ts:21-214 | The length and output of a quoted value holding such an expression. |
| Attribute.HelloWorld | compiler/attribute.test.ts:11-19 | `"Hello, World!" then there>` spans 15 characters and gives `` `Hello, World!` ``. |
| Attribute.NestedTemplate | compiler/attribute.test.ts:21-29 | The nested-template value spans 33 characters and is copied with its braces. |
| Attribute.EmptyStringInExpression | compiler/attribute.test.ts:31-39 | `"Hello there!{""}">` spans 18 characters and gives `` `Hello there!${""}` ``. |
| Attribute.BacktickAtTopLevel | compiler/attribute.test.ts:41-49 | The backtick value spans 37 characters, and its backtick comes out escaped. |
| Attribute.Newlines | compiler/attribute.test.ts:51-66 | Newlines and tabs in a quoted value are copied; the value spans 20 characters. |
| Attribute.BraceHello | compiler/attribute.test.ts:68-73 | `{hello} man that />` spans 7 characters and gives `` `${hello}` ``. |
| Wrap.AssignmentEnd | compiler/wrap.ts:52 | The greedy match of `class\s*=\s*` is at least six characters long and stays inside the markup. |
| Wrap.AssignmentMatches | compiler/wrap.ts:52 | The greedy match is a match of the pattern. |
| Wrap.MatchIsAssignment | compiler/wrap.ts:52 | Every way of matching the pattern at a position ends no later than the greedy one. |
| Wrap.FirstAssignment | compiler/wrap.ts:55-56 | The search finds the leftmost assignment, or reports none when there is none. |
| Wrap.GetNextValue | compiler/wrap.ts:50-67 | None exactly when the markup has no assignment. A value found starts at index 6 or later, so `!nextValue.index` never holds and the throw at line 30 is unreachable. The value stays inside the markup. |
| Wrap.WrapTemplateClasses | compiler/wrap.ts:10-43 | The splice loop returns exactly `Wrapped(markup, fnName)`. |
| Wrap.LastTurn | compiler/wrap.ts:21-24 | A turn that finds no value moves the rest over and keeps the loop invariant. |
| Wrap.SpliceTurn | compiler/wrap.ts:33-39 | A turn that finds a value keeps the loop invariant. |
| Wrap.WrappedStep | compiler/wrap.ts:33-39 | The result is the text before the value, the replacement `{fnName(jsString)}`, and then the wrapped rest after the value. |
| Wrap.NoAssignmentUnchanged | compiler/wrap.ts:21-24 | Markup with no class assignment comes back unchanged. |
| Wrap.WrappedAtFirstAssignment | compiler/wrap.ts:55-66 | At the first assignment, the value the lexer measures is replaced by the call, and wrapping goes on after it. |
| Wrap.NoClassWordNoAssignment | compiler/wrap.ts:52 | Markup without the word `class` holds no assignment. |
| Wrap.NoAssignmentBefore | compiler/wrap.ts:55 | No assignment starts in a prefix without `class`. |
| Wrap.WrapQuotedPlain | compiler/wrap.ts:37 | A quoted plain class value is replaced by `{fnName(`value`)}`. |
| Wrap.WrapHeightClass | compiler/wrap.test.ts:27 | `<div class="h-20" />` becomes ``<div class={someFn(`h-20`)} />``. |
| Insert.OrElse | compiler/insert.ts:63-66 | `value \|\| fallback`: the fallback exactly when the option is absent, empty or equal to it; otherwise the option. |
| Insert.FirstOpener | compiler/insert.ts:34-47 | The first line that opens a script, as the loop finds it, or none when no line does. |
| Insert.InsertUnwindImport | compiler/insert.ts:27-55 | The loop with its `insertedImport` flag returns exactly `Inserted(markup, version, options)`. |
| Insert.ImportAfterFirstOpener | compiler/insert.ts:38-46 | With an opener at line `i` and none before it, the import is line `i + 1`. Removing it gives back the original lines. |
| Insert.FirstOpenerAt | compiler/insert.ts:34-47 | The first opener is found at its index. |
| Insert.BlockWithoutOpener | compiler/insert.ts:51 | Without an opener, the four-line block goes in front of all the original lines. |
| Insert.OpenerShape | compiler/insert.ts:29 | `<`, spaces, `script` in any case, spaces, an optional `lang` attribute, spaces and `>` match the pattern. |
| Insert.ScriptTagIsOpener | compiler/insert.ts:56-60 | Both tags `buildScriptTag` can write are script openers, so a second insertion finds them. |
| Insert.ScriptTagShape | compiler/insert.ts:56-60 | `<script>` and `<script lang="ts">` have the opener's shape. |
| Insert.TrimmedAlready | compiler/insert.ts:38 | Text that neither starts nor ends with whitespace is its own trim. |
| Insert.TrimAround | compiler/insert.ts:38 | `trim()` takes off exactly the whitespace around such text. |
| Insert.OpenerLine | compiler/insert.ts:38 | A line of opener shape with any whitespace around it is an opener. |
| Insert.UpperCaseScriptTag | compiler/insert.ts:29 | Under `/i` and the trim, an indented upper-case opener qualifies too. |
| Insert.NoOpenerTail | compiler/insert.ts:29 | After `<script`, whitespace then a character other than `>` or `l` cannot finish an opener. |
| Insert.OtherAttributeIsNotOpener | compiler/insert.ts:29 | A `script` tag whose first attribute is not `lang` is not an opener. |
| Insert.ModuleScriptIsNotOpener | compiler/insert.test.ts:8 | `<script context="module">` is not an opener, so the import goes after the later `<script>`. |
| Insert.ImportLineForPath | compiler/insert.test.ts:23 | With the path `path`, the import line is `\timport { unwind as __unwind } from 'path'`. |
| Insert.DefaultPathVersioned | compiler/insert.ts:63-64 | The default path with `VERSION` replaced is the runtime URL of that version. |
| Insert.DefaultImportLine | compiler/insert.ts:62-67 | With no options, the import line binds `unwind` as `__unwind` from that URL. |
| Insert.ImportLineIsOneLine | compiler/insert.ts:62-67 | Without line breaks in the options or the version, the import line is one line. |
| Insert.DefaultPathIsOneLine | compiler/insert.ts:63 | The default path holds no line break. |
| Insert.ScriptBlockIsLines | compiler/insert.ts:51 | None of the four lines of the block holds a line break. |
| Insert.InsertedLinesAreLines | compiler/insert.ts:42-51 | Every line the insertion produces is free of line breaks, given that the input lines are. |
| Insert.InsertedReadsBack | compiler/insert.ts:28-54 | Splitting the result on line breaks gives back the inserted list of lines. |
| Insert.RemovingImportRestoresMarkup | compiler/insert.ts:27-55 | In a result with an opener, the import is the line after it, and removing that line gives back the markup. |
| Compiler.ExtractVersion | compiler/mod.ts:23-31 | A version found is non-empty and holds no `/` or `@`. A URL without `@` has none. |
| Compiler.VersionBetween | compiler/mod.ts:23-31 | If the first `@` is followed by text that runs to a `/`, another `@` or the end, that text is the version. When it is empty there is none. |
| Compiler.VersionDecomposes | compiler/mod.ts:23-31 | A version found is exactly the text after the first `@`, up to the next `/`, `@` or the end. |
| Compiler.RuntimeUrlVersion | compiler/mod.ts:17 | The runtime URL `https://code.jikno.com/unwind@v/unwind.ts` yields `v`. |
| Compiler.Version | compiler/mod.ts:17 | `extractVersion(url) \|\| 'master'` is never empty: the version found, else `master`. |
| Compiler.WrapNameIsImported | compiler/mod.ts:20 | Attribute values are wrapped in a non-empty name, and the import line binds the runtime to that same name. |
| Compiler.VersionOptionUnused | compiler/mod.ts:4-10 | The `version` option has no effect on the output. |
| Compiler.ImplementUnwind | compiler/mod.ts:16-21 | The import goes in with the version read from the URL, then every class value is wrapped in the imported name. |
| Text.IndexOf | compiler/mod.ts:24 | The first occurrence of a character, with `\|s\|` exactly when it does not occur. |
| Text.Split | compiler/insert.ts:28 | `split(sep)` yields at least one piece, none holding the separator. There is one piece exactly when the separator does not occur. |
| Text.JoinSplit | compiler/insert.ts:54 | Joining the pieces of a split with the separator gives back the string. |
| Text.SplitJoin | compiler/insert.ts:28 | Splitting a join of separator-free pieces gives back the pieces. |
| Text.SplitFirst | compiler/mod.ts:24 | The first piece is the text before the first separator. |
| Text.SplitSecond | compiler/mod.ts:24 | The second piece lies between the first two separators. |
| Text.SplitSpaces | alias.ts:103 | `split(/ +/)` yields at least one token, none holding a space. |
| Text.JoinSplitSpaces | alias.ts:102-108 | Re-joining those tokens with single spaces collapses every run of spaces. |
| Text.SplitSpacesAfterWord | alias.ts:103 | A word without spaces, a single space and a rest that is empty or does not start with a space split into the word and the rest's tokens. |
| Text.SkipWhitespace | compiler/wrap.ts:52 | A greedy `\s*`: it stops at the first non-whitespace character. |
| Text.TrimEnd | compiler/insert.ts:38 | Only trailing whitespace is removed. |
| Text.Trim | compiler/insert.ts:38 | The result neither starts nor ends with whitespace. |
| Text.FindFrom | compiler/insert.ts:64 | The first occurrence of the pattern at or after a position, or none. |
| Text.ReplaceFirst | compiler/insert.ts:64 | Without an occurrence of the pattern, the string is unchanged. |
| Text.ReplaceFirstAt | compiler/insert.ts:64 | Only the first occurrence is replaced: when no occurrence starts before `pat`, exactly that occurrence is swapped and the rest is kept. |
| Text.NoOccurrenceBefore | compiler/insert.ts:64 | No occurrence of the pattern starts inside a prefix that lacks its first character. |
| Alias.Lookup | alias.ts:8-17 | `lookup(map, classes)` with `fuel` nested re-resolutions. `None` exactly when the source would go deeper (`Alias.LookupFuelMonotone`, `Alias.SelfAliasDiverges`). |
| Alias.ResolveToken | alias.ts:10-13 | One token: unchanged without a match, otherwise the resolver's output looked up again. |
| Alias.ResolveTokens | alias.ts:9-14 | Every token resolved; `None` when any one is. |
| Alias.LookupBounded | alias.ts:8-17 | The corrected `lookup`: once the depth is spent, tokens are left as they are (`Alias.LookupBoundedAgrees`, `Alias.SelfAliasBounded`). |
| Alias.ResolveTokenBounded | alias.ts:10-13 | The corrected resolution of one token. |
| Alias.ResolveTokensBounded | alias.ts:9-14 | The corrected resolution of every token. |
| Alias.AliasOutput | alias.ts:73-97 | The resolver `alias(name, params)` builds: its sections joined with single spaces. |
| Alias.AliasSections | alias.ts:74-95 | The base, then the styles each group contributes, in order. |
| Alias.GroupsStyles | alias.ts:78-94 | The groups' contributions, concatenated in declaration order. |
| Alias.GroupStyles | alias.ts:79-93 | One group: its matching styles, or the first default when none matches. |
| Alias.MatchingStyles | alias.ts:81-86 | The styles of the variations whose key is among the parts, in declaration order. |
| Alias.Applies | alias.ts:82 | `parts.includes(variation.key)`; a null key never matches. |
| Alias.TableOf | alias.ts:61-67 | The table `aliasMap` builds, specified by `Alias.TableOfSpec`. |
| Alias.Merged | alias.ts:48-56 | The table `joinAliasMaps` builds, specified by `Alias.MergedSpec`. |
| Alias.JoinClassSections | alias.ts:106-108 | `sections.join(' ')`. |
| Attribute.Lex | compiler/attribute.ts:21-214 | `attributeToTemplateLiteral`: the start mode, the loop and the closing (`Attribute.LexBounds`, `Attribute.BraceValue`, `Attribute.QuotedValue`, `Attribute.QuotedAttribute`, `Attribute.IdentifierAttribute`). |
| Attribute.Scan | compiler/attribute.ts:75-204 | The loop over the rest of the input, up to a `break` or the input's end. |
| Attribute.Step | compiler/attribute.ts:76-204 | One turn of the loop (`Attribute.StepCounts`, `Attribute.NestedCopied`). |
| Attribute.TopLevelStep | compiler/attribute.ts:79-114 | A turn at the top level. |
| Attribute.ExpressionStep | compiler/attribute.ts:122-153 | A turn inside an expression. |
| Attribute.StringStep | compiler/attribute.ts:155-203 | A turn inside a string. |
| Attribute.BacktickStep | compiler/attribute.ts:185-203 | A turn inside a backtick string that is not escaped. |
| Attribute.Start | compiler/attribute.ts:34-71 | What each start mode consumes, pushes and emits. |
| Attribute.StartStrategy | compiler/attribute.ts:35-71 | The start mode: quoted, `{`, or identifier. |
| Attribute.Closing | compiler/attribute.ts:210-211 | A backtick, after `}` in identifier mode. |
| Attribute.IsIdChar | compiler/attribute.ts:125 | `/[a-z0-9_$]/i` on one character. |
| Wrap.Wrapped | compiler/wrap.ts:10-43 | What `wrapTemplateClasses` returns, specified by `Wrap.WrappedStep` and `Wrap.NoAssignmentUnchanged`. |
| Wrap.AssignmentAt | compiler/wrap.ts:52 | `class\s*=\s*` matches at a position. |
| Wrap.MatchesWith | compiler/wrap.ts:52 | `class\s*=\s*` matches at a position with the given whitespace runs. |
| Wrap.Replacement | compiler/wrap.ts:37 | `` {fnName(jsString)} ``. |
| Insert.ScriptTag | compiler/insert.ts:56-60 | `buildScriptTag` (`Insert.ScriptTagIsOpener`). |
| Insert.ImportLine | compiler/insert.ts:62-67 | `buildImport` (`Insert.ImportLineForPath`, `Insert.DefaultImportLine`, `Insert.ImportLineIsOneLine`). |
| Insert.Matches | compiler/insert.ts:29 | The opener regex, anchored at both ends. |
| Insert.IsScriptOpener | compiler/insert.ts:38 | The regex test on the trimmed line. |
| Insert.ScriptBlock | compiler/insert.ts:51 | The four lines put in front when no line opens a script. |
| Insert.InsertedLines | compiler/insert.ts:34-51 | The lines after the insertion (`Insert.ImportAfterFirstOpener`, `Insert.BlockWithoutOpener`). |
| Insert.Inserted | compiler/insert.ts:27-55 | What `insertUnwindImport` returns (`Insert.InsertedReadsBack`, `Insert.RemovingImportRestoresMarkup`). |
| Compiler.WrapName | compiler/mod.ts:20 | `options.nameAs || '__unwind'` (`Compiler.WrapNameIsImported`). |
| Compiler.Compiled | compiler/mod.ts:16-21 | What `implementUnwind` returns (`Compiler.ImplementUnwind`, `Compiler.VersionOptionUnused`). |
| Text.Join | compiler/insert.ts:54 | `pieces.join(sep)` (`Text.JoinSplit`, `Text.SplitJoin`). |
| Text.IsWhitespace | compiler/wrap.ts:52 | The ECMAScript `\s` set: WhiteSpace and LineTerminator characters. |
| Text.LowerChar | compiler/insert.ts:29 | The ASCII case folding of `/i`. |

## Left out

- `setup.ts` and `runtime-caller.ts` (the runtime side) are not part of this model.
- Resolvers given as arbitrary functions, and resolvers that return `null`, are not
  modelled. Only the declarative `alias(name, params)` form is. The source's
  `findLongestAliasMatch` never checks a resolver's result either.
- `import.meta.url` (compiler/mod.ts:17) is the parameter `url` of
  `Compiler.ImplementUnwind`.
- Strings are sequences of Unicode scalar values. The source counts UTF-16 code units
  (`string.slice` and `split('')` in compiler/attribute.ts:75), so a character outside the Basic
  Multilingual Plane counts once here and twice there.
- `String.prototype.replace` with a string pattern is modelled without the `$`
  replacement patterns. A version containing `$&` or `$$` is inserted literally here.
- The regular expressions are modelled pattern by pattern (`class\s*=\s*` and the
  script opener), not as a general engine. `\s` is the exact ECMAScript whitespace set.
  `/i` folds ASCII letters only, which is all these patterns contain.
- The `prepend` helper from the external array library (insert.ts:1) is sequence
  concatenation.
- Alias.Lookup: does not model the call stack. In JavaScript an unbounded
  re-resolution ends in a `RangeError` (call stack exceeded) thrown out of `lookup`.
  Here `fuel` bounds the nested re-resolutions, and `None` stands for "deeper than
  that". The `*FuelMonotone` lemmas show a `Some` is the source's result.
- Alias.MaxAliasDepth: the depth of the corrected lookup (16) is the model's own
  choice. The source sets no bound.
- The string form of `alias` params that some tests use (`alias('btn', 'btn')` at
  alias.test.ts:153) is not modelled. Params are always `{base, variations}` as
  alias.ts:43-46 declares. With a string, `params.base` is undefined, so the resolver
  returns `""` and that test's `lookup` gives `" red"`.

## Findings

| source | as written | input that shows it | evidently intended | confidence | as-written member | corrected member |
|---|---|---|---|---|---|---|
| alias.ts:13 | `lookup` resolves a match's output again with no depth bound, so an alias whose output matches itself recurses until the engine throws a `RangeError` (call stack exceeded) out of `lookup` | `lookup(aliasMap([alias('btn', {base: 'btn'})]), 'btn red')` | the test at alias.test.ts:150-160 expects `btn red` back: re-resolution stops and leaves the token as it is. That test passes the string `'btn'` as params, so as written it gets `" red"` and never reaches the self-alias; the input here reads it as `{base: 'btn'}` | not executed | Alias.SelfAliasDiverges | Alias.SelfAliasBounded |
