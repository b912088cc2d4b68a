# ng-samurai import-path rewriting, modelled in Dafny

ng-samurai is an Angular schematic that splits a library into sub-entry
modules. Its core is the import-path rule. For one TypeScript file, the rule
finds every top-level import whose relative path leads into another module.
It points each such import at that module's public entry. Then it splices the
new literals into the file text, working from the last edit back to the first.
The entry rule visits the library's files and builds the list of rules that
are chained.

Modules:

- `Wrappers`: `Option` and `Result`.
- `Syntax`: the parser output the rule reads. A file is the sequence of its
  top-level statements. Each statement is an import declaration with its
  direct child nodes (kind, `pos`, `end`, text) or some other statement.
  `FindStringLiteral` is the rule's `find` over the children.
- `EditApplier`: `Modification`, the splice with JavaScript's clamping
  `slice`, and the reverse-order loop `ApplyModifications`. It also holds the
  independent left-to-right `Rebuild` and the lemmas that connect the two.
- `ImportClassifier`: the collaborators as a `Host` record of uninterpreted
  functions, the error type, `IsThirdPartyLibImport`,
  `ImportsForeignModuleCode` and `GetModulePathFromImport`.
- `UpdateImportPathsRule`: what each statement contributes, the collecting
  visit, the methods `GetImportPathModifications` and `UpdateImportPaths`, and
  the lemmas about the rule.
- `NgSamurai`: rule descriptors as a datatype, the visit loop
  `NgSamuraiRules`, and lemmas about the list it builds.

Behaviour of the code that the model keeps as written:

- A literal is third-party unless its text begins with `'.`. A relative
  import written in double quotes is therefore left alone.
- The span of a modification is `[pos + 1, end + 1)`. `pos` is the literal's
  full start, which includes leading trivia. So the span assumes exactly one
  space before the literal and one character after it, normally the `;`. The
  replacement always ends in `';`. With no semicolon, the character after the
  literal is replaced. Past the end of the text, `slice` clamps.
- An unresolvable relative import ends the run through `process.exit()`.
  That call passes no exit code. The model returns
  `Failure(NoModuleForImport(literal, file))`, and nothing is written back.
- If the file's own module cannot be found, `findModule` throws outside any
  `try`. This too aborts the run, modelled as `Failure(NoModuleForFile(file))`.
- The edit applier does not check for overlapping spans.
  `ModificationsAscending` proves that spans cannot overlap when the literals
  lie in document order, as a parser lays them out, and each literal is
  followed by at least one more character of the file (its `;` or a line
  break).
- The file is read twice, once for the edits and once for the splice. Both
  reads give the same text, so the model has a single `text`.

## Model

| member | source | states |
|---|---|---|
| `Syntax.FindStringLiteral` | src/rules/update-import-paths.rule.ts:43-46 | None exactly when no child is a string literal; otherwise a string-literal child with no string literal before it |
| `EditApplier.Splice` | src/rules/update-import-paths.rule.ts:24-27 | with both positions clamped to the text's length as `slice` does, the result keeps the text before the start, then holds the content, then the text from the end on |
| `EditApplier.SpliceInBounds` | src/rules/update-import-paths.rule.ts:24-27 | an in-bounds splice gives `s[..start] + content + s[end..]`, whose length is the old length minus `end - start` plus the length of `content` |
| `EditApplier.ApplyModifications` | src/rules/update-import-paths.rule.ts:23-28 | the loop over the reversed list splices the last modification first and the first last; with no modifications the text is returned character for character |
| `EditApplier.Rebuild` | src/rules/update-import-paths.rule.ts:23-28 | the left-to-right rebuild has the length of `s[from..]` plus the total growth of the modifications |
| `EditApplier.ApplyReversedIsRebuildFrom` | src/rules/update-import-paths.rule.ts:23-28 | for ascending disjoint in-bounds spans, reverse-order splicing keeps `s[..from]` and then equals the rebuild from `from` |
| `EditApplier.ApplyReversedIsRebuild` | src/rules/update-import-paths.rule.ts:23-28 | for ascending disjoint in-bounds spans, reverse-order splicing equals the single left-to-right rebuild; the length changes by the total growth |
| `EditApplier.RebuildKeepsCharacter` | src/rules/update-import-paths.rule.ts:23-28 | in the rebuild, each character outside every span appears, shifted by the growth of the earlier modifications |
| `EditApplier.ApplyReversedKeepsCharacter` | src/rules/update-import-paths.rule.ts:23-28 | every character outside the spans survives the splicing at its offset plus the growth of the modifications before it |
| `ImportClassifier.IsThirdPartyLibImport` | src/rules/update-import-paths.rule.ts:66-68 | true exactly when the literal's text does not begin with the two characters `'` and `.` |
| `ImportClassifier.DoubleQuotedRelativeIsThirdParty` | src/rules/update-import-paths.rule.ts:66-68 | a literal beginning with a double quote counts as third-party |
| `ImportClassifier.GetModulePathFromImport` | src/rules/update-import-paths.rule.ts:80-88 | succeeds exactly when a module owns the resolved target, with that module; otherwise the error names the literal and the file |
| `ImportClassifier.ImportsForeignModuleCode` | src/rules/update-import-paths.rule.ts:70-78 | fails exactly when the target's module lookup fails; otherwise true exactly when the target's module differs from the file's |
| `UpdateImportPathsRule.PublicApiContent` | src/rules/update-import-paths.rule.ts:57 | the replacement is the public entry in single quotes followed by `;`, three characters longer than the entry |
| `UpdateImportPathsRule.ModificationFor` | src/rules/update-import-paths.rule.ts:54-58 | the span starts one past the literal's `pos` and ends one past its `end`; the content is the rewritten literal and `;` |
| `UpdateImportPathsRule.StatementModification` | src/rules/update-import-paths.rule.ts:41-61 | a statement yields a modification exactly for a cross-module import: span `[pos+1, end+1)`, content `'` + public entry + `';`; third-party, intra-module and non-import statements yield none; it aborts exactly on an unresolved relative import |
| `UpdateImportPathsRule.GatherFailureIsFinal` | src/rules/update-import-paths.rule.ts:80-88 | once one outcome of the visit is an abort, the whole visit ends with that abort |
| `UpdateImportPathsRule.GatherOrigins` | src/rules/update-import-paths.rule.ts:41-63 | on success, every outcome succeeded, and the modifications are exactly those the outcomes carry, in order |
| `UpdateImportPathsRule.GatherFirstFailure` | src/rules/update-import-paths.rule.ts:80-88 | an aborted visit carries the first abort among the outcomes |
| `UpdateImportPathsRule.GatherNothing` | src/rules/update-import-paths.rule.ts:48-52 | if no outcome carries anything, the visit collects no modifications |
| `UpdateImportPathsRule.CollectFailureIsFinal` | src/rules/update-import-paths.rule.ts:80-88 | once a statement aborts, the whole visit aborts with that error |
| `UpdateImportPathsRule.CollectOrigins` | src/rules/update-import-paths.rule.ts:41-63 | on success, the modifications are exactly those the statements yield, in statement order, at most one per statement, and every statement that yields one is included |
| `UpdateImportPathsRule.CollectFirstFailure` | src/rules/update-import-paths.rule.ts:80-88 | an aborted visit carries the error of the first statement that aborts; every earlier statement succeeded |
| `UpdateImportPathsRule.NoCrossModuleImportsNoModifications` | src/rules/update-import-paths.rule.ts:48-52 | with no cross-module and no unresolved imports there are no modifications |
| `UpdateImportPathsRule.ModificationsAscending` | src/rules/update-import-paths.rule.ts:53-58 | when the import literals lie in document order and each literal ends before the last character of the text, the modifications are ascending, disjoint and in bounds |
| `UpdateImportPathsRule.GetImportPathModifications` | src/rules/update-import-paths.rule.ts:34-64 | the own-module lookup and then the visit of the top-level statements give the collected modifications or the first abort |
| `UpdateImportPathsRule.UpdateImportPaths` | src/rules/update-import-paths.rule.ts:18-32 | the text written back is the file text with the modifications spliced in reverse order; on an abort, nothing is written |
| `UpdateImportPathsRule.RewrittenTextIsRebuild` | src/rules/update-import-paths.rule.ts:21-29 | for a file parsed in document order whose every import literal is followed by at least one character, the text written back equals the left-to-right rebuild of the original text |
| `UpdateImportPathsRule.NoCrossModuleImportsUnchanged` | src/rules/update-import-paths.rule.ts:21-29 | a file with only third-party or intra-module imports is written back character for character |
| `UpdateImportPathsRule.RewrittenLiteralIsThirdParty` | src/rules/update-import-paths.rule.ts:53-58 | when the host's public entries are never relative, the literal `'` + public entry + `'` that the rule writes counts as third-party |
| `UpdateImportPathsRule.RewrittenImportYieldsNothing` | src/rules/update-import-paths.rule.ts:48-58 | when the host's public entries are never relative, an import carrying a literal the rule wrote yields no modification and no abort |
| `UpdateImportPathsRule.SecondRunNoModifications` | src/rules/update-import-paths.rule.ts:41-63 | given a first run that succeeds, and a second list of statements that keeps each statement that yielded nothing and replaces each cross-module import by one carrying the literal written for its target, the second run collects no modifications |
| `NgSamurai.ModuleFileIsTsFile` | src/ng-samurai/index.ts:18-22 | a path ending in `module.ts` also ends in `.ts` |
| `NgSamurai.SubmoduleFor` | src/ng-samurai/index.ts:26-32 | the submodule rule is named by `getName` for the module file, is generated at the library root from `../submodule/files`, and generates neither a component nor a module |
| `NgSamurai.RulesForPath` | src/ng-samurai/index.ts:17-36 | a module file contributes its import-path, submodule and sub-entry rules in that order; another `.ts` file contributes only its import-path rule; any other path contributes nothing |
| `NgSamurai.NgSamuraiRules` | src/ng-samurai/index.ts:10-41 | the chained list is the visit's rules in visiting order, then the top-level public-API rule over the module paths, then the tsconfig-paths rule |
| `NgSamurai.RuleCount` | src/ng-samurai/index.ts:14-39 | the list has `#ts + 2 * #module + 2` rules |
| `NgSamurai.VisitRuleCount` | src/ng-samurai/index.ts:17-36 | the visit pushes `#ts + 2 * #module` rules |
| `NgSamurai.ImportRulesAreTsFiles` | src/ng-samurai/index.ts:17-20 | the import-path rules, in order, are exactly one per `.ts` file, in visiting order |
| `NgSamurai.VisitImportRules` | src/ng-samurai/index.ts:17-20 | the same for the rules pushed during the visit |
| `NgSamurai.ModulePathsAreModuleFiles` | src/ng-samurai/index.ts:22-23 | the module paths are the order-preserving subsequence of the visited paths that end in `module.ts` |
| `NgSamurai.ModuleFileRules` | src/ng-samurai/index.ts:18-35 | a module file's three rules stand consecutively, right after the rules of the files visited before it |
| `NgSamurai.ClosingRules` | src/ng-samurai/index.ts:37-38 | the last two rules are the top-level public-API rule over the module files, then the tsconfig-paths rule |

## Left out

- The TypeScript parser (`createSourceFile`, `getChildren`, `getText`, `forEachChild`) is a foreign library. A parsed file is given as its sequence of top-level statements.
- `findModule`, `convertToAbsolutPath`, `getFolderPath`, `convertModulePathToPublicAPIImport`, `getName` and `getLibRootPath` live in files that are not part of this model. All but `getLibRootPath` are function-typed parameters, and `findModule` returns `None` where it would throw. `getLibRootPath(tree)` reads the host tree, so `NgSamuraiRules` takes its result as the string `libRootPath`.
- Reading the file, `tree.overwrite` and `tree.getDir(...).visit` are host I/O. The text and the visit order are inputs, and the rewritten text is the result.
- `console.error` and `process.exit` are process side effects. They become the `Failure` result.
- `chain`, `submodule`, `updateSubentryPublicAPI`, `updateTopLevelPublicAPI` and `addTsconfigPaths` are code generation that is not part of this model. They appear only as `Rule` tags with the arguments the entry rule passes.
- The unused `order` variable of `getImportPathModifications` is left out.
- JavaScript's `slice` also accepts negative indices. Positions here come from the parser and are never negative, so they are `nat`.
- Text encoding: the file text is the JavaScript string as a sequence of UTF-16 code units, and `pos`, `end` and the `slice` positions count code units. Decoding the file from UTF-8 when it is read and encoding it again in `tree.overwrite` are outside the model.
- RewrittenTextIsRebuild: does not cover a last import literal that ends at the very end of the text with no `;` or line break after it. The model's clamping splice handles that case as `slice` does, but the lemma requires every literal to be followed by at least one character.
