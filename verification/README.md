# ts-importer, modelled in Dafny

ts-importer is a Visual Studio Code extension for TypeScript. It does three things:

- It scans the workspace for exported declarations and for the names other files import from non-relative modules, and keeps them in a symbol index.
- It offers every indexed symbol that the open document does not already define or import as a completion item.
- When an item is picked, it either merges the name into a matching `import` statement or inserts a new one.

This project models the pure logic inside the editor glue. Each part is modelled with immutable datatypes and pure functions, and with short methods where the source loops:

- **Symbol index** (`Symbols`, `ImportIndex`): a map from a symbol name to its `Symbol` records. It supports upsert with back-fill, targeted deletion, deletion by file path, and lookup by exact, prefix, suffix or substring match.
- **File scanner** (`Captures`, `ImportIndexer`):
  - it resolves a file's module name through the `paths["*"]` aliases of `tsconfig.json`;
  - it turns declaration and import matches into records;
  - it filters the workspace files and processes them in batches.
- **Import synthesiser** (`Importer`): it formats import statements, chooses between the alias and the relative module, and decides whether to merge into an existing statement or insert a new one.
- **Extension stripping and completion** (`FileExtensions`, `Completion`): it parses the configured extension list, strips the first matching extension, maps a symbol to its completion kind, and filters the completion list.

Shared pieces:

- `Wrappers` holds `Option` and `Result`.
- `Text` holds the string operations the source uses: `trim`, `split`, `join`, `indexOf`, `startsWith`, `endsWith`, and the string order of `sort()`.

JavaScript's `undefined` is `None` of an `Option`. A field counts as truthy when it is `Some` of a non-empty string, which is how the source's `||` and `if (x)` treat it.

The host environment enters as parameters:

- The disk check `exists` is the parameter `onDisk`.
- `path.resolve` and `path.relative` are given as functions.
- A file's text enters as the capture groups its regular expressions produce.

JavaScript does not fix the iteration order of the index's keys. The methods that scan every key therefore pick keys in any order, and their results are stated as multisets.

## Model

| member | source | states |
|---|---|---|
| Symbols.Or | src/ImportIndex.ts:184-187 | JavaScript `a \|\| b` on optional strings: the result is truthy iff either side is; a truthy left side is the result, and otherwise the right side is |
| Symbols.Prune | src/ImportIndex.ts:139-148 | a record survives iff its module is not among the removed ones and it has no path or its path exists on disk; at most one record per module stays true |
| Symbols.PruneAppend | src/ImportIndex.ts:139-148 | pruning a concatenation prunes each part and concatenates, so the survivors keep their order as the forward loop does |
| Symbols.PruneSingle | src/ImportIndex.ts:139-148 | a one-record list keeps its record iff the module is not removed and the record survives the disk check |
| Symbols.PruneTwice | src/ImportIndex.ts:133-154 | pruning by two module sets one after the other equals pruning once by their union, so repeated deletions under one name compose |
| Symbols.FlattenPick | src/ImportIndex.ts:65-73 | the records of an index are those under any one key plus those under the other keys, so a count may visit the keys in any order |
| ImportIndex.MatchModes | src/ImportIndex.ts:20-39 | an exact match is also a prefix and a suffix match, and each of those is also a substring match |
| ImportIndex.ResetIndex | src/ImportIndex.ts:61-63 | the reset index is well formed and holds no record |
| ImportIndex.SymbolCount | src/ImportIndex.ts:65-73 | the sum of the list lengths is the number of stored records, whatever the key order |
| ImportIndex.GetSymbols | src/ImportIndex.ts:75-91 | an exact case-sensitive lookup returns the list stored under the name, or the empty list; in every mode the result holds, with multiplicity, exactly the records stored under the keys that `matches` accepts |
| ImportIndex.ScanSymbols | src/ImportIndex.ts:82-90 | the scan gathers, with multiplicity, exactly the records under matching keys, whatever order the keys are visited in |
| ImportIndex.FastPathAgrees | src/ImportIndex.ts:77-90 | the exact case-sensitive fast path returns the same records as the scan with `matches` would |
| ImportIndex.AnyEmptySelectsAll | src/ImportIndex.ts:20-39 | an empty test in substring mode matches every key, with or without case folding |
| ImportIndex.AllSymbols | src/TypeScriptImporter.ts:197 | `getSymbols("", true, ANY)` returns every stored record, as many as `symbolCount` counts |
| ImportIndex.ModuleLessIrreflexive | src/ImportIndex.ts:111 | the order `sort()` puts modules in is irreflexive |
| ImportIndex.ModuleLessTransitive | src/ImportIndex.ts:111 | the order `sort()` puts modules in is transitive |
| ImportIndex.ModuleLessTotal | src/ImportIndex.ts:111 | any two distinct modules are ordered one way or the other, with `undefined` last |
| ImportIndex.InsertModule | src/ImportIndex.ts:111 | inserting into a strictly sorted list keeps it strictly sorted and adds exactly the new element |
| ImportIndex.SortModules | src/ImportIndex.ts:111 | the sorted list is strictly ordered, holds the same modules, and keeps the length of a duplicate-free input |
| ImportIndex.AddModules | src/ImportIndex.ts:101-107 | the inner loop adds every matching module of a list, keeps the list free of duplicates, and adds nothing that does not match |
| ImportIndex.GetModules | src/ImportIndex.ts:93-114 | the result is strictly sorted, hence free of duplicates, and holds exactly the modules of stored records that match the filter |
| ImportIndex.Delete | src/ImportIndex.ts:133-154 | other names are untouched; under the record's name a record remains iff its module differs and it survives the disk check; an emptied name is removed; the list left under the name is the old one pruned, in its order; the index stays well formed |
| ImportIndex.BackFill | src/ImportIndex.ts:178-189 | a truthy new field is kept; a truthy field of a same-module record is never lost; `isDefault` never goes from true to false; with no same-module record the new record is unchanged |
| ImportIndex.BackFillUnique | src/ImportIndex.ts:182-188 | with at most one record per module, the back-fill is the field-wise merge with the one same-module record |
| ImportIndex.AddSymbol | src/ImportIndex.ts:156-196 | a name that trims to empty leaves the index unchanged; otherwise the trimmed name's list starts with the back-filled record, no other record there has its module, the rest are the other-module records that survive the disk check, in their old order, other names are untouched, and the index stays well formed |
| ImportIndex.AddValid | src/ImportIndex.ts:172-195 | storing the new record ahead of the surviving other-module records keeps one record per (name, module) and no empty list |
| ImportIndex.AddSymbolBackFill | src/ImportIndex.ts:182-188 | against the stored same-module record, each of path, type and `asDefinition` takes the new value when truthy and the old one otherwise, and `isDefault` is the disjunction |
| ImportIndex.DeleteStep | src/ImportIndex.ts:129-130 | deleting one more collected record equals removing the enlarged set of records, so the deletion order does not matter |
| ImportIndex.DeleteAllRemoves | src/ImportIndex.ts:129-130 | deleting a list of records one by one equals removing the set of them at once |
| ImportIndex.Purged | src/ImportIndex.ts:116-154 | after deletion by path, no stored record has that path and nothing new appears; under a name that held such a record, a record remains iff its module is not one of the deleted records' modules and it has no path or its path exists on disk, and the name goes when none remains; names without such a record are untouched; the index stays well formed |
| ImportIndex.PurgedKeepsSibling | src/ImportIndex.ts:116-154 | of two records under one name, the one with the deleted path goes and a pathless one of another module stays |
| ImportIndex.PurgedClean | src/ImportIndex.ts:116-131 | removing the records with a path leaves no record with that path |
| ImportIndex.PurgedKeeps | src/ImportIndex.ts:116-131 | names with no record carrying the path keep their lists unchanged |
| ImportIndex.PurgedIdempotent | src/ImportIndex.ts:116-131 | a second deletion by the same path changes nothing |
| ImportIndex.CollectFromList | src/ImportIndex.ts:124-126 | a record is collected from a list iff it carries the path, and nothing collected earlier is lost |
| ImportIndex.CollectByPath | src/ImportIndex.ts:118-127 | the first loop collects exactly the stored records that carry the path |
| ImportIndex.DeleteByPath | src/ImportIndex.ts:116-131 | the two loops together compute the deletion by path, whatever the key order |
| Text.TrimEmpty | src/ImportIndex.ts:158-161 | a name trims to empty iff it is all whitespace |
| Text.TrimIdempotent | src/ImportIndex.ts:158 | trimming an already trimmed name changes nothing |
| Text.SplitAvoids | src/ImportIndexer.ts:66 | no piece of a split contains a separator |
| Text.JoinSplit | src/ImportIndexer.ts:66-69 | splitting on a set of separators and joining with one character replaces every separator with that character |
| Text.SplitJoin | src/ImportIndexer.ts:66-69 | splitting the join of separator-free pieces gives back the pieces |
| Text.SplitCount | src/TypeScriptImporter.ts:82 | splitting on a character yields one piece more than the character occurs |
| Text.SplitListCount | src/ImportIndexer.ts:244 | splitting on `\s*,\s*` yields one piece more than there are commas |
| Text.SplitListShape | src/ImportIndexer.ts:244 | no piece contains a comma, no piece after the first starts with whitespace, and no piece before the last ends with it |
| Text.SplitListTrimmed | src/TypeScriptImporter.ts:82 | the pieces of a trimmed list are trimmed |
| Text.SplitListJoin | src/Importer.ts:46-60 | a list of trimmed comma-free names joined with `, ` splits back into the same names |
| Text.SplitListJoinComma | src/TypeScriptImporter.ts:82 | trimmed comma-free names joined with `,` split back into the same names |
| Text.SplitCommaJoin | src/ImportIndexer.ts:11 | comma-free patterns joined with `,` split on commas into the same patterns |
| Text.StrLessTransitive | src/ImportIndex.ts:111 | the string order used by `sort()` is transitive |
| Text.StrLessTotal | src/ImportIndex.ts:111 | any two distinct strings are ordered one way or the other |
| Text.ContainsSuffix | src/TypeScriptImporter.ts:29 | a string contains each of its suffixes |
| FileExtensions.ParseExtensionsShape | src/TypeScriptImporter.ts:82 | the configured list, or the default, gives one extension per comma-separated field, each trimmed and free of commas |
| FileExtensions.DefaultList | src/TypeScriptImporter.ts:82 | the default setting gives the extensions `.d.ts`, `.ts` and `.tsx`, in that order |
| FileExtensions.RemoveFileExtension | src/TypeScriptImporter.ts:127-138 | a name with no matching extension is returned unchanged; otherwise the result followed by the first matching extension is the name |
| FileExtensions.FirstSuffixCases | src/TypeScriptImporter.ts:129-134 | either no extension matches or exactly one is the first match |
| FileExtensions.FirstMatchExists | src/TypeScriptImporter.ts:129-134 | if any extension matches, a first matching one exists |
| FileExtensions.FirstNotLongest | src/TypeScriptImporter.ts:129-134 | the first match is not necessarily the longest: with `.ts` listed before `.d.ts`, `index.d.ts` becomes `index.d` |
| FileExtensions.DefaultStripsDeclaration | src/TypeScriptImporter.ts:82 | with the default list, `index.d.ts` becomes `index` |
| FileExtensions.StripDeclaration | src/TypeScriptImporter.ts:127-138 | any list that starts with `.d.ts` strips `index.d.ts` to `index` |
| Captures.LineLength | src/ImportIndexer.ts:250 | the first line ends at the first line terminator, or at the end of the text |
| Captures.FirstLineHasNoBreak | src/ImportIndexer.ts:250 | what `.*` captures holds no line terminator |
| Captures.FirstLineWhole | src/ImportIndexer.ts:250 | a binding without line terminators is captured whole by `.*` |
| Captures.AsClause | src/ImportIndexer.ts:250 | the alias captured after `\s+as\s+` does not start with whitespace and holds no line terminator |
| Captures.NamespaceAlias | src/ImportIndexer.ts:250-257 | a binding without `*` has no alias; a captured alias does not start with whitespace and holds no line terminator |
| Captures.NamespaceAliasRoundTrip | src/ImportIndexer.ts:250-257 | the alias read from `* as X` is exactly `X` |
| ImportIndexer.ToGlob | src/ImportIndexer.ts:9-12 | a single pattern is returned unchanged; any other list is wrapped in braces |
| ImportIndexer.ToGlobRoundTrip | src/ImportIndexer.ts:9-12 | the braces of a multi-pattern glob enclose the comma-free patterns, separated by commas, in order |
| ImportIndexer.ToStringArray | src/ImportIndexer.ts:14-22 | undefined gives the empty list, a string the one-entry list of it, and an array is passed through unchanged |
| ImportIndexer.ToStringArrayStable | src/ImportIndexer.ts:14-22 | reading a list back as a setting gives the same list, and a single pattern becomes its own glob |
| ImportIndexer.AliasPrefixShape | src/ImportIndexer.ts:66-69 | the prefix followed by the resolved path's last segment is the path with `/` as separator, and the prefix ends in `/` whenever the path has a separator |
| ImportIndexer.ResetPaths | src/ImportIndexer.ts:58-76 | without a `paths["*"]` entry there are no aliases; otherwise prefix `i` is the alias prefix of entry `i`, resolved, in the configured order |
| ImportIndexer.ResetPathsPrefixes | src/ImportIndexer.ts:64-70 | prefix `i` followed by the last segment of entry `i`, resolved, is that resolved path written with `/` separators |
| ImportIndexer.ResetPathsEndWithSlash | src/ImportIndexer.ts:64-70 | every stored prefix ends in `/` |
| ImportIndexer.PrefixModule | src/ImportIndexer.ts:212-220 | the module is undefined iff no prefix matches; otherwise the first matching prefix in list order followed by the module is the path |
| ImportIndexer.BindingArgs | src/ImportIndexer.ts:248-259 | an imported name is recorded under the specifier, without path or type, as a default iff the opening group is not `{` |
| ImportIndexer.ImportArgs | src/ImportIndexer.ts:236-262 | an import yields no record iff it has no bindings or its specifier contains `./` or `!`; every record it yields carries the specifier and no path or type |
| ImportIndexer.ImportArgsPlain | src/ImportIndexer.ts:244-259 | a braced list of plain names yields one non-default record per name, in order |
| ImportIndexer.ImportArgsNamespace | src/ImportIndexer.ts:250-259 | `* as X` yields one default record named `X` whose `asDefinition` is the whole binding |
| ImportIndexer.ImportsArgs | src/ImportIndexer.ts:233-262 | no record from an import carries a path |
| ImportIndexer.AddAll | src/ImportIndexer.ts:224-231 | adding records one after the other keeps the index well formed |
| ImportIndexer.ProcessFile | src/ImportIndexer.ts:200-263 | scanning a file keeps the index well formed |
| ImportIndexer.AddHas | src/ImportIndex.ts:156-196 | after an add with a non-empty name, a record of that name and module is stored |
| ImportIndexer.AddKeeps | src/ImportIndex.ts:156-196 | when every path exists, a later add never loses a stored (name, module) pair |
| ImportIndexer.AddAllKeeps | src/ImportIndexer.ts:224-259 | when every path exists, a run of adds never loses a stored (name, module) pair |
| ImportIndexer.AddAllHas | src/ImportIndexer.ts:224-259 | when every path exists, every added record with a non-empty name is stored under its (name, module) at the end of the run |
| ImportIndexer.ProcessFileRecordsAll | src/ImportIndexer.ts:200-263 | when every path exists, every declaration and imported name of a file with a non-empty name is in the index after the scan |
| ImportIndexer.DeclarationRecorded | src/ImportIndexer.ts:222-231 | for a file whose only capture is one declaration, scanned without `deleteByFile`, when no record of that name has the file's module yet: the record stored first under the trimmed name carries the resolved alias module, the raw file path, the captured kind, `isDefault` iff `default` was captured, and no `asDefinition` |
| ImportIndexer.BackFillPathFrom | src/ImportIndex.ts:184 | a back-filled path comes from the new record or from a stored one |
| ImportIndexer.AddPathOnlyUnder | src/ImportIndex.ts:156-196 | if the records carrying a path sit only under given names, they still do after an add whose record carries that path only under one of those names |
| ImportIndexer.AddAllPathOnlyUnder | src/ImportIndexer.ts:224-259 | a run of adds keeps every record carrying the path under the names declared with it |
| ImportIndexer.ProcessFileReplaces | src/ImportIndexer.ts:202-231 | with `deleteByFile`, after the rescan the file's path appears only under names the file itself declares |
| ImportIndexer.FilterIndexable | src/ImportIndexer.ts:152-156 | a file is kept iff its path contains none of `typings`, `node_modules` and `jspm_packages` |
| ImportIndexer.FilterAppend | src/ImportIndexer.ts:152-156 | filtering a concatenation is concatenating the filtered parts, so the kept files stay in their order |
| ImportIndexer.FilterSingle | src/ImportIndexer.ts:152-156 | a single file is kept iff it is indexable |
| ImportIndexer.FilterCount | src/ImportIndexer.ts:152-156 | each indexable file is kept as often as it occurs, and every other file is dropped |
| ImportIndexer.FilterKeepsIndexable | src/ImportIndexer.ts:152-156 | a list of indexable files passes the filter unchanged |
| ImportIndexer.FilterIdempotent | src/ImportIndexer.ts:152-156 | filtering twice is filtering once |
| ImportIndexer.ProcessFiles | src/ImportIndexer.ts:160-178 | scanning a run of files keeps the index well formed |
| ImportIndexer.RunBatch | src/ImportIndexer.ts:162-178 | one step scans the next files in order, at most 50 of them, and fewer only when the list is exhausted |
| ImportIndexer.RunBatches | src/ImportIndexer.ts:160-196 | the steps scan every file exactly once and in order; every step but the last is full, and a last step after others is not empty |
| ImportIndexer.ProcessWorkspaceFiles | src/ImportIndexer.ts:150-197 | the index is the result of scanning the filtered files in order, in batches of 50 that sum to the number of filtered files |
| Importer.CreateImportDefinition | src/Importer.ts:79-94 | without brackets the definitions are returned as they are; with brackets they are wrapped in `{` and `}`, with exactly one space just inside each brace iff `spaceBetweenBraces` and nothing else added |
| Importer.DefinitionRoundTrip | src/Importer.ts:79-94 | removing the braces and trimming gives back the trimmed definitions |
| Importer.CreateImportStatement | src/Importer.ts:96-103 | the statement is `import`, the definition, `from`, and the module between two quotes, followed by `;` iff `emitSemicolon` and then a newline iff `endline`; the quote is `"` iff `doubleQuotes` |
| Importer.StatementRoundTrip | src/Importer.ts:96-103 | the quoted specifier read back from a formatted statement is the module it was made from |
| Importer.AnchoredShape | src/Importer.ts:125-126 | one segment is added in front iff the first part is neither `.` nor `..`, and that segment is `.`; the other parts keep their order |
| Importer.SegmentsShape | src/Importer.ts:121-133 | the parts keep their order behind a leading `.` or `..`, an added leading segment is `.`, and only the last part loses its extension |
| Importer.RelativeModuleSegments | src/Importer.ts:121-133 | split at `/`, the relative module is the parts behind an added `.` when they do not start with `.` or `..`, with only the last part's extension stripped |
| Importer.SegmentsSplit | src/Importer.ts:132 | joining the segments with `/` can be undone by splitting at `/` |
| Importer.SlashFreeParts | src/Importer.ts:123 | no part of the relative path contains `/` |
| Importer.StrippedSlashFree | src/Importer.ts:130 | stripping an extension brings in no `/` |
| Importer.AnchoredMembers | src/Importer.ts:125-126 | each anchored segment is `.`, one of the parts, or the stripped last part |
| Importer.LastSuffixStrips | src/TypeScriptImporter.ts:127-138 | the stripped name followed by the removed extension is the original name |
| Importer.ResolveModule | src/Importer.ts:105-119 | without a module the relative form is used; with one and no `preferRelative`, the module; with `preferRelative`, the shorter of the two, and the relative form on a tie |
| Importer.Merged | src/Importer.ts:46-51 | the existing bindings keep their order and the name is among the result; the list grows by one iff the name was absent |
| Importer.MergedIdempotent | src/Importer.ts:50-51 | merging a name that is already present changes nothing |
| Importer.FirstAccepted | src/Importer.ts:38-64 | the statement chosen is the first that matches the module and default-ness and is not refused by the default rule; otherwise none is accepted |
| Importer.ImportSymbol | src/Importer.ts:24-77 | the first accepted statement is replaced, at its line, by the merged statement; an insert happens iff none is accepted, one line after the last import or at line 0 |
| Importer.ScanAsWritten | src/Importer.ts:38-64 | as written, any statement the scan settles on is accepted |
| Importer.AsWrittenAgrees | src/Importer.ts:40-64 | when every candidate statement has bindings, the code as written and the corrected decision agree |
| Importer.SideEffectImportThrows | src/Importer.ts:44-46 | a default symbol whose module is already imported for side effects makes the code as written fail; the corrected decision inserts a new statement |
| Completion.KindFor | src/TypeScriptImporter.ts:27-36 | no type gives File; otherwise the first of `class`, `interface` and `function` the type contains picks Class, Interface or Function, and none gives Variable |
| Completion.ClassSuffix | src/TypeScriptImporter.ts:29-30 | any keyword that ends in `class` is shown as a class |
| Completion.FunctionPrefix | src/TypeScriptImporter.ts:33-34 | a type starting with `function` that has no `l` and no `r`, so contains neither `class` nor `interface`, is shown as a function |
| Completion.CompoundKeywords | src/TypeScriptImporter.ts:27-36 | `abstract class` is shown as a class and `function*` as a function |
| Completion.DocumentIndex | src/TypeScriptImporter.ts:192-193 | the freshly reset index of the open document is well formed |
| Completion.Keep | src/TypeScriptImporter.ts:197-204 | every symbol kept is one the document does not know by name |
| Completion.KeepCount | src/TypeScriptImporter.ts:197-204 | a symbol is kept as often as it occurs if the document does not know its name, and never otherwise |
| Completion.OfferedItems | src/TypeScriptImporter.ts:195-204 | the loop builds one item per offered symbol, in order |
| Completion.OfferedCounts | src/TypeScriptImporter.ts:197-204 | each item describes its symbol, and each symbol appears as often as it does in the input if offered, and never otherwise |
| Completion.ProvideCompletionItems | src/TypeScriptImporter.ts:190-207 | the items are exactly the indexed records, with multiplicity, whose name has no exact case-sensitive match in the document's own index; each item shows the record's name, the kind its type maps to, and its module if truthy or else its path |
| Completion.AddAllNames | src/TypeScriptImporter.ts:193 | every name the document adds is known to its index afterwards |
| Completion.DeclaredNotOffered | src/TypeScriptImporter.ts:192-204 | a symbol whose name the document itself declares is never offered |

## Left out

- Editor plumbing is not modelled: the workspace, `findFiles`, the file watcher, completion and code-action objects, the status bar, notifications and `applyEdit`. It is host plumbing. `ImportSymbol` returns the edit as data instead.
- The 250 ms debounce of the file watcher and the `setTimeout` yield between batches are not modelled, because they are timers. `RunBatches` models only the order of the batch loop.
- `fs.readFileSync`, `fs.statSync` and the `JSON.parse` of `tsconfig.json` are I/O:
  - the disk check is the parameter `onDisk`;
  - the `paths["*"]` entry is an optional input of `ResetPaths`;
  - a file that fails to load (src/ImportIndexer.ts:174-177) has no captures, and `StepFile` skips it and leaves the index as it was, as the `catch` does; why the read fails is not modelled.
- `path.resolve`, `path.relative` and `path.dirname` are library calls. `ResetPaths` takes `resolve` and `ResolveModule` takes `relative` as function parameters.
- The regular expression engines (src/ImportIndexer.ts:222, 233 and src/Importer.ts:28) are not modelled. A file enters as the sequence of capture groups its matches produce. The `* as` pattern of src/ImportIndexer.ts:250 is modelled, because the scanner applies it to a string the model already holds.
- `document.positionAt(currentDoc.indexOf(matches[0]))` depends on the editor's line mapping. Each `ImportStatement` therefore carries the line of the first textual occurrence of its match, and the column and range of the replacement are not modelled.
- The import-line branch of `provideCompletionItems` (src/TypeScriptImporter.ts:170-188) and `provideModuleCompletionItems` are not modelled. Code actions and `getSymbolsForDiagnostic` are not modelled either. All of these are outside the symbol logic above.
- `Text.Lower`: `toLocaleLowerCase` is modelled for ASCII letters only, because locale-dependent case mapping depends on the runtime.
- Strings are sequences of characters, not of UTF-16 code units. The string order of `sort()` is the order of Dafny characters.
- A plain JavaScript object used as the index has prototype keys such as `constructor`. The model uses a clean map.
- Console logging, `scanStarted`/`scanEnded` timing and the reindex and dump commands are not modelled.
- `emitSemicolon` is read on the extension object but not declared there. It is a field of `Settings`.
- Importer.RelativeModuleSegments: guarantees a leading `.` or `..` only when the result has at least two segments. A lone `.` part is itself the last segment, so its extension strip applies to it too.
- ImportIndexer.ProcessFileRecordsAll: requires every path to exist on disk. A record whose file is gone can be pruned by a later add under the same name, as the source does.
- ImportIndexer.AddKeeps: requires every path to exist on disk, for the same reason.
- ImportIndexer.DeclarationRecorded: states the stored record only for a file with a single declaration, scanned without `deleteByFile`, whose (name, module) is new. A stored record of the same module back-fills the kind and `asDefinition`, as `AddSymbolBackFill` states, and a later capture of the same name takes the head of the list.

Three behaviours of the code that are easy to misread:

- Back-fill keeps the new value of a field when it is truthy and falls back to the stored one otherwise, so the last truthy value wins.
- An import is skipped when its specifier contains `./` anywhere, not only when it starts with `./`.
- `delete` also prunes stale-path records of other modules under the same name.

## Findings

| source | as written | input that shows it | evidently intended | confidence | as-written member | corrected member |
|---|---|---|---|---|---|---|
| src/Importer.ts:44-46 | a statement whose specifier equals the module and whose default-ness equals the symbol's has `matches[2].split(...)` called on it, even for a side-effect import, whose group 2 is undefined, so a TypeError is thrown | the document holds `import "lib"` on line 3 and the symbol is a default export of module `lib` | statements without a binding list are passed over, and a new statement is inserted on line 4 | not executed | Importer.SideEffectImportThrows | Importer.ImportSymbol |
