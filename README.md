# Offset table generator, modelled in Dafny

`Main.py` reads C++ headers produced by an offset dumper. Each header has
lines such as `namespace client_dll {` and
`constexpr std::ptrdiff_t dwEntityList = 0x1A1F730;`. The script collects
these lines into a table of namespaces. Each namespace maps offset names to
their hexadecimal literals. From that table it writes three files:

- a JSON dump of the table;
- a stub header `offsets.hpp`, with one `inline struct <ns>Offsets { DWORD <name>; … } <ns>;` per namespace;
- `set_offsets.cpp`, with one `<ns>.<name> = findOffsetByName(j, "<ns>", "<name>");` assignment per entry.

The Dafny project models the pipeline's pure core:

- the name sanitiser `convert_name`;
- the two regular expressions, as deterministic anchored matchers plus a leftmost search;
- the per-file line scanner `parse_cpp_offsets`, with its namespace cursor, its last-write-wins insertion and its pruning of empty namespaces;
- the cross-file merge `process_all_cpp_files`;
- the two text emitters `generate_hpp` and `generate_cpp_offset_code`;
- their composition `generate_files`.

Python dicts keep insertion order, and the order is visible in every output.
So a dict is modelled as `Dict(keys, items)`: a sequence of distinct keys in
insertion order plus a map (module `Dicts`). The order of the keys and the
contents of the map are both stated.

Every loop of the source is a `method` with a `while` loop. Each method is
proved equal to a specification function: a left fold over prefixes of the
input. The properties are proved about those functions:

- the cursor rule;
- last write wins;
- values are stored verbatim;
- pruning keeps first-appearance order;
- the merge is a right-biased union;
- the order of the namespaces and of the names inside each, within a file and across files;
- the line structure of the assignment code and the line count of the header.

Modules:

- `Wrappers`: `Option`.
- `Dicts`: insertion-ordered dictionaries, `dict[k] = v` and `dict.update`.
- `Names`: `convert_name`.
- `Patterns`: the two patterns and `re.search`.
- `Parser`: `parse_cpp_offsets`.
- `Aggregator`: `process_all_cpp_files`.
- `Emitters`: `generate_hpp` and `generate_cpp_offset_code`.
- `Pipeline`: `generate_files`, and end-to-end properties on concrete line shapes.

## Model

| member | source | states |
|---|---|---|
| Dicts.Lookup | Main.py:42 | `k in d` is true exactly when a value is found, and the value found is the stored one |
| Dicts.Put | Main.py:43 | `d[k] = v` keeps the dict valid and maps `k` to `v`; an existing key keeps its position, a new key is appended at the end |
| Dicts.PutKeys | Main.py:43 | `d[k] = v` appends `k` to the key order exactly when `k` is not yet a key |
| Dicts.Empty | Main.py:24 | `{}` is a valid dict with no keys and no items |
| Dicts.NewKeys | Main.py:100 | the keys `update` appends are exactly those of the argument that are not yet present, and they are distinct |
| Dicts.Update | Main.py:100 | `d.update(e)` keeps the dict valid |
| Dicts.UpdatePrefix | Main.py:100 | `d.update(e)` stopped after the first `n` keys of `e`: those keys are written one by one, in `e`'s order, each with `e`'s value; the result is a valid dict |
| Dicts.UpdatePrefixKeysStep | Main.py:100 | writing the next key of `e` appends it to the key order exactly when `d` did not have it |
| Dicts.UpdatePrefixHas | Main.py:100 | after the first `n` keys of `e`, a key is present exactly when `d` had it or it is among those `n` keys |
| Dicts.UpdatePrefixKeys | Main.py:100 | after updating with the first `n` entries of `e`, the key order is the old order followed by the new keys of those entries, in `e`'s order |
| Dicts.UpdatePrefixLookup | Main.py:100 | after updating with the first `n` entries of `e`, a key takes `e`'s value if it is among those entries, and keeps its old value otherwise |
| Dicts.UpdateIsRightBiasedUnion | Main.py:100 | `d.update(e)` is the right-biased map union `d + e`; its keys are `d`'s keys followed by `e`'s new keys |
| Dicts.NewKeysFromEmpty | Main.py:99-100 | updating an empty dict appends all of `e`'s keys in order |
| Dicts.UpdateIntoEmpty | Main.py:99-100 | `{}.update(e)` equals `e`, order included |
| Dicts.Entry | Main.py:50 | a lookup of `table[ns][name]` succeeds exactly when both keys are present |
| Names.ReplaceAll | Main.py:8 | `s.replace(pat, rep)` with a non-empty pattern: occurrences are found from left to right, do not overlap, and each is replaced by `rep` |
| Names.ConvertName | Main.py:7-8 | `convert_name`: replace `::`, then space, then `-` by `_`, in that order |
| Names.ConvertNameIsNormalize | Main.py:7-8 | the three chained `replace` calls equal a single left-to-right pass that turns `::` into `_` and every space and `-` into `_` |
| Names.NormalizeIsClean | Main.py:7-8 | the single-pass normaliser's output has no `::`, no space and no `-` |
| Names.NormalizeKeepsClean | Main.py:7-8 | the normaliser leaves an already clean name unchanged |
| Names.NormalizeAddsOnlyUnderscores | Main.py:7-8 | a character other than `_` that is absent from the input is absent from the output |
| Names.ConvertNameIsClean | Main.py:7-8 | `convert_name`'s output has no `::`, no space and no `-` |
| Names.ConvertNameKeepsClean | Main.py:7-8 | `convert_name` leaves a name without `::`, space or `-` unchanged |
| Names.ConvertNameIdempotent | Main.py:7-8 | `convert_name(convert_name(s)) == convert_name(s)` for every string |
| Names.NormalizeWithoutColons | Main.py:7-8 | without `:` in the input, the output has the same length and differs only where a space or `-` became `_` |
| Names.ConvertNameExample | Main.py:7-8 | `convert_name("My Var-Name") == "My_Var_Name"` |
| Patterns.Span | Main.py:28-30 | a greedy run (`\s*`, `\w+`, `[0-9a-fA-F]+`) takes the longest prefix of class characters and stops at the first character outside the class |
| Patterns.MatchNamespaceAt | Main.py:28 | a match at a position starts with `namespace`, sees a `{` and captures a `\w+` identifier |
| Patterns.MatchOffsetAt | Main.py:30 | a match at a position starts with `constexpr`, sees a `;`, and captures a `\w+` name and a `0x` hex literal |
| Patterns.OffsetAfterKeyword | Main.py:30 | after the keyword, a match captures a `\w+` name and a `0x` hex literal and sees a `;` |
| Patterns.OffsetAfterName | Main.py:30 | after the name, a match keeps that name, captures a `0x` hex literal and sees a `;` |
| Patterns.SearchNamespace | Main.py:39 | a successful namespace search captures a `\w+` identifier |
| Patterns.SearchOffset | Main.py:46 | a successful declaration search captures a `\w+` name and a `0x` hex literal |
| Patterns.ClassifyLine | Main.py:39-49 | both searches run on every line; every namespace or declaration captured is well formed |
| Patterns.SearchNamespaceFailsIffNoMatch | Main.py:39-40 | `namespace_pattern.search(line)` fails exactly when the pattern matches at no position |
| Patterns.SearchNamespaceIsLeftmost | Main.py:39 | the namespace search returns the match at the leftmost matching position |
| Patterns.SearchOffsetFailsIffNoMatch | Main.py:46-47 | `offset_pattern.search(line)` fails exactly when the pattern matches at no position |
| Patterns.SearchOffsetIsLeftmost | Main.py:46 | the declaration search returns the match at the leftmost matching position |
| Patterns.NoBraceNoNamespace | Main.py:28 | a line without `{` never opens a namespace |
| Patterns.NoSemicolonNoOffset | Main.py:30 | a line without `;` never declares an offset |
| Patterns.SpanOfConcat | Main.py:28-30 | a run stops exactly at the end of a prefix made of class characters |
| Patterns.NamespaceLineMatches | Main.py:28 | `namespace`, spaces, an identifier, optional spaces, then `{` matches and captures the identifier |
| Patterns.SkipOfConcat | Main.py:28-30 | skipping a class run removes exactly that run |
| Patterns.HexValueMatches | Main.py:30 | a `0x` literal followed by `;` is captured whole |
| Patterns.OffsetTailMatches | Main.py:30 | after a name, `\s*=\s*<hex>;` matches and yields that name and literal |
| Patterns.KeywordMatches | Main.py:30 | `constexpr` followed by whitespace hands matching over to the rest of the line |
| Patterns.TypeAndNameMatch | Main.py:30 | `std::ptrdiff_t`, whitespace and an identifier hand matching over to the tail after the name |
| Patterns.OffsetLineMatches | Main.py:30 | a full declaration prefix matches exactly as its tail after the name does |
| Patterns.SearchOffsetSkipsIndent | Main.py:46 | leading indentation does not change the declaration search result |
| Patterns.PunctuationNotInRun | Main.py:28-30 | `\s` and `\w` runs contain neither `;` nor `{` |
| Patterns.ClassifyNamespaceLine | Main.py:39-43 | `namespace <ns> {` followed by text without `;` opens `ns` and declares nothing |
| Patterns.OffsetLineFound | Main.py:46 | `constexpr std::ptrdiff_t <n> = <hex>;` is found with that name and literal |
| Patterns.OffsetLineHasNoBrace | Main.py:28 | an indented declaration line without `{` after it contains no `{` |
| Patterns.ClassifyOffsetLine | Main.py:39-49 | an indented declaration line opens no namespace and declares exactly its name and literal |
| Parser.Init | Main.py:24-25 | the scan starts with an empty table and no current namespace, a state that satisfies the scan invariant |
| Parser.Step | Main.py:39-50 | one line keeps the scan state valid: the cursor is either unset or names a namespace of the table |
| Parser.StepEffect | Main.py:39-50 | a line moves the cursor only when it opens a namespace, and changes at most the entry of its own declaration, under the updated cursor |
| Parser.ScanFrom | Main.py:37-50 | scanning any lines keeps the scan state valid |
| Parser.Scan | Main.py:24-50 | scanning a file from the initial state yields a valid state |
| Parser.PrunePrefixItems | Main.py:53 | pruning the first `n` namespaces keeps exactly those with entries, each unchanged |
| Parser.PrunePrefix | Main.py:53 | the comprehension run over the first `n` namespaces: each one with entries is kept, unchanged, after the earlier survivors; the result is a valid table |
| Parser.NonEmptyKeys | Main.py:53 | the namespaces of a key list whose tables have entries, in list order |
| Parser.PrunePrefixKeysStep | Main.py:53 | the next namespace is appended to the survivors exactly when its table has entries |
| Parser.PrunePrefixKeys | Main.py:53 | pruning keeps the surviving namespaces in their original order |
| Parser.Prune | Main.py:53 | the comprehension keeps exactly the namespaces with entries, with their contents unchanged and in their original order |
| Parser.Parse | Main.py:23-55 | the parsed table is a valid table |
| Parser.ParseCppOffsets | Main.py:23-55 | the line loop followed by pruning computes `Parse` of the file's lines |
| Parser.CursorIsLastNamespace | Main.py:25-41 | after any lines, the cursor is the namespace captured by the last line that opened one, or none |
| Parser.LastNamespace | Main.py:39-41 | the namespace captured by the last line that opens one, or none: what `current_namespace` holds after those lines |
| Parser.FirstAppearances | Main.py:41-43 | the namespaces opened by the lines, each once, in order of first opening |
| Parser.LastWrite | Main.py:46-50 | the literal of the last line declaring `name` while `ns` is the namespace last opened, or none |
| Parser.FirstDeclarations | Main.py:46-50 | the names declared while `ns` is the namespace last opened, each once, in order of first declaration |
| Parser.NamesOf | Main.py:50 | the names of namespace `ns`, in dict order; none when `ns` is absent |
| Parser.StepNames | Main.py:39-50 | one line appends a name to the current namespace's names exactly when it declares a name that namespace does not have yet; a re-declared name keeps its place |
| Parser.ScanNamesAreFirstDeclarations | Main.py:37-50 | before pruning, the names of each namespace are its first declarations, in that order |
| Parser.ParseNamesAreFirstDeclarations | Main.py:23-55 | a namespace is in the parsed table exactly when some name was declared under it, and its names are its first declarations, in that order |
| Parser.ScanKeysAreFirstAppearances | Main.py:42-43 | before pruning, the namespaces are those opened, in order of first appearance, each once |
| Parser.ScanEntryIsLastWrite | Main.py:46-50 | before pruning, the entry for `(ns, name)` is the value of the last declaration of `name` made while `ns` was current |
| Parser.ParseEntryIsLastWrite | Main.py:23-55 | in the parsed table, the entry for `(ns, name)` is the last such declaration's value, verbatim |
| Parser.FirstAppearancesSnoc | Main.py:42 | a namespace has appeared in a longer prefix exactly when it appeared earlier or the new line opens it |
| Parser.FirstAppearanceOpenedAt | Main.py:41-43 | every recorded namespace was opened by some line of the file |
| Parser.OpenedIsFirstAppearance | Main.py:41-43 | every namespace opened by some line is recorded |
| Parser.ParsedNamespaces | Main.py:41-53 | every parsed namespace has entries and was opened by some line; their order is the first-appearance order with empty namespaces removed |
| Parser.PutKeepsWellFormed | Main.py:43 | adding a namespace captured by `\w+` keeps every namespace and entry well formed |
| Parser.PutKeepsEntriesWellFormed | Main.py:50 | storing a `\w+` name with a `0x` literal keeps the entries well formed |
| Parser.StepKeepsWellFormed | Main.py:39-50 | one line keeps every namespace a `\w+` identifier, every name a `\w+` identifier and every value a `0x` literal |
| Parser.ScanIsWellFormed | Main.py:37-50 | the scanned table holds only identifiers and hex literals |
| Parser.ParseIsWellFormed | Main.py:23-55 | the parsed table holds only identifiers and hex literals |
| Parser.ScanFromAppend | Main.py:37-50 | scanning `a + b` equals scanning `a` and then `b` from the state reached |
| Parser.ScanWithoutNamespaceIsIdle | Main.py:47 | lines that open no namespace leave the initial state unchanged, so their declarations are ignored |
| Parser.OrphanDeclarationsDropped | Main.py:47 | lines before the first namespace opening do not affect the result |
| Parser.NoNamespaceNoOffsets | Main.py:47-53 | a file that never opens a namespace parses to the empty table |
| Parser.LastDeclarationWins | Main.py:48-50 | a final declaration made while `ns` is current sets the entry for its name to its literal, overriding earlier ones |
| Parser.SameLineDeclarationGoesToNewNamespace | Main.py:39-50 | a declaration on the line that opens `ns` is stored under `ns`, because the namespace check runs first |
| Aggregator.MergeNamespace | Main.py:98-100 | merging one namespace keeps the table valid |
| Aggregator.MergeNamespaceShape | Main.py:98-100 | a new namespace is appended with its entries; an existing one becomes the right-biased union of old and new entries |
| Aggregator.MergePrefix | Main.py:97-100 | merging the first `n` namespaces of a file keeps the table valid |
| Aggregator.MergeFile | Main.py:97-100 | merging a whole file keeps the table valid |
| Aggregator.MergeAll | Main.py:88-100 | merging a sequence of parsed files from `{}` yields a valid table |
| Aggregator.ParseEach | Main.py:93-94 | one parsed table per file, in file order, each equal to `Parse` of that file |
| Aggregator.Aggregate | Main.py:87-102 | the aggregate of all files is a valid table |
| Aggregator.MergeAllSnoc | Main.py:93-100 | one more file means one more merge step after the earlier files |
| Aggregator.MergePrefixSnoc | Main.py:97-100 | one more namespace means one more namespace merge |
| Aggregator.AggregateSnoc | Main.py:93-100 | the aggregate of `i + 1` files merges file `i` into the aggregate of the first `i` |
| Aggregator.MergeNamespaceInto | Main.py:98-100 | the `if not in: = {}` and `update` pair computes `MergeNamespace` |
| Aggregator.MergeInto | Main.py:97-100 | the inner loop computes `MergeFile` |
| Aggregator.ProcessAllCppFiles | Main.py:87-102 | the outer loop computes `Aggregate` of the files, in the order given |
| Aggregator.MergeNamespaceEntry | Main.py:98-100 | after a namespace merge, an entry of that namespace takes the new value when there is one and keeps the old value otherwise; other namespaces are untouched |
| Aggregator.MergePrefixEntry | Main.py:97-100 | after merging `n` namespaces, an entry takes the file's value when its namespace is among them and the file has the name |
| Aggregator.MergeFileEntry | Main.py:97-100 | after merging a file, an entry is the file's value if present and the old value otherwise |
| Aggregator.MergeNamespaceKeys | Main.py:98-99 | a namespace merge appends the namespace only when it is new |
| Aggregator.MergePrefixKeys | Main.py:97-99 | after merging `n` namespaces, the namespace order is the old order followed by the new ones in file order |
| Aggregator.MergeFileKeys | Main.py:97-99 | a file merge appends exactly the file's new namespaces, in its order |
| Aggregator.MergeAllEntry | Main.py:93-100 | the merged entry for `(ns, name)` is the value in the last file that has it (last write wins across files) |
| Aggregator.LastIn | Main.py:93-100 | the value of `(ns, name)` in the last of the tables that has it, or none |
| Aggregator.MergeAllNamespaces | Main.py:97-99 | a namespace is in the merged table exactly when some file has it |
| Aggregator.TwoFilesRightBiased | Main.py:93-100 | of two files, the second's value wins and names only in the first survive |
| Aggregator.MergeNamespaceNames | Main.py:98-100 | merging one namespace appends to its names the new names of the merged table, in that table's order; other namespaces keep their names |
| Aggregator.MergePrefixNamesStep | Main.py:97-100 | the inner loop's step on namespace `ns` appends the file's new names for `ns` |
| Aggregator.MergePrefixNamesOther | Main.py:97-100 | the inner loop's step on another namespace leaves the names of `ns` unchanged |
| Aggregator.NamesAlongSteps | Main.py:97-100 | along a loop over distinct namespaces, the names of `ns` change only at the step on `ns`, where the new names are appended |
| Aggregator.MergeFileNames | Main.py:97-100 | merging a file appends to each namespace's names the file's new names for it, in the file's order |
| Aggregator.AggregatedNamespaces | Main.py:93-99 | the namespaces of the parsed files, in file order, each at its first appearance |
| Aggregator.AggregatedNames | Main.py:93-100 | the names first declared under `ns`, file by file in file order and, within a file, in declaration order; each at its first appearance |
| Aggregator.AggregateKeys | Main.py:87-102 | the merged namespaces are in order of first appearance across the files taken in the given order |
| Aggregator.AggregateNames | Main.py:87-102 | the names of each merged namespace are in order of first declaration across the files taken in the given order |
| Aggregator.MergeNamespaceKeepsNonEmpty | Main.py:98-100 | merging a non-empty namespace never leaves an empty namespace |
| Aggregator.MergePrefixKeepsNonEmpty | Main.py:97-100 | merging pruned tables never leaves an empty namespace |
| Aggregator.MergeAllKeepsNonEmpty | Main.py:93-100 | merging pruned tables never leaves an empty namespace |
| Aggregator.AggregateHasNoEmptyNamespace | Main.py:87-102 | the aggregate of any files has no empty namespace |
| Aggregator.LastInComesFromSomeTable | Main.py:100 | a merged value was stored by one of the files |
| Aggregator.MergeAllIsWellFormed | Main.py:97-100 | merging well-formed tables yields a well-formed table |
| Aggregator.AggregateIsWellFormed | Main.py:87-102 | every namespace and name in the aggregate is a `\w+` identifier and every value a `0x` literal |
| Emitters.GenerateHpp | Main.py:11-20 | the struct loop's text equals `Hpp` of the table |
| Emitters.StructHead | Main.py:15 | the line `inline struct <convert_name(ns)>Offsets {` and its break |
| Emitters.FieldLine | Main.py:17 | the line `\tDWORD <convert_name(name)>;` and its break |
| Emitters.StructTail | Main.py:18 | the line `} <convert_name(ns)>;` followed by a blank line |
| Emitters.FieldLines | Main.py:16-17 | one field line per name, in name order |
| Emitters.StructBlock | Main.py:15-18 | the stub of one namespace: its opener, its field lines, its closer |
| Emitters.HppPrefix | Main.py:14-18 | the stubs of the first `n` namespaces, in table order |
| Emitters.Hpp | Main.py:11-20 | what `generate_hpp` returns: the stubs of all namespaces, in table order |
| Emitters.FieldLinesStep | Main.py:16-17 | the inner loop's step appends the field line of the next name |
| Emitters.HppPrefixStep | Main.py:14-18 | the outer loop's step appends the opener, the field lines and the closer of the next namespace |
| Emitters.HppPrefixIgnoresValues | Main.py:14-18 | the stub text for the first `n` namespaces depends only on namespaces and names, never on values |
| Emitters.HppIgnoresValues | Main.py:11-20 | two tables with the same namespaces and names, in the same order, give the same header: values never appear |
| Emitters.CountConcat | Main.py:15-18 | line breaks add up over concatenation |
| Emitters.CountAbsent | Main.py:15-18 | a string without a line break contains none |
| Emitters.ConvertNameKeepsNewlines | Main.py:7-8 | `convert_name` introduces no line break |
| Emitters.CountLine | Main.py:15-18 | one line plus its break holds one break |
| Emitters.StubPiecesNewlines | Main.py:15-18 | the struct opener and each field line hold one break; the closer holds two (it ends in a blank line) |
| Emitters.FieldLinesNewlines | Main.py:16-17 | the field lines hold one break per name |
| Emitters.StructBlockNewlines | Main.py:15-18 | a namespace block holds one break per name plus three |
| Emitters.HppPrefixNewlines | Main.py:14-18 | the first `n` blocks hold the sum of their break counts |
| Emitters.HppShape | Main.py:11-20 | with single-line names, the header holds `names + 3` breaks per namespace; an empty table gives `""` |
| Emitters.GenerateCppOffsetCode | Main.py:68-84 | the assignment loop, joined with line breaks, equals `CppCode` of the table |
| Emitters.AssignmentLine | Main.py:77 | `<ns>.<convert_name(name)> = findOffsetByName(j, "<ns>", "<name>");`, the namespace written as is |
| Emitters.AssignmentLines | Main.py:75-77 | one assignment line per name, in name order |
| Emitters.CommentLines | Main.py:72-73 | the two comment lines `// Assignments for <ns>` and `// <ns> Offsets` |
| Emitters.CppLinesPrefix | Main.py:71-79 | the lines of the first `n` namespaces: per namespace its comments, its assignments and an empty line |
| Emitters.CppLines | Main.py:68-79 | the `cpp_code` list after the loop: the lines of all namespaces, in table order |
| Emitters.Join | Main.py:84 | `"\n".join(lines)`: the lines separated by single breaks, `""` for no lines |
| Emitters.CppCode | Main.py:68-84 | the text written to the assignment file: `CppLines` joined by breaks |
| Emitters.AssignmentLinesAt | Main.py:75-77 | one assignment line per name, in name order, each the line for that name |
| Emitters.CppLinesPrefixLength | Main.py:71-79 | the first `n` blocks hold two comments, one assignment per name and a blank line each |
| Emitters.CppLinesPrefixStable | Main.py:71-79 | later blocks only append lines; earlier lines never change |
| Emitters.BlockAt | Main.py:71-79 | block `i` starts with its two comment lines and ends with a blank line |
| Emitters.BlockAssignmentAt | Main.py:75-77 | line `k` after block `i`'s comments is the assignment of its `k`-th name |
| Emitters.CppBlockAt | Main.py:71-79 | in the whole output, block `i` starts at the lines of the earlier blocks, opens with its two comments and ends blank |
| Emitters.CppAssignmentAt | Main.py:75-77 | in the whole output, the `k`-th name of namespace `i` has its assignment at a fixed position of that block |
| Emitters.PrefixAssignmentAt | Main.py:71-79 | the assignment line of the `k`-th name of namespace `i` keeps its position in the lines of every longer prefix of namespaces |
| Emitters.CppLineCount | Main.py:68-84 | the output has `names + 3` lines per namespace; the code is `""` exactly for the empty table |
| Emitters.Split | Main.py:84 | splitting at line breaks gives at least one piece |
| Emitters.SplitSingleLine | Main.py:84 | a line without a break followed by a break splits off as one piece |
| Emitters.JoinCons | Main.py:84 | `"\n".join` of several lines is the first, a break, then the join of the rest |
| Emitters.SplitJoin | Main.py:84 | splitting `"\n".join(lines)` at breaks gives back `lines` when no line contains a break |
| Emitters.AssignmentLinesSingleLine | Main.py:77 | assignment lines of break-free names contain no break |
| Emitters.CppLinesPrefixSingleLine | Main.py:71-79 | with break-free names, no generated line contains a break |
| Emitters.CppCodeSplitsIntoLines | Main.py:68-84 | the written text splits back into exactly the generated lines |
| Pipeline.GenerateFiles | Main.py:105-120 | the three outputs are the aggregate of the files, its header and its assignment code |
| Pipeline.WellFormedIsSingleLine | Main.py:28-30 | in a well-formed table, namespaces and names contain no line break |
| Pipeline.GeneratedFilesShape | Main.py:105-120 | for any files: no empty namespace, the header's and the assignment file's line counts as above, and the assignment text splits back into its lines |
| Pipeline.NoFilesNoOutput | Main.py:105-120 | no files give an empty table, an empty header and empty assignment code |
| Pipeline.LaterFileWins | Main.py:93-100 | across two files, the later file's value wins and names only in the earlier file survive |
| Pipeline.OpenLineMatches | Main.py:28 | `namespace <ns> {` followed by a line break opens `ns` and declares nothing |
| Pipeline.DeclLineMatches | Main.py:30 | an indented `constexpr std::ptrdiff_t <name> = <hex>;` line declares exactly that pair and opens nothing |
| Pipeline.DeclarationAfterOpening | Main.py:39-50 | a declaration right after a namespace opening is stored under that namespace, verbatim |
| Pipeline.ClosingLineIsIgnored | Main.py:39-50 | a closing `}` line changes nothing |
| Pipeline.SingleDeclarationFileKeys | Main.py:23-55 | a file with one namespace and one declaration yields that namespace only |
| Pipeline.SingleDeclarationFile | Main.py:23-55 | the same file closed by `}` yields that namespace only, holding the value verbatim |
| Pipeline.SecondFileOverrides | Main.py:93-100 | two files declaring the same name under the same namespace: the second value is kept |

## Left out

- File I/O is not modelled: `open`/`readlines`, the writes of the three files, and the `json.dump`/`json.load` round trip (Main.py:58-60, 65-66). A file is given as its sequence of lines. The assignment emitter receives the merged table itself, which assumes the JSON round trip returns the table unchanged, key order included (JSON object keys are strings and the values are strings, so nothing is converted).
- `glob.glob` (Main.py:91) is replaced by the sequence of files it returns; the model holds for any order. That order decides which value wins (`MergeAllEntry`), the order of the namespaces (`AggregateKeys`) and the order of the names inside each namespace (`AggregateNames`), and so the order of the structs, fields and assignment lines written.
- The `print` calls (Main.py:64, 82, 122) and the `__main__` entry with its fixed directory name (Main.py:125-127) are left out. They have no effect on the results.
- The regular expressions are modelled as deterministic matchers of the two fixed patterns, not as a general regex engine. `\w` is the ASCII class `[A-Za-z0-9_]`. For `str` patterns Python's `\w` is `_` plus every character for which `str.isalnum()` holds, which includes non-ASCII letters and numeric characters such as `Ⅻ`; those characters are not modelled. `\s` is modelled as exactly the characters for which Python's `str.isspace` holds.
- The Python test `offset_match and current_namespace` (Main.py:47) is modelled as "the cursor is set". A captured namespace is a non-empty `\w+` run, so a set cursor is always truthy and the two agree.
- Aggregator.MergePrefix: the merge is characterised through its entries (`MergeFileEntry`, `MergeAllEntry`), its namespace order (`MergeFileKeys`) and each namespace's name order (`MergeFileNames`), not by one equation between whole tables.
- Emitters.HppShape: the header's shape is stated as its line-break count and its key independence, not as a line-by-line listing like the one given for the assignment code.
