# conan-barbarian, modelled in Dafny

conan-barbarian works out the link order and the dependencies of prebuilt C/C++
libraries. It reads the symbol listings that `nm` prints and records what each
library defines and needs. From those it builds a catalog of which library
depends on which, and it offers graph operations over the catalog: the closure
of a set of libraries, contraction of libraries to Conan components, and a
topological sort.

This project models the in-memory core of that program. It has one Dafny module
per source file, plus three support modules.

- `Options` holds `Option`, which stands where the code returns `None`.
- `Collections` copies a set into a list without duplicates.
- `Text` models the Python string builtins the code relies on: `rfind`, `find`,
  `in`, `removeprefix`, `split()` (on the six characters of `\s` under
  `re.ASCII`) and `splitlines()`.
- `Paths` models the string side of `PurePath`: `name`, `stem` and `suffix`.
  It also holds `strip_library_name` and `_different_extension` of
  `src/conan_barbarian/data.py`.
- `Reach` is the closure walk of `Cache.get_dependencies`. It proves that the
  walk computes the least closed superset of its seeds; its closure predicates
  also specify the walk of `create_libs_graph`.
- `Catalog` models `src/conan_barbarian/data.py`. `Library` is a value and
  `Cache` is a class whose map fields the methods update in place. The
  `_libraries`, `_defined_symbols`, `_undefined_symbols`, `_packages`,
  `_components` and `_libs2components` tables become map fields. The insertion
  order of `_components` is kept in the extra field `componentOrder`, because
  the reverse index it builds depends on that order.
- `Scraping` models `src/conan_barbarian/scraping.py`:
  - the `nm` record scanner;
  - the `@version` strip;
  - the line loop of `_parse_nm_output`;
  - the comment-tracking line loop of `_parse_link_script`;
  - `_update_cache`, as a method over the catalog with a pure specification
    `Update` over the four tables it touches.
- `Graphs` models `src/conan_barbarian/graphs.py`:
  - the node table is a `map<string, Node>`, and each `Node` holds the names
    in its in-set and out-set;
  - `DepGraph` is a class over that map.

  Every method is tied to a function on the table and keeps the mirror
  invariant: `b` is in the out-set of `a` exactly when `a` is in the in-set of
  `b`. `Build(vertices, edges)` is the table that holds exactly those nodes and
  edges, so loops over the graph are specified by the edge sets they add or
  remove. The old script `libshelper.py` defines the same `DepGraphNode` and
  `DepGraph` (libshelper.py:147-189); `Graphs` models both copies.
- `LibsHelper` models the graph algorithms of `src/conan_barbarian/libshelper.py`:
  - `filter_libraries`;
  - `create_libs_graph`: the graph holds the closure of the roots, its out-sets
    are the catalog's, and it fails exactly when the walk meets a name that is
    not a library;
  - `replace_libs_with_components`: the result is the quotient graph;
  - `quote_lib_name` and `format_lib`: the old script's copies
    (libshelper.py:244-256) are the same code;
  - `minimize_dependencies_list`: the list minus one occurrence of each direct
    dependency of each listed library, first occurrence first, and a
    subsequence of the input;
  - `expand_args_to_libraries`.
- `Legacy` models the old script `libshelper.py`:
  - its file-keyed `Cache` (in memory);
  - `find_library` and `find_lib_with_name`;
  - `parse_nm_output`;
  - the update loops of `analyze_library`;
  - `minimize_dependencies_list`, both as written and corrected.
- `LegacySort` has `DepGraph.create` and `compute_dependencies`, the
  destructive Kahn-style sort of the old script. The proofs show that:
  - the list it returns has no duplicates;
  - every dependent comes before what it depends on;
  - what is left over has an edge into every node from inside itself, so on
    an acyclic graph every node is listed, no node on or below a cycle ever
    is, and every node left out lies on or below a cycle;
  - the first library listed is the root that comes last in the input.

Errors that Python raises become results. The code raises in
`create_libs_graph` for a name that is not a library, in `Cache.add_dependency`
and `get_dependencies` of `src/conan_barbarian/data.py` for an unknown library,
and in the old `minimize_dependencies_list` when `list.remove` fails. The model
returns `None`, or `ok == false`, exactly where these functions raise. The
assertion in `Cache.define_symbol` is not an error path: it becomes a
precondition of `Catalog.Cache.DefineSymbol`, which `_update_cache`, its one
caller, meets by adding the library first.

## Model

| member | source | states |
|---|---|---|
| Text.LastIndexOf | src/conan_barbarian/data.py:233 | `rfind`: -1, or an index holding the character with no later occurrence |
| Text.Find | src/conan_barbarian/scraping.py:51-52 | `find`: the first index where the pattern occurs, or -1 when it occurs nowhere |
| Text.RemovePrefix | src/conan_barbarian/data.py:233 | `removeprefix`: the prefix plus the result is the text when the prefix is present; otherwise the text is returned unchanged |
| Text.SkipSpaces | src/conan_barbarian/scraping.py:14 | a greedy `\s*`: the result is a suffix of the text, everything cut off in front of it is whitespace, and it does not start with whitespace |
| Text.Split | src/conan_barbarian/scraping.py:61 | `split()`: non-empty words without whitespace |
| Text.SplitLayout | src/conan_barbarian/scraping.py:61 | `split()` cuts at the whitespace runs and nowhere else: the text is its words laid out between whitespace gaps, and every gap between two words is non-empty, so the words are the maximal runs without whitespace |
| Text.SplitKeepsText | src/conan_barbarian/scraping.py:61 | the words of `split()` put back together are the text without its whitespace |
| Text.SplitLines | src/conan_barbarian/scraping.py:27 | `splitlines()`: no line contains a line boundary |
| Text.SplitLinesLayout | src/conan_barbarian/scraping.py:27 | `splitlines()` cuts at the terminators and nowhere else: the text is its lines, each followed by one terminator (one boundary character, or `\r\n` as one), where only a non-empty last line may lack it; a `\r` followed by `\n` is always one `\r\n` |
| Text.SplitLinesKeepsText | src/conan_barbarian/scraping.py:27 | the lines joined back together are the text without its boundary characters (`\r\n` counts as one boundary) |
| Paths.Name | src/conan_barbarian/data.py:233 | `PurePath.name` contains no `/` and is never `.` |
| Paths.NameOfFileName | src/conan_barbarian/data.py:233 | a plain file name, with no `/`, not empty and not `.`, is its own name |
| Paths.Suffix | src/conan_barbarian/data.py:237-238 | `PurePath.suffix` is empty, or a dot followed by at least one character and no further dot |
| Paths.StemSuffix | src/conan_barbarian/data.py:233-238 | the stem and the suffix together make up the name |
| Paths.StripLibraryName | src/conan_barbarian/data.py:232-233 | the key is the stem, without a leading `lib` when there is one; it contains no `/` |
| Paths.NameDropsDirectory | src/conan_barbarian/data.py:233 | the name of `dir/n` is `n` |
| Paths.StripIgnoresDirectory | src/conan_barbarian/data.py:232-239 | `dir/n` is filed, and carries the extension, exactly as `n` does |
| Paths.SplitAtDot | src/conan_barbarian/data.py:233-238 | a file name splits at its last dot (when that dot is neither first nor last) into its stem and its suffix |
| Paths.DottedName | src/conan_barbarian/data.py:233-238 | `STEM.EXT` has the stem `STEM` and the suffix `.EXT` |
| Paths.StripLibraryFile | src/conan_barbarian/data.py:232-233 | `libBASE.EXT` is filed as `BASE` and has the suffix `.EXT` |
| Paths.StripBareName | src/conan_barbarian/data.py:232-233 | a bare name without dots and without `lib` is filed under itself and has no suffix |
| Paths.Stem | src/conan_barbarian/data.py:233 | `PurePath.stem`: non-empty when the name is |
| Paths.StemPrefix | src/conan_barbarian/data.py:233 | the stem is a prefix of the name and, when shorter, is followed in it by the dot that starts the suffix |
| Paths.DifferentExtension | src/conan_barbarian/data.py:236-239 | the first name has a suffix and it differs from the second's; it never holds when the first name has no proper last dot |
| Paths.DifferentExtensionOfFiles | src/conan_barbarian/data.py:236-239 | `STEM.a` and `STEM.b` differ in extension exactly when `a != b`; a bare name never differs from anything |
| Paths.StripExamples | src/conan_barbarian/data.py:232-233 | `libbar.so` is filed as `bar` and `foo` as `foo` |
| Reach.ClosureUnique | src/conan_barbarian/data.py:129-139 | two closures of the same seeds are equal |
| Reach.ClosureMonotone | src/conan_barbarian/data.py:129-139 | more seeds never give a smaller closure |
| Reach.WalkStep | src/conan_barbarian/data.py:131-138 | one pop of the queue, with the needs that are not yet kept pushed, preserves the walk invariant |
| Reach.RevisitQueuesNothing | src/conan_barbarian/data.py:136-138 | popping a name that was already expanded queues nothing new |
| Reach.WalkDone | src/conan_barbarian/data.py:131-139 | when the queue is empty, the kept set is the closure of the seeds |
| Reach.Walk | src/conan_barbarian/data.py:129-139 | the worklist loop returns the least set that contains the seeds and everything its members need |
| Collections.Enumerate | libshelper.py:193-194 | a list of exactly the set's elements, each once |
| Catalog.NewLibrary | src/conan_barbarian/data.py:19-23 | a new `Library` is filed under the stripped name, keeps the file name and the system flag, and has no dependencies |
| Catalog.Lookup | src/conan_barbarian/data.py:85-90 | `get_library` returns the entry under the stripped name, unless the name carries an extension that differs from the stored file's; it fails exactly when there is no entry or the extensions clash |
| Catalog.LookupAfterAdd | src/conan_barbarian/data.py:85-98 | a library just filed is found under the name it was filed with |
| Catalog.LookupOtherAfterAdd | src/conan_barbarian/data.py:85-98 | filing a library does not change the lookup of any name with a different key |
| Catalog.LookupBareKey | src/conan_barbarian/data.py:85-90 | a bare key finds whatever is filed under it |
| Catalog.LookupLibraryFile | src/conan_barbarian/data.py:85-90 | `libBASE.EXT` finds the entry under `BASE` exactly when the stored file also ends in `.EXT` (so `libssl.a` misses `libssl.so`) |
| Catalog.WithoutDefinerSpec | src/conan_barbarian/data.py:106 | after the filter, no symbol maps to the removed file and every other definition is kept |
| Catalog.WithoutDependentSpec | src/conan_barbarian/data.py:108-117 | the removed file is in no pending set, every other waiting file is kept, and exactly the sets the file alone made non-empty are deleted |
| Catalog.ReverseIndex | src/conan_barbarian/data.py:191-194 | every key in the index belongs to the component it points to, which is a catalogued component |
| Catalog.ReverseIndexSnoc | src/conan_barbarian/data.py:192-194 | each further component files its member keys over the earlier entries |
| Catalog.ReverseIndexLastWins | src/conan_barbarian/data.py:191-194 | a member key is indexed, and points to the last component, in insertion order, that lists it |
| Catalog.LoadedOnce | src/conan_barbarian/data.py:185-187 | once loaded, the index is not rebuilt by a second lookup |
| Catalog.FilterSystem | src/conan_barbarian/data.py:196-200 | the result holds exactly the input names whose system status equals the flag, and is no longer than the input |
| Catalog.FilterSystemAppend | src/conan_barbarian/data.py:196-200 | filtering a concatenation is filtering each part and concatenating, so the kept names stay in input order |
| Catalog.FilterSystemPartition | src/conan_barbarian/data.py:196-200 | the system and non-system filters split the input: together they hold every name exactly as often as the input does |
| Catalog.WellFiledAdd | src/conan_barbarian/data.py:96-98 | filing a new library keeps every entry under its own stripped name |
| Catalog.WellFiledRemove | src/conan_barbarian/data.py:102-103 | removing an entry keeps every entry under its own stripped name |
| Catalog.WellFiledAddDependency | src/conan_barbarian/data.py:119-122 | adding a dependency keeps every entry under its own stripped name |
| Catalog.Cache.constructor | src/conan_barbarian/data.py:67-74 | all tables start empty |
| Catalog.Cache.IsLibrary | src/conan_barbarian/data.py:82-83 | whether the stripped name is a key; it holds whenever `get_library` finds the name, and also when only the extension check would refuse it |
| Catalog.Cache.GetLibrary | src/conan_barbarian/data.py:85-90 | the entry under the stripped name, found exactly when the key exists and the name's extension does not differ from the entry's file name |
| Catalog.Cache.FindLibrary | src/conan_barbarian/data.py:92-94 | the stored file name exactly when `get_library` finds an entry |
| Catalog.Cache.AddLibrary | src/conan_barbarian/data.py:96-100 | the key now holds a fresh library with no dependencies; a non-empty package tag adds the key to that package's set, and no other table changes |
| Catalog.Cache.RemoveLibrary | src/conan_barbarian/data.py:102-117 | an unknown name changes nothing; otherwise the entry goes, with its definitions and its pending references |
| Catalog.Cache.DropDependent | src/conan_barbarian/data.py:108-117 | the pending-table loop computes `WithoutDependent` |
| Catalog.Cache.AddDependency | src/conan_barbarian/data.py:119-122 | does nothing when `src == tgt` as strings; otherwise adds `tgt` to the entry under stripped `src`, and fails exactly when there is no such entry |
| Catalog.Cache.GetDependencies | src/conan_barbarian/data.py:124-139 | fails exactly when `get_library` fails; otherwise returns the direct set, or its closure through the catalog when transitive |
| Catalog.Cache.DefinedSymbols | src/conan_barbarian/data.py:144-146 | the symbols that have a definer: exactly those for which `get_library_defining_symbol` answers |
| Catalog.Cache.UndefinedSymbols | src/conan_barbarian/data.py:147-149 | the pending symbols: for each, `libraries_needing_undefined_symbol` gives its pending set, and for any other symbol the empty set |
| Catalog.Cache.GetLibraryDefiningSymbol | src/conan_barbarian/data.py:158-160 | the library that defines the symbol, or none exactly when no library does |
| Catalog.Cache.LibrariesNeedingUndefinedSymbol | src/conan_barbarian/data.py:165-166 | the files waiting on the symbol, as a set; empty for a symbol nothing waits on |
| Catalog.Cache.IsPackage | src/conan_barbarian/data.py:168-169 | whether the package is known; an unknown package has no libraries |
| Catalog.Cache.PackageLibraries | src/conan_barbarian/data.py:171-172 | the keys tagged with the package, as a set; empty for an unknown package |
| Catalog.Cache.IsComponent | src/conan_barbarian/data.py:176-177 | whether the component is known; an unknown component has no libraries |
| Catalog.Cache.GetComponentLibraries | src/conan_barbarian/data.py:179-180 | the component's members; empty for an unknown component |
| Catalog.Cache.FilterSystemLibraries | src/conan_barbarian/data.py:196-200 | the names of the list whose entry `get_library` finds with the requested system flag (a name it does not find counts as not system), no longer than the list |
| Catalog.Cache.DefineSymbol | src/conan_barbarian/data.py:151-156 | the library becomes the definer (the last one wins); returns the symbol's former pending set, or none, and the symbol is no longer pending |
| Catalog.Cache.AddUndefinedSymbolDependency | src/conan_barbarian/data.py:162-163 | the file joins the symbol's pending set, which is created when missing |
| Catalog.Cache.SetComponentLibraries | src/conan_barbarian/data.py:182-183 | the component's members are the listed names; a new component goes to the end of the insertion order |
| Catalog.Cache.BuildComponentsReverseMap | src/conan_barbarian/data.py:191-194 | the index gains the reverse map of the components, in insertion order |
| Catalog.Cache.BuildIndex | src/conan_barbarian/data.py:192-194 | the outer loop files every component's member keys over the start |
| Catalog.Cache.IndexComponent | src/conan_barbarian/data.py:193-194 | the inner loop files every member key under the component |
| Catalog.Cache.GetLibraryComponent | src/conan_barbarian/data.py:185-189 | the index is built only when it is empty and components exist; the answer is the component filed for the library's key, or none |
| Graphs.IsRoot | src/conan_barbarian/graphs.py:14-16 | a node is a root exactly when its in-set is empty |
| Graphs.WithNode | src/conan_barbarian/graphs.py:37-42 | the table gains `id` if it is absent, with a fresh node; every stored node is kept |
| Graphs.WithEdge | src/conan_barbarian/graphs.py:44-48 | both nodes are present, `tgt` is in the out-set of `src` and `src` is in the in-set of `tgt` |
| Graphs.WithoutEdge | src/conan_barbarian/graphs.py:50-54 | the edge is gone from both of its ends, and no node is added or removed |
| Graphs.WithoutNode | src/conan_barbarian/libshelper.py:64 | `remove_node`: the node is gone, and no remaining node refers to it |
| Graphs.WithNodeMirrored | src/conan_barbarian/graphs.py:37-42 | `get_node` keeps the mirror invariant |
| Graphs.WithEdgeExactly | src/conan_barbarian/graphs.py:44-48 | `add_dependency` adds exactly `tgt` to the out-set of `src` and `src` to the in-set of `tgt`, and changes no other set |
| Graphs.WithEdgeMirrored | src/conan_barbarian/graphs.py:44-48 | `add_dependency` keeps the mirror invariant |
| Graphs.WithEdgeIdempotent | src/conan_barbarian/graphs.py:44-48 | adding the same edge twice is the same as adding it once |
| Graphs.SelfEdgeRecorded | src/conan_barbarian/graphs.py:44-48 | `add_dependency(a, a)` records a self-edge |
| Graphs.WithoutEdgeExactly | src/conan_barbarian/graphs.py:50-54 | `remove_dependency` removes exactly the one edge from both of its ends |
| Graphs.WithoutEdgeMirrored | src/conan_barbarian/graphs.py:50-54 | `remove_dependency` keeps the mirror invariant |
| Graphs.WithoutNodeMirrored | src/conan_barbarian/libshelper.py:64 | `remove_node` keeps the mirror invariant |
| Graphs.AddThenRemove | src/conan_barbarian/graphs.py:44-54 | adding an absent edge and then removing it restores every node; only the nodes `get_node` made remain |
| Graphs.Build | src/conan_barbarian/graphs.py:5-12 | the table built from `vertices` and `edges` holds exactly those vertices |
| Graphs.BuildNodeOf | src/conan_barbarian/graphs.py:5-12 | each node of the built table has its sources as its in-set and its targets as its out-set |
| Graphs.BuildMirrored | src/conan_barbarian/graphs.py:5-12 | a table built from edges that join its vertices is mirrored |
| Graphs.BuildWithNode | src/conan_barbarian/graphs.py:37-42 | `get_node` on a built table builds the table with one more vertex |
| Graphs.BuildWithEdge | src/conan_barbarian/graphs.py:44-48 | `add_dependency` on a built table builds the table with the edge and both of its ends |
| Graphs.BuildWithoutEdge | src/conan_barbarian/graphs.py:50-54 | `remove_dependency` of a present edge builds the table without that edge |
| Graphs.BuildWithoutNode | src/conan_barbarian/libshelper.py:64 | `remove_node` builds the table without the vertex and without the edges touching it |
| Graphs.MirroredIsBuilt | src/conan_barbarian/graphs.py:5-12 | every mirrored table is the table built from its keys and the edges its out-sets record |
| Graphs.DepGraph.constructor | src/conan_barbarian/graphs.py:28-29 | the graph starts with no nodes |
| Graphs.DepGraph.GetKeys | src/conan_barbarian/graphs.py:31-32 | the keys of the graph are exactly the names of its nodes |
| Graphs.DepGraph.GetNode | src/conan_barbarian/graphs.py:37-42 | returns the stored node, or inserts a fresh one; no other node changes |
| Graphs.DepGraph.AddDependency | src/conan_barbarian/graphs.py:44-48 | the new table is `WithEdge`; the mirror invariant is kept |
| Graphs.DepGraph.RemoveDependency | src/conan_barbarian/graphs.py:50-54 | succeeds exactly when the edge is present and then removes it; fails where `set.remove` raises |
| Graphs.DepGraph.RemoveNode | src/conan_barbarian/libshelper.py:64 | the new table is `WithoutNode`; the mirror invariant is kept |
| Scraping.ParseRecord | src/conan_barbarian/scraping.py:14 | a matched line has a listed type letter, and its symbol does not start with whitespace |
| Scraping.ParseRecordSound | src/conan_barbarian/scraping.py:14 | whatever the scanner accepts has the pattern's layout: an optional address, whitespace, the letter, whitespace, the symbol |
| Scraping.ParseRecordComplete | src/conan_barbarian/scraping.py:14 | every line with that layout is accepted, with its letter and its symbol |
| Scraping.Unversioned | src/conan_barbarian/scraping.py:15 | the symbol is cut at its first `@`: the result is a prefix with no `@`, followed in the input by `@` |
| Scraping.UnversionedPlain | src/conan_barbarian/scraping.py:15 | a symbol without `@` is kept whole |
| Scraping.CollectedAppend | src/conan_barbarian/scraping.py:27-36 | the symbols are collected line by line, in line order |
| Scraping.CollectedMembers | src/conan_barbarian/scraping.py:27-36 | a symbol is collected exactly when some line is a record of a selected type (T, R, W or B for definitions, U for references) carrying it |
| Scraping.Unresolved | src/conan_barbarian/scraping.py:37 | keeps exactly the references that are not defined |
| Scraping.UnresolvedAppend | src/conan_barbarian/scraping.py:37 | the filter keeps the references in order |
| Scraping.ParseNmOutput | src/conan_barbarian/scraping.py:24-38 | the line loop returns the collected definitions and the references that no definition resolves; no symbol is in both lists |
| Scraping.DefinedAndReferenced | src/conan_barbarian/scraping.py:24-38 | a T line and a U line for the same symbol give `defined == [s]` and `undefined == []` |
| Scraping.DefinitionLine | src/conan_barbarian/scraping.py:27-34 | a `T` record with an address yields one definition and no reference |
| Scraping.ReferenceLine | src/conan_barbarian/scraping.py:27-36 | an indented `U` record yields one reference and no definition |
| Scraping.AsNeededAt | src/conan_barbarian/scraping.py:59 | a match of `AS_NEEDED\s*\([^)]*\)` at the start of the text ends at its `)` |
| Scraping.AsNeededAtGroup | src/conan_barbarian/scraping.py:59 | a text that opens with `AS_NEEDED`, whitespace, `(`, operands without `)` and `)` matches the pattern up to and including that `)` |
| Scraping.AsNeededAtSound | src/conan_barbarian/scraping.py:59 | every match is such a group: `AS_NEEDED`, the whitespace after it, `(`, text without `)` and `)` |
| Scraping.WithoutAsNeeded | src/conan_barbarian/scraping.py:59 | the substitution never lengthens the text |
| Scraping.WithoutAsNeededKeeps | src/conan_barbarian/scraping.py:59 | a front part in which no `AS_NEEDED` starts is copied unchanged |
| Scraping.WithoutAsNeededGroup | src/conan_barbarian/scraping.py:59 | an `AS_NEEDED` group behind such a front part is removed, and the front part is kept |
| Scraping.NoAsNeededKept | src/conan_barbarian/scraping.py:59 | text without `AS_NEEDED` is left alone |
| Scraping.NoAsNeededWithoutA | src/conan_barbarian/scraping.py:59 | text without an `A` is left alone |
| Scraping.CommandOperands | src/conan_barbarian/scraping.py:60-61 | the operands of a `GROUP`/`INPUT` command contain no `)` |
| Scraping.CommandOperandsAt | src/conan_barbarian/scraping.py:60-61 | a command that opens the line gives the text between its `(` and the first `)` |
| Scraping.GroupOperands | src/conan_barbarian/scraping.py:60-61 | a `GROUP` line with whitespace, `(`, operands without `)` and `)` has those operands |
| Scraping.AsNeededLeftOut | src/conan_barbarian/scraping.py:58-61 | the libraries of a `GROUP` line with an `AS_NEEDED` group among its operands are the words outside the group: nothing inside the group is listed |
| Scraping.ParseLinkScript | src/conan_barbarian/scraping.py:46-63 | the line loop returns the libraries of `ScriptLibraries`, the line-by-line scan that leaves out comments and `AS_NEEDED` groups |
| Scraping.ScanFromExtends | src/conan_barbarian/scraping.py:50-61 | the scan only appends: what was read earlier stays in front, in order |
| Scraping.ScanFromWords | src/conan_barbarian/scraping.py:61 | every library a script names is a non-empty word without whitespace |
| Scraping.CommentBodySkipped | src/conan_barbarian/scraping.py:54-56 | once a comment is open, lines with no opener and no closer add nothing |
| Scraping.UncommentPlain | src/conan_barbarian/scraping.py:51-56 | outside a comment, a line without an opener is kept whole |
| Scraping.UncommentBody | src/conan_barbarian/scraping.py:54-56 | inside a comment, a line with neither an opener nor a closer is blanked |
| Scraping.UncommentedScript | src/conan_barbarian/scraping.py:50-61 | a script without comments is read line by line, each line on its own |
| Scraping.SplitOfWord | src/conan_barbarian/scraping.py:61 | `split()` of a single word is that word |
| Scraping.InputLineRead | src/conan_barbarian/scraping.py:59-61 | the line `INPUT(a)` names the library `a` |
| Scraping.ClosedCommentStaysOpen | src/conan_barbarian/scraping.py:51-56 | as written, after a line with a comment opener, the lines that follow are never read, even when the comment closed on that line |
| Scraping.ClosedCommentHidesInput | src/conan_barbarian/scraping.py:51-56 | as written, the script `/**/`, `INPUT(a)` names no library |
| Scraping.CommentThenBody | src/conan_barbarian/scraping.py:51-56 | as written, a plain line after a line with an opener is never read |
| Scraping.FixedUncomment | src/conan_barbarian/scraping.py:51-56 | corrected: a line with an opener keeps its text before the opener, and the comment stays open only when it does not close on that line |
| Scraping.ClosedCommentEnds | src/conan_barbarian/scraping.py:51-56 | corrected: the line after a comment that closed on its own line is read as usual |
| Scraping.ClosedCommentShowsInput | src/conan_barbarian/scraping.py:51-61 | corrected: the script `/**/`, `INPUT(a)` names `a` |
| Scraping.ClosedThenLine | src/conan_barbarian/scraping.py:51-61 | corrected: after a one-line comment, the next line contributes its libraries |
| Scraping.Waiting | src/conan_barbarian/scraping.py:69-71 | the files waiting for one of the symbols are exactly those in one of their pending sets |
| Scraping.AddNeeds | src/conan_barbarian/scraping.py:71-72 | the target is added to the needs of exactly the libraries filed under the given keys |
| Scraping.Definers | src/conan_barbarian/scraping.py:74-77 | the known, non-empty definers of the given symbols |
| Scraping.LinkDependents | src/conan_barbarian/scraping.py:71-72 | every pending dependent other than the library gains the library; fails exactly when one of them is not catalogued |
| Scraping.DefineOne | src/conan_barbarian/scraping.py:69-72 | one definition: the library becomes the definer, the symbol stops pending, and its waiters gain the library |
| Scraping.DefineAll | src/conan_barbarian/scraping.py:69-72 | the definitions loop: every symbol is filed to the library and stops pending, and every waiter gains the library |
| Scraping.ResolveOne | src/conan_barbarian/scraping.py:74-79 | one reference: it links to its known definer, or the library joins its pending set |
| Scraping.ResolveAll | src/conan_barbarian/scraping.py:74-79 | the references loop: the library gains every known definer except itself, and waits for the rest |
| Scraping.NeedsFromMeaning | src/conan_barbarian/scraping.py:74-77 | linking the references one at a time adds exactly their known definers other than the library |
| Scraping.PendFromMeaning | src/conan_barbarian/scraping.py:78-79 | registering the references one at a time gives the pending table `Pend` |
| Scraping.UpdateCache | src/conan_barbarian/scraping.py:66-79 | the cache becomes `Update` of its tables, and fails exactly where `Update` does |
| Scraping.UpdateFailsIff | src/conan_barbarian/scraping.py:69-72 | the update fails exactly when a file waiting for one of the definitions is not catalogued |
| Scraping.UpdateDefines | src/conan_barbarian/scraping.py:69-70 | every defined symbol now maps to the library |
| Scraping.UpdateDefinedNotPending | src/conan_barbarian/scraping.py:69-70 | no defined symbol is pending any more |
| Scraping.UpdateLinksDependents | src/conan_barbarian/scraping.py:70-72 | every earlier waiter, other than the library itself, now needs the library |
| Scraping.UpdateLinksDefiners | src/conan_barbarian/scraping.py:74-77 | the library needs the known definer of each of its references, unless that is itself |
| Scraping.UpdatePends | src/conan_barbarian/scraping.py:78-79 | the library waits for each reference that has no known definer |
| Scraping.UpdateWithoutDefinitions | src/conan_barbarian/scraping.py:66-79 | registering a library with references only: it is filed, it needs the known definers, and it waits for the rest |
| Scraping.UpdateWithoutReferences | src/conan_barbarian/scraping.py:66-72 | registering a library with definitions only: it is filed, its symbols are filed to it, and their waiters are linked to it |
| Scraping.ReferenceStep | src/conan_barbarian/scraping.py:74-79 | one reference: an edge to a known definer, or one more pending entry |
| Scraping.DefinitionStep | src/conan_barbarian/scraping.py:69-72 | one definition: its waiters gain the library, the symbol is filed to it and stops pending |
| Scraping.FirstReference | src/conan_barbarian/scraping.py:74-79 | on empty tables, a reference becomes a pending entry |
| Scraping.FirstDefinition | src/conan_barbarian/scraping.py:69-72 | on empty tables, a definition is filed |
| Scraping.ReferenceBeforeDefinition | src/conan_barbarian/scraping.py:66-79 | a referencing library registered before its definer ends up depending on it, and nothing stays pending |
| Scraping.DefinitionBeforeReference | src/conan_barbarian/scraping.py:66-79 | the same two libraries registered the other way round give the same dependency and nothing pending |
| Scraping.DefinerArrives | src/conan_barbarian/scraping.py:69-72 | a definer that arrives while one library waits for its symbol resolves the wait |
| LibsHelper.Picked | src/conan_barbarian/libshelper.py:19-27 | no longer than the input |
| LibsHelper.PickedMember | src/conan_barbarian/libshelper.py:22-24 | a name is kept exactly when it is non-empty and `find_library` gives it for some input |
| LibsHelper.FilterLibraries | src/conan_barbarian/libshelper.py:19-27 | the loop returns `find_library` of each input, in input order, dropping the unknown ones |
| LibsHelper.LinkDependency | src/conan_barbarian/libshelper.py:46-48 | one dependency: the edge item→dep is added, and dep is queued when it is neither queued nor visited |
| LibsHelper.LinkDependencies | src/conan_barbarian/libshelper.py:45-48 | the inner loop adds an edge from the item to each dependency and queues exactly the new ones |
| LibsHelper.FrontierStep | src/conan_barbarian/libshelper.py:37-48 | one pop keeps the visited and queued names inside the closure and queues no name twice |
| LibsHelper.FrontierDone | src/conan_barbarian/libshelper.py:37-49 | when the queue is empty, the visited set is the closure of the roots |
| LibsHelper.VisitLast | src/conan_barbarian/libshelper.py:38-48 | one turn of the loop: it fails exactly when the popped name is not a library; otherwise the walk invariant holds and the work left shrinks |
| LibsHelper.Explore | src/conan_barbarian/libshelper.py:37-48 | the while loop ends with an empty queue, or fails at a name in the closure that is not a library |
| LibsHelper.CreateLibsGraph | src/conan_barbarian/libshelper.py:30-49 | the nodes are exactly the closure of the roots, each out-set is that library's catalog dependencies, and it fails exactly when the closure holds a name that is not a library |
| LibsHelper.MergeInSteps | src/conan_barbarian/libshelper.py:58-64 | the two edge loops followed by `remove_node` give the merged edges |
| LibsHelper.LinkSources | src/conan_barbarian/libshelper.py:58-60 | each source other than the component gets an edge into the component |
| LibsHelper.LinkSource | src/conan_barbarian/libshelper.py:59-60 | one turn: the source gets an edge into the component unless it is the component, and no other edge changes |
| LibsHelper.LinkTargets | src/conan_barbarian/libshelper.py:61-63 | the component gets an edge to each target other than itself |
| LibsHelper.LinkTarget | src/conan_barbarian/libshelper.py:62-63 | one turn: the component gets an edge to the target unless it is the target, and no other edge changes |
| LibsHelper.MergeNode | src/conan_barbarian/libshelper.py:57-64 | the node has merged into its component, and the edges are rerouted with none left on the removed node |
| LibsHelper.QuotientStepVertices | src/conan_barbarian/libshelper.py:57-64 | merging one more node gives the quotient's vertices |
| LibsHelper.QuotientStepEdges | src/conan_barbarian/libshelper.py:57-64 | merging one more node gives the quotient's edges |
| LibsHelper.MergeIfGrouped | src/conan_barbarian/libshelper.py:54-64 | a node with a component is merged into it, and one without a component is left alone |
| LibsHelper.MergeStep | src/conan_barbarian/libshelper.py:54-64 | one turn of the outer loop (the lookup, then the merge): it keeps the loop invariant, under which the table is the quotient of the nodes handled so far |
| LibsHelper.MergeAll | src/conan_barbarian/libshelper.py:53-64 | the loop over the nodes present at the start ends with the quotient |
| LibsHelper.ReplaceLibsWithComponents | src/conan_barbarian/libshelper.py:52-64 | the reverse index is loaded by the first lookup, and the graph becomes the quotient in which each member stands as its component |
| LibsHelper.MergingDone | src/conan_barbarian/libshelper.py:52-64 | at the end of the loop, the mirror invariant holds and the table is the quotient |
| LibsHelper.QuotientDropsMembers | src/conan_barbarian/libshelper.py:54-64 | no library that has a component remains as a node |
| LibsHelper.QuotientNoSelfEdge | src/conan_barbarian/libshelper.py:58-63 | a component node has no self-edge, so edges between members of the same component vanish |
| LibsHelper.QuotientKeepsOthers | src/conan_barbarian/libshelper.py:52-64 | an edge between libraries without a component is kept |
| LibsHelper.QuotientReroutes | src/conan_barbarian/libshelper.py:61-63 | an edge from a member to a non-member becomes an edge from the component |
| LibsHelper.QuoteLibName | src/conan_barbarian/libshelper.py:72-75 | the name between two copies of a non-empty quote, or the name alone |
| LibsHelper.FormatLib | src/conan_barbarian/libshelper.py:80-87 | the stripped name in `short` mode, else the name, then quoted |
| LibsHelper.FormatLibs | src/conan_barbarian/libshelper.py:81-82 | a list is formatted element by element, in order |
| LibsHelper.RemoveFirst | src/conan_barbarian/libshelper.py:95-98 | `list.remove` with `ValueError` ignored: the contents lose one occurrence of the name, if there is one |
| LibsHelper.DropRemoveFirst | src/conan_barbarian/libshelper.py:92-98 | removing one more name is the same as dropping one more occurrence |
| LibsHelper.DropCount | src/conan_barbarian/libshelper.py:90-99 | the result holds each name as often as the input does, minus the requested removals, never below zero |
| LibsHelper.DropMember | src/conan_barbarian/libshelper.py:90-99 | a name stays exactly when the list holds it more often than it is removed |
| LibsHelper.DropSubsequence | src/conan_barbarian/libshelper.py:90-99 | the result is a subsequence of the input, in the same order |
| LibsHelper.RemoveDependencies | src/conan_barbarian/libshelper.py:94-98 | the inner loop removes one occurrence of each of the library's dependencies |
| LibsHelper.MinimizeOne | src/conan_barbarian/libshelper.py:92-98 | one listed library: fails exactly when it is not a library, and otherwise removes its direct dependencies |
| LibsHelper.MinimizeDependenciesList | src/conan_barbarian/libshelper.py:90-99 | fails exactly when a listed name is not a library; otherwise returns the input minus one occurrence of each direct dependency of each listed library |
| LibsHelper.ExpandArgsToLibraries | src/conan_barbarian/libshelper.py:176-185 | the union of a package's libraries, a component's members, or the item itself, for each item |
| Legacy.WithLibrary | libshelper.py:62-63 | `setdefault`: the library has an entry, and every existing entry is kept |
| Legacy.Linked | libshelper.py:65-67 | `tgt` joins the set of `src` unless `src == tgt`; nothing else changes |
| Legacy.Pended | libshelper.py:144 | `setdefault(key, set()).add(x)`: exactly `x` joins the set of `key` |
| Legacy.Cache.constructor | libshelper.py:42-45 | all three tables start empty |
| Legacy.Cache.IsLibrary | libshelper.py:48-49 | whether the name, unstripped, is a key of the dependency table |
| Legacy.Cache.FindLibrary | libshelper.py:51-60 | the first candidate the cache knows |
| Legacy.Cache.AddLibrary | libshelper.py:62-63 | the dependency table becomes `WithLibrary`; the symbol tables are unchanged |
| Legacy.Cache.AddDependency | libshelper.py:65-67 | the dependency table becomes `Linked`; the symbol tables are unchanged |
| Legacy.Cache.GetDependencies | libshelper.py:69-70 | the direct set, or none for an unknown name |
| Legacy.LibName | libshelper.py:52-53 | the name starts with `lib`; a name that already does is kept |
| Legacy.FirstKnown | libshelper.py:57-60 | the first known candidate, with no earlier candidate known, or none exactly when no candidate is known |
| Legacy.StaticFirst | libshelper.py:56-60 | with no suffix, the static archive wins when it is known |
| Legacy.SharedSecond | libshelper.py:56-60 | with no suffix, the shared archive is found exactly when it is known and the static one is not |
| Legacy.FindLibWithName | libshelper.py:230-241 | the library `find_library` would find, or else the name as given |
| Legacy.ListedMembers | libshelper.py:104-111 | a symbol is listed exactly when some line is a record of a kept type (T, R or W, or U) carrying it whole |
| Legacy.ListedAsPackaged | libshelper.py:101-112 | without B records and `@` in symbols, the old parser collects what the packaged one does |
| Legacy.ParseNmOutput | libshelper.py:101-112 | the line loop returns the listed definitions and references, without cross-filtering |
| Legacy.LinkedFrom | libshelper.py:135-137 | the dependents other than the library gain entries |
| Legacy.LinkedFromAt | libshelper.py:135-137 | each dependent other than the library gains the library, and every other set is kept |
| Legacy.LinkDependents | libshelper.py:135-137 | the inner loop gives `LinkedFrom`; the symbol tables are unchanged |
| Legacy.AnalyzeUpdate | libshelper.py:130-144 | the update loops give `Analyzed` of the tables |
| Legacy.DefineAllDefiners | libshelper.py:132-133 | the library becomes the definer of its symbols, and the other definers stay |
| Legacy.DefineAllWaiting | libshelper.py:132-134 | every defined symbol stops pending, and no other symbol does |
| Legacy.DefineAllEdges | libshelper.py:134-137 | edges are only added, and only edges to the library |
| Legacy.DefineAllLinksWaiting | libshelper.py:134-137 | each former waiter of a defined symbol now depends on the library |
| Legacy.ReferAllDefiners | libshelper.py:139-144 | the references loop changes no definer |
| Legacy.ReferAllEdges | libshelper.py:139-142 | edges are only added, and only edges from the library |
| Legacy.ReferAllWaiting | libshelper.py:143-144 | pending sets only grow, only for references, and a known definer adds no pending entry |
| Legacy.ReferAllLinks | libshelper.py:139-144 | each reference links to its known definer, or the library waits for it |
| Legacy.AnalyzedRecordsLibrary | libshelper.py:130 | after the update the library has an entry |
| Legacy.AnalyzedDefiners | libshelper.py:132-133 | the library defines exactly its symbols anew; every other definer stays |
| Legacy.AnalyzedLinksWaiting | libshelper.py:134-137 | a former waiter of a defined symbol depends on the library |
| Legacy.AnalyzedResolves | libshelper.py:132-144 | nobody waits for a symbol the library defines |
| Legacy.AnalyzedReferences | libshelper.py:139-144 | each reference ends up linked to its known definer, or the library waits for it |
| Legacy.AnalyzedOnlyAdds | libshelper.py:130-144 | another library's dependencies only grow, and only by the library |
| Legacy.RequestedPrefix | libshelper.py:261-263 | what the first listed libraries ask to remove is part of what all of them ask |
| Legacy.RemoveEach | libshelper.py:263-267 | as written, the inner loop fails exactly when a dependency is not in the list any more |
| Legacy.MinimizeAsWritten | libshelper.py:259-268 | as written, fails exactly when the removals ask for more occurrences than the list holds |
| Legacy.UnlistedDependencyFails | libshelper.py:259-268 | as written, `[liba]` with `liba` needing `libb` fails |
| Legacy.MinimizeDependenciesList | libshelper.py:259-268 | corrected: the input minus one occurrence of each listed library's direct dependencies |
| LegacySort.RootSet | libshelper.py:192-194 | the roots given, or every catalog key when there are none |
| LegacySort.CreateEdges | libshelper.py:194-199 | exactly an edge from each root to each of its direct dependencies other than itself |
| LegacySort.CreateVertices | libshelper.py:194-199 | exactly the roots and their direct dependencies, one level deep |
| LegacySort.CreateSpans | libshelper.py:194-199 | every edge `create` adds joins two of its nodes |
| LegacySort.CreateStep | libshelper.py:194-199 | visiting one more root adds it, its dependencies and its edges |
| LegacySort.Create | libshelper.py:191-199 | the graph gains exactly the roots, their direct dependencies and the edges to them, with no self-edges |
| LegacySort.CreateOne | libshelper.py:195-199 | one root: its node, plus an edge to each dependency other than itself |
| LegacySort.Link | libshelper.py:198-199 | the edge from the library to the dependency, or none when they are the same |
| LegacySort.LinkRoot | libshelper.py:197-199 | the inner loop adds the dependencies as nodes and an edge to each except the library itself |
| LegacySort.LinkRootOne | libshelper.py:198-199 | one turn: the dependency becomes a node, it gets an edge from the library unless it is the library, and no other edge changes |
| LegacySort.AddEdge | libshelper.py:199 | `add_dependency` on a graph that already has the library |
| LegacySort.Order | libshelper.py:211-212 | a name's order is its last position in `libs`, or 10000 when absent |
| LegacySort.AssignOrder | libshelper.py:211-212 | the loop leaves the nodes unchanged and gives every name `Order` |
| LegacySort.InsertBy | libshelper.py:215 | inserting adds exactly one element |
| LegacySort.InsertSorted | libshelper.py:215 | inserting into a sorted list keeps it sorted |
| LegacySort.SortBy | libshelper.py:215 | `sort(key=...)` gives the same elements in ascending order of key |
| LegacySort.RootsAmong | libshelper.py:214 | exactly the listed nodes with an empty in-set, each no more often than listed |
| LegacySort.Remaining | libshelper.py:222-224 | the edges not leaving an emitted node |
| LegacySort.RemainingStep | libshelper.py:222-224 | unlinking a node from its targets leaves the edges of the unemitted nodes |
| LegacySort.OrderedStep | libshelper.py:219-220 | emitting a node whose dependents are all emitted keeps the list ordered |
| LegacySort.ReleaseOne | libshelper.py:224-226 | removes the edge, and the target becomes a root exactly when nothing else depends on it |
| LegacySort.Release | libshelper.py:222-226 | the loop removes every edge from the node and pushes exactly the targets that became roots |
| LegacySort.StackedStep | libshelper.py:218-226 | after a pop and a release, the stack holds exactly the unemitted nodes that nothing left depends on, each once |
| LegacySort.Emit | libshelper.py:219-226 | one turn of the loop appends the top root, releases it and keeps the sort invariant |
| LegacySort.InitialStacked | libshelper.py:214-215 | the sorted roots start as the stack: exactly the nodes with no dependents, each once |
| LegacySort.LastRootFirst | libshelper.py:214-219 | the first root popped has no dependents, and no other root comes later in `libs` |
| LegacySort.LeftoverFed | libshelper.py:218-227 | when the stack is empty, every node left out has an edge into it from another node left out |
| LegacySort.StartGraph | libshelper.py:208-215 | the graph is `create`'s, and the roots are sorted by input order |
| LegacySort.Finish | libshelper.py:218-227 | the emptied stack gives the list's properties |
| LegacySort.ComputeDependencies | libshelper.py:205-227 | lists graph nodes at most once, always after every node that depends on them; those left out are fed by one another; the first is the root that comes last in `libs` |
| LegacySort.CycleIsFed | libshelper.py:218-227 | the nodes of a cycle each have an edge into them from the cycle |
| LegacySort.FedNeverListed | libshelper.py:218-227 | an ordered list never reaches a node of a fed set |
| LegacySort.CycleNeverListed | libshelper.py:218-227 | a library on a dependency cycle is never listed |
| LegacySort.WalkInto | libshelper.py:218-227 | inside a fed set there is a walk of any length ending at any node |
| LegacySort.Repeats | libshelper.py:218-227 | a walk longer than its set repeats a node |
| LegacySort.BelowCycleNeverListed | libshelper.py:218-227 | no library on a walk that starts on a dependency cycle is ever listed |
| LegacySort.SplitAtRepeat | libshelper.py:218-227 | a walk that repeats a node splits into a cycle and a walk from the cycle's first node to the walk's end |
| LegacySort.UnlistedBelowCycle | libshelper.py:205-227 | a node left out, when the leftover is fed, is reached by a walk of leftover nodes from a cycle of leftover nodes |
| LegacySort.FindCycle | libshelper.py:218-227 | a non-empty fed set holds a cycle |
| LegacySort.FedHasCycle | libshelper.py:218-227 | a non-empty fed set holds a cycle, for every set of edges |
| LegacySort.AcyclicAllListed | libshelper.py:205-227 | on an acyclic graph, every node is listed |

## Left out

- File and process I/O are not modelled:
  - running `nm` and `_file_is_dynamic_library`;
  - reading a link script from a file (its list of lines is the input);
  - the analysis dispatch in `analyze_library`;
  - the stored defaults of `Cache.__init__`.
- JSON persistence is not modelled: `load`, `save`, `to_json`, `from_json` and `json_encoder` only move the tables to and from a file.
- The CLI commands, argument parsing, logging and report printing are not modelled. They are output around the modelled functions.
- `sort_graph`, `prune_arcs`, `traverse` and `sort_by_dependency` are not modelled: `src/conan_barbarian/graphs.py` does not define them. `DepGraph.remove_node` is not defined there either; the model defines it as deleting the node and every edge touching it, at both ends.
- The `data` dictionary of the old `DepGraphNode` is not a node field. The `order` entries it stores live in a separate map, read through `KeyOf`.
- Iteration order over Python sets and over dict keys is not modelled. Loops take the elements in any order, and contracts state only what is independent of that order. The one exception is `_components`, whose insertion order is kept.
- `LibsHelper.ReplaceLibsWithComponents`: states the quotient only when no component is named like a node of the graph. Otherwise the result depends on the order in which the nodes are visited.
- `LibsHelper.ReplaceLibsWithComponents`: iterates over the names present when the loop starts. The code iterates `graph.nodes` while the loop changes it, and reads `.name` on the keys, which are strings; taken literally, that raises.
- `LibsHelper.FormatLib`: the list and set case is `FormatLibs`, on lists only.
- `Legacy.Cache.GetDependencies`: models only the direct case. The transitive branch of the old cache never changes its result, and on some cycles it does not terminate.
- `LegacySort.SortBy`: the stability of Python's sort is not stated. Only the names' last positions matter, and they are distinct for names in `libs`.
- `Catalog.Cache.PackageLibraries`: returns a set where `package_libraries` returns a list made from the package's set. The list has the same members and no duplicates; its order is Python's set iteration order, which is not modelled.
- `LegacySort.AcyclicAllListed`: states the acyclic case. The general statement, that an unlisted node lies on or below a cycle, is `UnlistedBelowCycle`.
- Errors leave the model's tables as they are at the point of the raise. The Python state after an exception is not modelled beyond that.
- Whitespace is the six characters of `\s` under `re.ASCII`: space, `\t`, `\n`, `\v`, `\f` and `\r`. Python's `str.split()` and the Unicode `\s` also count `\x1c` to `\x1f` and the Unicode whitespace characters. These are not modelled.
- Link-script lines are taken without the `'\n'` that `readlines()` keeps at the end of each line. The patterns' `.` stops before it and `split()` drops it, so the libraries found are the same.
- `Catalog.Cache.DefineSymbol`: requires the library to be catalogued, where `define_symbol` asserts it. The failing assertion is not modelled as a result, because its one caller adds the library first.

## Findings

| source | as written | input that shows it | evidently intended | confidence | as-written member | corrected member |
|---|---|---|---|---|---|---|
| src/conan_barbarian/scraping.py:51-56 | a line with `/*` sets the in-comment flag even when the comment closes on that line, so every later line is blanked until a line holding `*/` | the script `/**/`, `INPUT(a)` names no library | a comment opened and closed on one line leaves the flag off, and the next line is read | not executed | Scraping.ClosedCommentHidesInput | Scraping.ClosedCommentShowsInput |
| libshelper.py:264-267 | `list.remove` raises `ValueError`, but the handler catches `KeyError`, so a dependency that is not in the list makes the function raise | a cache where `liba` needs `libb`, and the list `[liba]` | absent dependencies are skipped, as in `src/conan_barbarian/libshelper.py:95-98` | not executed | Legacy.UnlistedDependencyFails | Legacy.MinimizeDependenciesList |
