# Verified model of the no-code compilers and browser-stats helpers

This project is a Dafny model of the core of the `no-code` repository. It covers the
`tsc-compilers` package, which turns a TypeScript program into a call graph and renders
it as Node-RED flows, and the data helpers of the `iwanttouse` browser-support app.
Each source file of the core is one module:

- `TrieNodes` models `lib/tsc-alias/trie-node.ts`. The path-alias trie is a class
  whose `Add` updates its nodes in place. Its meaning is the value `Tree` it holds.
  The construction of alias entries by `buildAliasTrie` is modelled on top of it.
- `Modules` models `lib/module.ts`. It covers the alias, relative and extensionless
  candidate stages, the quoted-name extraction of `getModuleSpecifierName`, and the
  first-match lookup of `mapModuleToSourceFile`. Node's `path` functions are
  uninterpreted fields of `PathOps`.
- `FullOrbSyntax` and `FullOrb` model `compilers/full-orb.ts`.
  - `FullOrbSyntax` holds the syntax tree the compiler walks, with the answers of the
    TypeScript checker folded in. It also holds the pure helpers and the export
    collection.
  - `FullOrb` holds the `Program`. It has a per-file status machine and a
    definition cache keyed by node. It resolves imports to exports, re-entering the
    parse of other files. It walks each file recursively, building nested blocks of
    calls, grouping call-free runs into synthetic definitions and collapsing trivial
    blocks.
- `NodeRed` models `lib/node-red.ts`. It covers `getBlockCalls`, the two key indexes,
  the block part of `getNodeParms`, `calculatePosition` and `getFlowFilename`.
- `ContextFlow` models `inputs/node-red/context-flow.ts`. It diffs an edited flow
  against its recorded state and produces INSERT, DELETE, REPLACE and MOVE
  operations, including the runtime errors that the JavaScript throws on some inputs.
- `BrowserStats` models `iwanttouse/src/app/browser-stats.ts`. It covers
  `intersectionOf`, `groupBy`, the version keys and lookups of `Browser` and
  `Browsers`, `getByFeature`, and the agent filtering of `load`.
- `Util` holds `Option`, `Result` and the thrown JavaScript errors. It also holds the
  JavaScript string and object operations the code relies on: `split`, `indexOf`,
  `substring`, `Object.fromEntries`, object spread, and `Set` de-duplication.

Imperative code stays imperative:
- the trie's `add`;
- the loops of `intersectionOf`, `groupBy`, `versionKeys`, `getByFeature` and `load`;
- the wire-diff and operation loops of the flow diff;
- the re-anchoring loop of `resolveDeclaration`;
- the `Program`'s walk.

Each of these is a method proved equal to a specification function of its inputs or
of the state it starts in. The properties are then stated as lemmas about those
functions.

Some of the code's behaviour is reproduced as the JavaScript does it, not as it was
evidently meant:
- a flow without an info node loses its last node;
- `addedWires` is last-writer-wins;
- `operations` is used before its `const` declaration;
- the definition cache is looked up under one key and written under another;
- only the first callback of each list is indexed;
- an exported variable statement exports only its last variable.

## Model

| member | source | states |
|---|---|---|
| TrieNodes.TrieNode.constructor | packages/tsc-compilers/src/lib/tsc-alias/trie-node.ts:17-20 | A new trie is one node with no children and no datum. |
| TrieNodes.TrieNode.Add | packages/tsc-compilers/src/lib/tsc-alias/trie-node.ts:21-33 | The trie afterwards holds `TreeAdd(old, name, d)` and the nodes it creates are fresh. An empty name changes nothing. |
| TrieNodes.TrieNode.ChildFor | packages/tsc-compilers/src/lib/tsc-alias/trie-node.ts:23-32 | The child for a character is reused when present, or else created empty. No other child is touched, and the children stay disjoint. |
| TrieNodes.TrieNode.Search | packages/tsc-compilers/src/lib/tsc-alias/trie-node.ts:34-46 | The lookup answers `TreeSearch` on the trie's value, and nothing for the empty name. |
| TrieNodes.SearchIsDeepestPresent | packages/tsc-compilers/src/lib/tsc-alias/trie-node.ts:37-45 | A search returns the datum of the deepest present node along the matched prefix, or none if there is none. It returns the root's datum when not even the first character matches. |
| TrieNodes.PathDataAt | packages/tsc-compilers/src/lib/tsc-alias/trie-node.ts:37-45 | The data the search walks past are exactly those of the nodes for the prefixes of the name. |
| TrieNodes.LastPresent | packages/tsc-compilers/src/lib/tsc-alias/trie-node.ts:41-44 | The result is the last present datum of the list, and none exactly when all are absent. |
| TrieNodes.SearchEmpty | packages/tsc-compilers/src/lib/tsc-alias/trie-node.ts:36 | `search("")` is null. |
| TrieNodes.SearchAfterAdd | packages/tsc-compilers/src/lib/tsc-alias/trie-node.ts:21-46 | After adding a present datum under a non-empty name, searching that name returns it. |
| TrieNodes.AddTwice | packages/tsc-compilers/src/lib/tsc-alias/trie-node.ts:27-28 | Adding the same name twice leaves the trie as if only the last add happened. |
| TrieNodes.AddOnlyTouchesPath | packages/tsc-compilers/src/lib/tsc-alias/trie-node.ts:23-32 | After `add(name, d)` the node for `name` holds `d`, and its proper prefixes exist, keeping their data or getting none if new. Every other node is as before, or absent as before. |
| TrieNodes.AddKeepsRootData | packages/tsc-compilers/src/lib/tsc-alias/trie-node.ts:22-32 | `add` never changes the datum of the node it is called on. |
| TrieNodes.StripTrailingStar | packages/tsc-compilers/src/lib/tsc-alias/trie-node.ts:57-59 | `replace(/\*$/, '')` removes exactly one trailing `*` and changes nothing else. |
| TrieNodes.MakeAliasEntry | packages/tsc-compilers/src/lib/tsc-alias/trie-node.ts:53-59 | An entry matches wildly exactly when its alias ends in `*`. The prefix is the alias without that star. Each target loses its trailing star, in order. |
| TrieNodes.LastAliasFound | packages/tsc-compilers/src/lib/tsc-alias/trie-node.ts:123-125 | The entry of the last alias added is found under its own prefix. An alias whose prefix is empty is never inserted. |
| TrieNodes.AliasTreeRootEmpty | packages/tsc-compilers/src/lib/tsc-alias/trie-node.ts:123-125 | The root of an alias trie holds no entry, so a name whose first character is unmatched finds nothing. |
| TrieNodes.BuildAliasTrie | packages/tsc-compilers/src/lib/tsc-alias/trie-node.ts:47-125 | The built trie is fresh and holds `AliasTree(aliases)`, the entries of the aliases with non-empty prefixes inserted in key order. |
| TrieNodes.AddAlias | packages/tsc-compilers/src/lib/tsc-alias/trie-node.ts:123-125 | One iteration extends the trie to `AliasTree` of one more alias. |
| Modules.Alias | packages/tsc-compilers/src/lib/module.ts:9-49 | The name comes back alone when the trie has no entry for it, or when the entry fails its match rule. Otherwise there is one candidate per target path, in order. |
| Modules.AppliedPrefixAtStart | packages/tsc-compilers/src/lib/module.ts:24-47 | An entry that applies is a prefix of the name at index 0. Each candidate is the dotted target, `/`, then the rest of the name after the prefix. |
| Modules.NoShorterPrefixRetried | packages/tsc-compilers/src/lib/module.ts:18-31 | With aliases `a*` and `ab`, the name `abc` matches the deepest entry `ab`, which fails its rule. It passes through unchanged, although `a*` would have applied. |
| Modules.DotRelative | packages/tsc-compilers/src/lib/module.ts:33-39 | The target made relative to the importer's directory always starts with `.`. |
| Modules.Relative | packages/tsc-compilers/src/lib/module.ts:51-56 | There is always exactly one candidate. A dotted name is resolved against the directory of the file's absolute path, and any other name is kept. |
| Modules.Extensionless | packages/tsc-compilers/src/lib/module.ts:58-73 | There are exactly 13 candidates: the name first, then the 12 extension suffixes in prefix, suffix, base order. |
| Modules.ExtensionlessLayout | packages/tsc-compilers/src/lib/module.ts:62-72 | The flattened nested `map` lists the 12 suffixed names in the order of `ExtensionSuffixes`. |
| Modules.GetModuleSpecifierName | packages/tsc-compilers/src/lib/module.ts:84-112 | A non-string-literal specifier throws a SyntaxError. Otherwise the result is the first quoted path in the text. If there is none, a plain Error is thrown. |
| Modules.FindQuoted | packages/tsc-compilers/src/lib/module.ts:99-105 | The regular-expression search finds the first position where a quoted path starts, and no earlier one. |
| Modules.QuotedAtUnique | packages/tsc-compilers/src/lib/module.ts:99-105 | At one position at most one path matches. |
| Modules.RunEnd | packages/tsc-compilers/src/lib/module.ts:100 | The greedy `[^"'\r\n]+` run ends at the first character outside the class. |
| Modules.CandidatesLayout | packages/tsc-compilers/src/lib/module.ts:128-142 | The candidate list has 13 entries per alias candidate. Entry `13 * i + j` is the `j`-th extensionless form of the relative form of alias candidate `i`. |
| Modules.FilesByName | packages/tsc-compilers/src/lib/module.ts:121-126 | Each file is indexed under its absolute path, and a later file with the same path replaces an earlier one. |
| Modules.FirstKnown | packages/tsc-compilers/src/lib/module.ts:143 | The result is the first candidate that is a known file name, and none when no candidate is one. |
| Modules.MapModuleToSourceFile | packages/tsc-compilers/src/lib/module.ts:114-145 | It throws exactly when the specifier name does. Otherwise it returns the file of the first candidate, in alias, relative, extensionless order, that is a file's absolute path, and that is the file indexed last under that path. It returns none when no candidate is, or when the found name is empty. |
| FullOrbSyntax.GetCallExpressionIdentifier | packages/tsc-compilers/src/compilers/full-orb.ts:23-56 | A bare identifier callee is itself. A property access gives its member name if that is an identifier, else its base if that is. Anything else gives nothing. |
| FullOrbSyntax.ParseImportNode | packages/tsc-compilers/src/compilers/full-orb.ts:58-89 | The result is the module specifier and the imported name. The name is the specifier's own, `default` for default or namespace clauses, or else the first named binding. It throws exactly on a clause with neither. |
| FullOrbSyntax.AnchorIn | packages/tsc-compilers/src/compilers/full-orb.ts:340-352 | The anchor is the first variable declaration up the parent chain met before any call expression or the source file. It is none when there is no such declaration. |
| FullOrbSyntax.ReanchorKey | packages/tsc-compilers/src/compilers/full-orb.ts:335-361 | The climbing loop yields the storage key: the anchor's key if there is one, else the node's own. |
| FullOrbSyntax.Definition | packages/tsc-compilers/src/compilers/full-orb.ts:190-225 | A variable's definition is its function initializer, if any. A function or method has its own body. Any other declaration has the body its symbol's declarations give it, and a node that is not a declaration has none. |
| FullOrbSyntax.ExportKeywordDeclarations | packages/tsc-compilers/src/compilers/full-orb.ts:447-531 | The result has distinct names, one case per container kind. A default export gives its target. A function gives its `getText()` name. A class or a non-named export declaration gives nothing. It throws exactly on an unnamed function or an unknown container. |
| FullOrbSyntax.FoundExports | packages/tsc-compilers/src/compilers/full-orb.ts:455-485 | The found exports are exactly the named export elements whose local declaration was found. |
| FullOrbSyntax.NamedExportsFound | packages/tsc-compilers/src/compilers/full-orb.ts:455-485 | A named export clause exports exactly the names with a found declaration, each with the last such declaration. |
| FullOrbSyntax.FoundExportsKeys | packages/tsc-compilers/src/compilers/full-orb.ts:455-485 | A name is exported exactly when some element with that name has a declaration. |
| FullOrbSyntax.VariableStatementExportsLast | packages/tsc-compilers/src/compilers/full-orb.ts:524-528 | Every variable of an exported statement is keyed by the same object key, so only the last variable is exported. |
| FullOrbSyntax.SingleKeyEntries | packages/tsc-compilers/src/compilers/full-orb.ts:524-528 | `Object.fromEntries` of entries sharing one key keeps only the last. |
| FullOrb.Execute | packages/tsc-compilers/src/compilers/full-orb.ts:149-153 | After `execute` succeeds, every file of the program has its final status: parsed, or skipped under `node_modules`. |
| FullOrb.ParseProgramFile | packages/tsc-compilers/src/compilers/full-orb.ts:149-153 | One file of `execute`. On success it has its final status, parsed or skipped. A path under `node_modules` is marked skipped with no exports, and nothing else changes. A throw leaves the file being parsed. No other file loses its state. |
| FullOrb.HandleDeclarationSourceFile | packages/tsc-compilers/src/compilers/full-orb.ts:227-246 | A file with state is returned as it is, and nothing changes. A file without state is parsed first and ends parsed, or still parsing if the parse threw. |
| FullOrb.ResolveDeclaration | packages/tsc-compilers/src/compilers/full-orb.ts:248-379 | See the list after the table. |
| FullOrb.ResolveImport | packages/tsc-compilers/src/compilers/full-orb.ts:272-308 | As `ImportResolved` says: a malformed import clause or specifier throws with no change, and an unmapped module gives null. A mapped file that already has a state gives its export under the imported name, null when it is skipped or lacks the name, with no change. A mapped file without a state is parsed first: its throw is thrown on and leaves it being parsed, and otherwise the export is read from the parsed file. |
| FullOrb.ResolveCallExpressionCallbacks | packages/tsc-compilers/src/compilers/full-orb.ts:381-422 | The arguments are resolved in order, each as `ArgResolved` says: one whose declaration has a callback kind is resolved as `ResolveDeclaration` resolves it, and any other is skipped with no change. The callbacks are `CallbacksOf` those outcomes: the definitions found, in argument order, with failures and throws dropped. There are none, with no change, when no argument has a callback kind. |
| FullOrb.ResolveCallback | packages/tsc-compilers/src/compilers/full-orb.ts:402-413 | One argument's declaration is resolved as `ResolveDeclaration` resolves it. The callback is the definition found, and none when it was not found or the resolution threw. |
| FullOrb.CallbacksOfHas | packages/tsc-compilers/src/compilers/full-orb.ts:385-421 | A definition is among the callbacks exactly when some argument's resolution succeeded with it. |
| FullOrb.CallbacksOfConcat | packages/tsc-compilers/src/compilers/full-orb.ts:385-421 | The callbacks of a list of arguments are those of its first part followed by those of the rest, so argument order is kept. |
| FullOrb.ResolveCallExpressionDeclaration | packages/tsc-compilers/src/compilers/full-orb.ts:424-445 | A callee without an identifier or without a declaration resolves to nothing, with no change. The callee of any other call resolves as `ResolveDeclaration` resolves its declaration, throws included. |
| FullOrb.ResolveExportKeyword | packages/tsc-compilers/src/compilers/full-orb.ts:533-567 | A failing container throws with no change. Otherwise the entries are resolved in order, as `ExportsResolved` says: an entry that exports a function is resolved as `ResolveDeclaration` resolves it, and any other is skipped. The first throw is thrown on. Without one, the exports are `ExportedFrom` the outcomes. |
| FullOrb.ExportedFromHas | packages/tsc-compilers/src/compilers/full-orb.ts:534-566 | A name is exported exactly when one of its entries resolved to a definition. It holds the definition of the last such entry, as `Object.fromEntries` keeps the last. |
| FullOrb.ResolveEntries | packages/tsc-compilers/src/compilers/full-orb.ts:534-566 | The loop over the entries satisfies `ExportsResolved`: each outcome is its entry's resolution from the state the previous one left, the loop stops at the first throw, and a success is `ExportedFrom` all outcomes. |
| FullOrb.ResolveEntry | packages/tsc-compilers/src/compilers/full-orb.ts:538-555 | An entry that exports a function, or a variable holding one, is resolved as `ResolveDeclaration` resolves it. Any other is skipped with no change. |
| FullOrb.ResolveExported | packages/tsc-compilers/src/compilers/full-orb.ts:552-555 | An exported function is resolved as `ResolveDeclaration` resolves it, throws included. |
| FullOrb.ParseSourceFile | packages/tsc-compilers/src/compilers/full-orb.ts:569-822 | The file is first marked as being parsed with no exports. A path under `node_modules` ends skipped and nothing else changes. A finished walk leaves it parsed. A walk that threw leaves it parsing. No other file's state is lost. |
| FullOrb.WithStatus | packages/tsc-compilers/src/compilers/full-orb.ts:570-575 | Setting a file's status clears its exports and touches no other file. |
| FullOrb.MarkParsed | packages/tsc-compilers/src/compilers/full-orb.ts:821 | Marking a file parsed keeps its exports and every other file. |
| FullOrb.ParseNode | packages/tsc-compilers/src/compilers/full-orb.ts:592-816 | The walk keeps the file statuses and every other file settled. Outside a definition no calls are passed up. |
| FullOrb.WalkFile | packages/tsc-compilers/src/compilers/full-orb.ts:591-821 | The walk of a file marked as being parsed. On success the file ends parsed, and a throw leaves it being parsed. No other file loses its state. |
| FullOrb.ParseBelow | packages/tsc-compilers/src/compilers/full-orb.ts:690-813 | The rest of `parseNode` after the switch on the node's kind keeps the file's status and every other file settled. Outside a definition it passes no calls up. |
| FullOrb.WalkBlock | packages/tsc-compilers/src/compilers/full-orb.ts:706-812 | Parsing the children inside the node's block and then closing the block keeps the file's status and every other file settled. Only a definition that was not opened at this node passes calls up. |
| FullOrb.VisitKind | packages/tsc-compilers/src/compilers/full-orb.ts:596-688 | Only a function node can change the current definition, and only to an existing one. Call expressions outside a definition contribute nothing. |
| FullOrb.VisitCall | packages/tsc-compilers/src/compilers/full-orb.ts:601-654 | Outside a definition a call is ignored. Inside one, the callbacks are resolved as `ResolveCallExpressionCallbacks` resolves them, then the callee as `ResolveCallExpressionDeclaration` resolves it. A throw by the callee is thrown on. Otherwise the call is recorded as `CallRecorded` says, with those callbacks. |
| FullOrb.RecordCall | packages/tsc-compilers/src/compilers/full-orb.ts:610-651 | A call is recorded exactly when the callee resolved or there are callbacks, and then it is the only one. It is numbered next and calls the resolved definition. Without one, it calls a new synthetic definition that holds just the call and is cached under the call's key. The call node goes last in the current block, and nothing else changes. |
| FullOrb.PlaceCall | packages/tsc-compilers/src/compilers/full-orb.ts:638-651 | The numbered call node is appended to the current block and nothing else changes. |
| FullOrb.AddSynthetic | packages/tsc-compilers/src/compilers/full-orb.ts:625-636 | A synthetic definition is appended to the arena and written to the cache with no check, replacing any earlier one under that key. |
| FullOrb.ExtendSynthetic | packages/tsc-compilers/src/compilers/full-orb.ts:784 | A statement is appended to one synthetic definition, and every other definition stays as it was. |
| FullOrb.StoreDefinition | packages/tsc-compilers/src/compilers/full-orb.ts:361-376 | A new declared definition is cached under the given key, with a fresh empty body block. |
| FullOrb.AddBlock | packages/tsc-compilers/src/compilers/full-orb.ts:690-705 | A block node opens a fresh empty block whose parent is the current block. |
| FullOrb.VisitExport | packages/tsc-compilers/src/compilers/full-orb.ts:676-687 | The definitions `ExportedFrom` the resolved entries are merged into the file's exports, replacing those of the same name. A failure leaves the file unchanged. |
| FullOrb.ParseChildren | packages/tsc-compilers/src/compilers/full-orb.ts:711-785 | Every child is parsed in order, and the calls reported for the children are passed up in order. Inside a block, the call-free children are grouped into synthetic definitions run by run, as `GroupedInto` of `Runs`. |
| FullOrb.RunsAreRuns | packages/tsc-compilers/src/compilers/full-orb.ts:742-784 | `Runs` lists exactly the maximal runs of call-free children, in order. The last run reaches the end when the last child makes no call. |
| FullOrb.GroupStep | packages/tsc-compilers/src/compilers/full-orb.ts:742-784 | Outside a block, or for a child with calls, nothing changes and the open run closes. A call-free child joins the open run, which adds it to that run's synthetic definition and leaves the blocks alone. Without an open run it starts one, as `StartRun` says. |
| FullOrb.StartRun | packages/tsc-compilers/src/compilers/full-orb.ts:755-781 | A new synthetic definition, keyed at the child and holding it, is appended and cached under its key. A placeholder call of it, numbered next, goes last in the block, and no other block changes. |
| FullOrb.OpenRun | packages/tsc-compilers/src/compilers/full-orb.ts:755-784 | Opening a run is `StartRun`, and the new synthetic definition becomes the open run. |
| FullOrb.ExtendRun | packages/tsc-compilers/src/compilers/full-orb.ts:784 | Joining a run adds the child to the run's synthetic definition. The blocks and the numbering are unchanged. |
| FullOrb.GroupedStart | packages/tsc-compilers/src/compilers/full-orb.ts:755-784 | A call-free child after one with calls starts a run held by a new synthetic definition of that child alone. |
| FullOrb.GroupedExtend | packages/tsc-compilers/src/compilers/full-orb.ts:753-784 | A call-free child after another one extends the current run and its synthetic definition. |
| FullOrb.GroupedKeys | packages/tsc-compilers/src/compilers/full-orb.ts:744-752 | A child with calls leaves the grouping as it is. |
| FullOrb.Collapsed | packages/tsc-compilers/src/compilers/full-orb.ts:787-806 | A block keeps all of its nodes, unless its only node is a call of a synthetic definition or an empty block. That node is removed. |
| FullOrb.FinishBlock | packages/tsc-compilers/src/compilers/full-orb.ts:787-812 | The ending block is collapsed. A new block is attached to its parent only if it is still non-empty. No other block changes. |
| FullOrb.CloseBlock | packages/tsc-compilers/src/compilers/full-orb.ts:787-812 | Closing a block during the walk is exactly `FinishBlock`, and the file table is unchanged. |
| FullOrb.ExportsClosed | packages/tsc-compilers/src/compilers/full-orb.ts:447-531 | Every declaration an export keyword exports lies in a file of the program. |
| NodeRed.FlowFilename | packages/tsc-compilers/src/lib/node-red.ts:44-45 | The file name is the directory, `/`, the name, then `.json`. |
| NodeRed.FlowFilenameName | packages/tsc-compilers/src/lib/node-red.ts:44-45 | The name can be read back from the file name, given the directory. |
| NodeRed.FlowFilenameInjective | packages/tsc-compilers/src/lib/node-red.ts:44-45 | Within one directory, distinct names get distinct files. |
| NodeRed.FlowFilenameAcrossDirectories | packages/tsc-compilers/src/lib/node-red.ts:44-45 | Across directories they need not, because a name may contain `/`. |
| NodeRed.CalculatePosition | packages/tsc-compilers/src/lib/node-red.ts:58-64 | `x` is shifted by 500 and `y` is kept. |
| NodeRed.CalculatePositionKeepsOffsets | packages/tsc-compilers/src/lib/node-red.ts:58-64 | The shift keeps the relative placement of any two nodes. |
| NodeRed.NodesCallsAppend | packages/tsc-compilers/src/lib/node-red.ts:66-75 | The calls of consecutive node lists follow one another, as the `reduce` concatenates them. |
| NodeRed.BlockCallsPreOrder | packages/tsc-compilers/src/lib/node-red.ts:66-75 | The calls are in pre-order: those of the first node, then those of the rest. |
| NodeRed.NodesCallsExactly | packages/tsc-compilers/src/lib/node-red.ts:66-75 | A call is listed exactly when it occurs in the block at any depth. |
| NodeRed.NodeCallsExactly | packages/tsc-compilers/src/lib/node-red.ts:70-72 | A node lists a call exactly when the call is the node itself or lies inside it. |
| NodeRed.FlatBlockCalls | packages/tsc-compilers/src/lib/node-red.ts:66-75 | A block without nested blocks lists its call nodes, in order. |
| NodeRed.NodeBlock | packages/tsc-compilers/src/lib/node-red.ts:80-103 | A declared definition is drawn from its own block, a synthetic one from a fresh empty block keyed at its first statement. |
| NodeRed.SyntheticBlockHasNoCalls | packages/tsc-compilers/src/lib/node-red.ts:90-103 | A synthetic definition is drawn with no calls. |
| NodeRed.CallbackEntries | packages/tsc-compilers/src/lib/node-red.ts:113 | There is one entry per callback, keyed by its key and position. |
| NodeRed.FirstCallbackEntries | packages/tsc-compilers/src/lib/node-red.ts:111-115 | Each callbacks list contributes one entry, that of its first callback, because the flattened list is read as a single pair. |
| NodeRed.IndexDefinitionsSpec | packages/tsc-compilers/src/lib/node-red.ts:107-129 | Every definition is indexed under key `-` position. A key the definitions produce holds their last entry with that key, overriding the callbacks part. Any other key comes from the first callback of some list. |
| NodeRed.EmptyCallbacksIndexedAsUndefined | packages/tsc-compilers/src/lib/node-red.ts:111-115 | An empty callbacks list is indexed as `"undefined"` with no definition, unless a definition produces that key. |
| NodeRed.IndexKeyNotUndefined | packages/tsc-compilers/src/lib/node-red.ts:113-124 | An index key ends in a digit, so it is never `"undefined"`. |
| NodeRed.IndexOfDefinition | packages/tsc-compilers/src/lib/node-red.ts:144 | `indexOf` gives the first position of the referenced definition, or -1 when it is not listed. |
| NodeRed.TargetEntriesOf | packages/tsc-compilers/src/lib/node-red.ts:138-148 | A declared definition gives one entry per call of its block, in order. A synthetic one gives none. |
| NodeRed.TargetEntriesMember | packages/tsc-compilers/src/lib/node-red.ts:136-151 | The target entries are exactly those of the calls of the declared definitions. |
| NodeRed.IndexDefinitionCallbacksSpec | packages/tsc-compilers/src/lib/node-red.ts:131-152 | Every call of a declared definition has its callee's key indexed. Such a key holds the callbacks of the last call entered under it. Every other given key keeps its value. |
| ContextFlow.SpliceOneAt | packages/tsc-compilers/src/inputs/node-red/context-flow.ts:18-23 | `splice(i, 1)` at a start inside the array removes exactly that element. |
| ContextFlow.SpliceOneMissing | packages/tsc-compilers/src/inputs/node-red/context-flow.ts:18-23 | A start of -1 removes the last element instead. |
| ContextFlow.TakeInfo | packages/tsc-compilers/src/inputs/node-red/context-flow.ts:18-23 | An empty file throws. Otherwise exactly one node is taken out, and the recorded state is the `info` of one of the nodes. |
| ContextFlow.TakeInfoFound | packages/tsc-compilers/src/inputs/node-red/context-flow.ts:18-23 | The first node with the flow-info id is taken out, and its `info` becomes the recorded state. |
| ContextFlow.TakeInfoMissing | packages/tsc-compilers/src/inputs/node-red/context-flow.ts:18-23 | Without an info node the last node is taken out and its `info` is read. An empty file throws. |
| ContextFlow.MissingHas | packages/tsc-compilers/src/inputs/node-red/context-flow.ts:46-53 | The filter keeps exactly the targets absent from the other list. |
| ContextFlow.AddedFromNodes | packages/tsc-compilers/src/inputs/node-red/context-flow.ts:42-49 | A target is in `addedWires` exactly when some node gained a wire to it. |
| ContextFlow.AddedLastWins | packages/tsc-compilers/src/inputs/node-red/context-flow.ts:42-49 | `addedWires[t]` is the id of the last node that gained a wire to `t`. |
| ContextFlow.RemovedFromNodes | packages/tsc-compilers/src/inputs/node-red/context-flow.ts:50-54 | `removedWires` holds, with repetition and in order, the targets each node lost. |
| ContextFlow.NewIdsUnrecorded | packages/tsc-compilers/src/inputs/node-red/context-flow.ts:35-41 | `newNodes` holds the ids of the nodes without recorded state, in order. |
| ContextFlow.ByIdLastWins | packages/tsc-compilers/src/inputs/node-red/context-flow.ts:32-56 | `nodesById` maps each id to the last node with that id. |
| ContextFlow.DiffWires | packages/tsc-compilers/src/inputs/node-red/context-flow.ts:32-58 | The pass over the nodes computes `DiffOf`: the added wires, the removed wires, the new ids and the index by id. |
| ContextFlow.PopulateNewNodeInfo | packages/tsc-compilers/src/inputs/node-red/context-flow.ts:60-102 | The recursive placement equals `Populate`. A cycle of new predecessors is reported as the stack overflow it causes. |
| ContextFlow.Populate | packages/tsc-compilers/src/inputs/node-red/context-flow.ts:71-102 | A node without a predecessor is dropped and not placed. A node whose predecessor is already recorded is placed. The only throws are a predecessor that is not a node and a cycle. Only the list and the recorded state change. |
| ContextFlow.Settle | packages/tsc-compilers/src/inputs/node-red/context-flow.ts:83-101 | A node is placed exactly when its predecessor has recorded state. It then starts one after the predecessor's end, in the same file, with no flow node, and nothing else is recorded anew. Otherwise it leaves the list and nothing is recorded. |
| Util.Utf16Length | packages/tsc-compilers/src/inputs/node-red/context-flow.ts:98 | `.length` counts UTF-16 code units: between one and two per character, and one per character exactly when none lies above U+FFFF. |
| Util.Utf16LengthConcat | packages/tsc-compilers/src/inputs/node-red/context-flow.ts:98 | The UTF-16 length of a concatenation is the sum of the lengths, so the padding newlines add one each. |
| ContextFlow.PopulateOutcome | packages/tsc-compilers/src/inputs/node-red/context-flow.ts:71-114 | See the list after the table. |
| ContextFlow.Pad | packages/tsc-compilers/src/inputs/node-red/context-flow.ts:107-109 | A truthy `initialize` is wrapped in newlines. Nothing else about the node changes. |
| ContextFlow.ConnectAppends | packages/tsc-compilers/src/inputs/node-red/context-flow.ts:115-129 | A placed node's targets are appended after its predecessor's recorded ones. One occurrence of each removed target is no longer in `removedWires`. |
| ContextFlow.Connect | packages/tsc-compilers/src/inputs/node-red/context-flow.ts:115-129 | A node without a predecessor changes nothing. It throws exactly when the predecessor has no recorded flow node or the node has no wires. Only the predecessor's entry and `removedWires` change. |
| ContextFlow.RemoveEachCounts | packages/tsc-compilers/src/inputs/node-red/context-flow.ts:127-129 | When `removedWires` holds every dropped target, one occurrence of each is removed. |
| ContextFlow.RemoveEachRepeated | packages/tsc-compilers/src/inputs/node-red/context-flow.ts:127-129 | A target dropped twice but held once makes the second `splice(-1, 1)` remove another, unrelated element. |
| ContextFlow.RemoveWires | packages/tsc-compilers/src/inputs/node-red/context-flow.ts:127-129 | The splicing loop computes `RemoveEach`. |
| ContextFlow.PlaceNewNodes | packages/tsc-compilers/src/inputs/node-red/context-flow.ts:104-130 | The loop over `newNodes` computes `PlaceAll`. |
| ContextFlow.RemovedTargetError | packages/tsc-compilers/src/inputs/node-red/context-flow.ts:133-151 | The removed-wire loop throws exactly when some removed target no longer exists, with the error for the first such target. That error is the temporal-dead-zone ReferenceError on `operations` when the target's info exists. |
| ContextFlow.DeletedTargetError | packages/tsc-compilers/src/inputs/node-red/context-flow.ts:133-146 | A deleted target with a recorded entry throws the uninitialized `operations` error, and one without throws the missing `tsNodeInfo` error. |
| ContextFlow.FindDeletedTargets | packages/tsc-compilers/src/inputs/node-red/context-flow.ts:133-146 | The loop computes `RemovedTargetError`. |
| ContextFlow.NodeOperationsCases | packages/tsc-compilers/src/inputs/node-red/context-flow.ts:152-256 | See the list after the table. |
| ContextFlow.NodeOperations | packages/tsc-compilers/src/inputs/node-red/context-flow.ts:152-256 | A node throws exactly when it has no recorded entry, or when it moved behind a predecessor without one. It otherwise yields at most two operations. |
| ContextFlow.EmitOperations | packages/tsc-compilers/src/inputs/node-red/context-flow.ts:151-256 | The loop over the flow nodes concatenates each node's operations, in order, stopping at the first throw. |
| ContextFlow.OperationsStayFailed | packages/tsc-compilers/src/inputs/node-red/context-flow.ts:152-256 | Once a node has thrown, so has the whole loop. |
| ContextFlow.ContextFlowOperations | packages/tsc-compilers/src/inputs/node-red/context-flow.ts:12-259 | On the parsed flow file, the method computes `FlowOperations`. |
| ContextFlow.FlowOperations | packages/tsc-compilers/src/inputs/node-red/context-flow.ts:12-259 | An empty file throws. When no element carries an `info` property, a one-element file yields no operations, and a longer one throws a TypeError on the missing state. |
| ContextFlow.KeptFlowOperations | packages/tsc-compilers/src/inputs/node-red/context-flow.ts:27-259 | When every node is recorded and wired as before, the file compiles to one REPLACE per node whose text changed, in node order. |
| ContextFlow.UnchangedFlowOperations | packages/tsc-compilers/src/inputs/node-red/context-flow.ts:27-259 | A flow exactly as recorded yields no operations. |
| BrowserStats.Intersection | packages/iwanttouse/src/app/browser-stats.ts:1-20 | No arrays is an error. Otherwise the result is the distinct elements of the first shortest array that occur in every array. |
| BrowserStats.IntersectionHas | packages/iwanttouse/src/app/browser-stats.ts:1-20 | An element is in the intersection exactly when every array holds it, and it is there once. |
| BrowserStats.FirstShortest | packages/iwanttouse/src/app/browser-stats.ts:5-11 | The index is that of a shortest array, and every array before it is longer. |
| BrowserStats.SingleIntersection | packages/iwanttouse/src/app/browser-stats.ts:2 | A single array comes back as its distinct elements in first-occurrence order. |
| BrowserStats.SortedIntersection | packages/iwanttouse/src/app/browser-stats.ts:5-19 | On two or more arrays, the loop narrows the first array after the sort by all the others. That is the intersection. |
| BrowserStats.SortPermutes | packages/iwanttouse/src/app/browser-stats.ts:5-9 | Sorting by length is a permutation of the arrays. |
| BrowserStats.SortSorted | packages/iwanttouse/src/app/browser-stats.ts:5-9 | The sorted arrays are in ascending length. |
| BrowserStats.SortHead | packages/iwanttouse/src/app/browser-stats.ts:5-9 | The stable sort puts the first of the shortest arrays in front. |
| BrowserStats.SortArraysByLength | packages/iwanttouse/src/app/browser-stats.ts:5-9 | The array of arrays is sorted in place into `SortByLength` of its old contents. |
| BrowserStats.DeleteMissing | packages/iwanttouse/src/app/browser-stats.ts:12-17 | The inner loop deletes from the set exactly the values the array lacks. |
| BrowserStats.IntersectionOf | packages/iwanttouse/src/app/browser-stats.ts:1-20 | The method returns `Intersection` of the caller's arrays. With two or more arrays it also leaves them sorted by length in place. |
| BrowserStats.AddItem | packages/iwanttouse/src/app/browser-stats.ts:27-33 | An item joins the group of its key, which is appended when new. The keys stay distinct and no other group changes. |
| BrowserStats.Groups | packages/iwanttouse/src/app/browser-stats.ts:22-35 | The groups have distinct keys. |
| BrowserStats.GroupsAreFilters | packages/iwanttouse/src/app/browser-stats.ts:22-35 | There is a group for a key exactly when some item has it. It holds exactly the items with that key, in input order. |
| BrowserStats.GroupBy | packages/iwanttouse/src/app/browser-stats.ts:22-35 | The loop builds `Groups`. |
| BrowserStats.KeysOfHas | packages/iwanttouse/src/app/browser-stats.ts:71-79 | A version key is listed exactly when a truthy version entry produced it as key `+` version. |
| BrowserStats.VersionKeys | packages/iwanttouse/src/app/browser-stats.ts:71-79 | The getter's loop lists `KeysOf` the agent's versions. |
| BrowserStats.SplitVersionKey | packages/iwanttouse/src/app/browser-stats.ts:113 | Splitting a version key on `+` gives the agent key first, then the version when that has no `+`. |
| BrowserStats.StripNote | packages/iwanttouse/src/app/browser-stats.ts:145 | A status with no ` #` note is unchanged, and only then. Otherwise one cut is made, after a part with no note. |
| BrowserStats.StripNoteCuts | packages/iwanttouse/src/app/browser-stats.ts:145 | Stripping ` #…` from a one-line status leaves no note and keeps what came before. |
| BrowserStats.Browsers.constructor | packages/iwanttouse/src/app/browser-stats.ts:99-102 | A new collection has no agents and no features. |
| BrowserStats.Browsers.AddBrowser | packages/iwanttouse/src/app/browser-stats.ts:108-110 | The agent is stored under its key, and a new key goes last in key order. |
| BrowserStats.Browsers.AddFeature | packages/iwanttouse/src/app/browser-stats.ts:124-126 | The feature is stored under its name and nothing else changes. |
| BrowserStats.Browsers.GetBrowser | packages/iwanttouse/src/app/browser-stats.ts:112-122 | A key whose agent before the first `+` is unknown throws a TypeError. Otherwise the result names that agent and its version, with the share of that version or 0. |
| BrowserStats.Browsers.GetVersionKey | packages/iwanttouse/src/app/browser-stats.ts:112-122 | Looking up a version key built from a known agent and a version without `+` gives back that agent, that version and its share. |
| BrowserStats.Browsers.AllVersionKeysHas | packages/iwanttouse/src/app/browser-stats.ts:130-136 | Without features named, every agent's version keys are listed, and nothing else. |
| BrowserStats.Browsers.BrowsersOfHas | packages/iwanttouse/src/app/browser-stats.ts:155 | `map(getBrowser)` succeeds exactly when every key's agent is known, and then gives the lookups in order. |
| BrowserStats.Browsers.FeatureListsFail | packages/iwanttouse/src/app/browser-stats.ts:138-151 | Building the per-feature lists throws exactly when a named feature is unknown, with the TypeError on its `stats`. |
| BrowserStats.Browsers.FeatureListsEntry | packages/iwanttouse/src/app/browser-stats.ts:138-151 | Each built list belongs to a named feature and holds that feature's supported version keys. |
| BrowserStats.Browsers.ByFeatureHas | packages/iwanttouse/src/app/browser-stats.ts:128-156 | See the list after the table. |
| BrowserStats.Browsers.ByFeatureSucceeds | packages/iwanttouse/src/app/browser-stats.ts:128-156 | After `load`, with agent keys free of `+`, `getByFeature` on known features never throws. |
| BrowserStats.Browsers.GetByFeature | packages/iwanttouse/src/app/browser-stats.ts:128-156 | The method computes `ByFeature` and changes nothing. |
| BrowserStats.SupportedHas | packages/iwanttouse/src/app/browser-stats.ts:141-150 | A feature supports a version key exactly when a remaining agent row's status, stripped of its note, is in `states` for that version. |
| BrowserStats.SupportedVersionsHas | packages/iwanttouse/src/app/browser-stats.ts:142-149 | The keys taken from one agent's row are exactly its versions whose stripped status is selected. |
| BrowserStats.FilterStats | packages/iwanttouse/src/app/browser-stats.ts:211-215 | The rows of agents outside the kept set become undefined, and the rest are unchanged. |
| BrowserStats.ShownAgentsHas | packages/iwanttouse/src/app/browser-stats.ts:201-206 | An agent is kept exactly when one of its entries is of the shown kind, or the kind is `all`. The browser then holds the last such entry. |
| BrowserStats.ShownKeysDistinct | packages/iwanttouse/src/app/browser-stats.ts:201-206 | The kept agent keys have no repeats. |
| BrowserStats.LoadedFeaturesHas | packages/iwanttouse/src/app/browser-stats.ts:208-217 | Every feature of the data is added, and nothing else. |
| BrowserStats.LoadedFeature | packages/iwanttouse/src/app/browser-stats.ts:208-217 | A feature holds the rows of its last entry in the data, with the hidden agents set to undefined. |
| BrowserStats.LoadedRowsShown | packages/iwanttouse/src/app/browser-stats.ts:208-217 | After `load`, no remaining row of any feature belongs to a hidden agent. |
| BrowserStats.Load | packages/iwanttouse/src/app/browser-stats.ts:195-220 | The loaded collection is fresh and valid. It holds exactly the shown agents in key order and every feature with its hidden rows cleared. |

Four rows state more than fits in one cell:

- `FullOrb.ResolveDeclaration` (full-orb.ts:248-379):
  - a file without a state is parsed first; a throw there is thrown on and leaves the file being parsed, and otherwise the file ends skipped, giving null, or parsed, giving the definition then cached under the node's key, or null;
  - a skipped file gives null;
  - a definition already cached under the node's own key is returned;
  - an uncached declaration in a parsed file gives null;
  - in a file still being parsed, an import resolves through its module as `ResolveImport` states, a variable with no function throws, a definition with no body, its own or one found through its symbol, gives null, and any other definition is stored under its re-anchored key.
- `ContextFlow.PopulateOutcome` (context-flow.ts:71-114):
  - a node without a predecessor, or whose predecessor has no recorded state, is dropped from the list;
  - a placed node is recorded at its predecessor's end plus one;
  - its span is as long as its `initialize` text counted in UTF-16 code units, as `.length` counts, after the loop over new nodes has padded it.
- `ContextFlow.NodeOperationsCases` (context-flow.ts:152-256). A node yields:
  - an INSERT when it is new;
  - a DELETE when it lost its wire without gaining one;
  - a REPLACE when only its defined text changed;
  - a MOVE, or a DELETE then INSERT, at its predecessor's end plus one when it moved;
  - nothing otherwise;
  - a throw when it has no recorded entry.
- `BrowserStats.Browsers.ByFeatureHas` (browser-stats.ts:128-156):
  - an unknown feature throws the TypeError on `stats`, and any other throw is an unknown agent;
  - the result is a success when every selected key's agent is known;
  - a success holds exactly the version keys selected by every named feature, or all of them when no feature is named.

## Left out

- `uuidv4` ids are a counter (`nextId`) in `FullOrb` and string fields in `NodeRed`. Randomness is not modelled. The ids of the edit operations are dropped.
- `createNodeKey` is modelled as the node's own key. Distinct nodes have distinct keys, which is the injectivity the code relies on.
- The TypeScript type checker and AST factory are not modelled. Symbols, declarations, definition bodies and export targets are folded into the syntax tree as precomputed answers. The `ts.factory` placeholder blocks and calls are recorded as plain nodes.
- `report` logging and `console` output are not modelled. They change no state the model observes.
- `PARSE_STATUS.PENDING` is never assigned by the source, so the model has no such status.
- The `Program` fields are not modelled as updated in place: `sourceFiles`, `functionDefinitions` and `syntheticDefinitions`. They are a `State` value that each method returns. Parsed blocks and definitions referenced from several places live in arenas and are referred to by index. Aliasing through shared JavaScript objects is not captured beyond that.
- A call stack deeper than the engine allows is not modelled. In `populateNewNodeInfo` a cycle of new predecessors would recurse forever. The model detects it with the set of ids being placed and returns an error in place of the stack overflow.
- The read of the flow file and `JSON.parse` (context-flow.ts:14-16) are not modelled. The diff takes the parsed node list as input.
- The temporal-dead-zone `ReferenceError` on `operations` assumes ES2015 `const` semantics, with no transpilation to `var`.
- JavaScript object keys are modelled as ordered entry lists, in insertion order. Integer-like keys, which engines list first, are not reordered. Keys inherited from `Object.prototype`, which `in` and `[]` would also see, are not modelled.
- Floating-point shares are `real`, so NaN and rounding are not modelled.
- `NodeRed.CalculatePosition` takes dagre's coordinates as exact reals. The rounding of the double addition `x + 500` is not modelled, and neither are NaN or infinite coordinates.
- `NodeRed.CalculatePositionKeepsOffsets` holds exactly on reals. With doubles the offsets are kept only up to the rounding of each addition, which the model does not capture.
- `buildAliasTrie`'s handling of `..` paths and its probing of the file system (trie-node.ts:60-118, 126-179) are not modelled. Only the prefix and wildcard derivation is. `lib/tsc-alias/path.ts` and `config.ts` are not part of this model.
- Node's `path.relative`, `path.resolve`, `path.dirname`, `normalize-path` and the absolute-path helper are uninterpreted functions. Nothing is assumed about them.
- `Program.output` and `run` (full-orb.ts:824-840), the renderers under `outputs/`, the decompiler, `createLayoutGraph` and the dagre layout are not part of this model. The same goes for `traverse-fns.ts`, `main.ts`, `bootstrap.ts` and the `iwanttouse` UI.
- `getNodeParms` is modelled only for the block it returns. A node's name and text come from `getText()` on the syntax tree, which is not modelled.
- `featuresByProperty`, `_totalShare`, `getFeature` and the `share`/`browser` getters of browser-stats.ts are not modelled. They are float share sums and plain accessors. `fetch` of the usage data is I/O; `load` takes the data as input.
- `intersectionOf`'s `arrays.sort` is modelled as one stable sort, an insertion sort. The engine's own algorithm is not modelled, but any stable sort gives the same order.
- `load` mutates the data's feature objects in place. The model builds the filtered features as new values.
- `getByFeature`'s `output` is modelled as an array indexed by feature name. Integer-like feature names, which would index it as an array, are not modelled.
- `Modules.GetModuleSpecifierName` does not model the file name and line number attached to the SyntaxError.
- `FullOrb.ParseNode` is stated weaker than the walk it performs. It gives the frame, the file statuses and that calls outside a definition are dropped. It does not state the blocks it builds. Single steps of that building are stated by `GroupStep`, `StartRun`, `FinishBlock` and `RecordCall`, but no contract composes them over a whole walk.
- `FullOrb.ParseChildren` does not tie each child's reported calls to that child's own parse. Nor does it state where a run's placeholder call lies among the calls the children record in the same block. Each placeholder push is stated, one child at a time, by `GroupStep` and `StartRun`.
- `FullOrb.ParseBelow`, `FullOrb.WalkBlock` and `FullOrb.WalkFile` are stated only as walk steps, which keep the frame and the statuses. They call `ParseChildren` and `CloseBlock`, but their contracts do not state the blocks those build.
- `FullOrb.ParseProgramFile` states the status its file ends with and the frame, not the blocks and definitions the parse builds.
