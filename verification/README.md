# Verified model of Fatou's core algorithms

Fatou is a language server, linter and formatter for Julia. This project models the
parts of it that promise something global: a result that holds for a whole include
graph, for every interleaving of edits and reads, for every version specifier or for
every chain of configuration files. Each part is written in the shape of the program
(objects with fields that methods update, loops, recursion) and proved against an
independent description of what it is for.

| part | files | main results |
|---|---|---|
| include graph (`src/incremental.rs`) | IncludeGraph, IncludeSteps, IncludeWalk, IncludeHosts, IncludeLinks | the depth-first walk visits exactly the reached members, in preorder, links every include whose normalized target is a member and reports every other, reports a cycle if and only if there is one, and what it does not report is acyclic; when a host module is the composition of its suffixes with the package name dropped once |
| incremental reparse (`src/incremental.rs`, the edit and splice drivers of `crates/fatou-parser`) | Utf8, Edits, ByteEdits, ReparseCache, ReparseProtocol, ReparseAnchoring, ReparseLaws | under every interleaving each stored base and each result is the full parse, at most 64 files hold a base and every staged chain keeps its budget; eviction drops exactly the overflow; when a staged chain can be trusted, and how trust is regained |
| Pkg compat specifiers (`src/julia_version/compat.rs`) | Text, Versions, Compat, CompatClauses, CompatParsing, CompatEdits, CompatGrammar | the texts that parse are exactly those of a grammar, and contain the versions its operators admit; an edited specifier reads back and admits the version except for one family, touches one clause, and is stable under the same edit |
| name resolution (`src/resolve.rs`, `src/semantic.rs`) | SemanticModel, ScopeNames, Resolver, ResolutionRules, Visibility, VisibleOrder, Agreement, Occurrences, OccurrenceRules | `resolve` gives an answer if and only if it follows the rules of the tiers; `visible` lists exactly the places that offer a name, in order, that no earlier place masks; the two agree on a name exactly outside three cases; the reference index is exactly what the cursor classification says |
| CRC-32C (`src/environment.rs`) | Polynomials, Crc32c, CrcDetection | the bit loop is division by the generator of RFC 3720, section 12.1; which changes it always detects |
| configuration (`src/config.rs`) | ConfigMerge, ConfigLoader, ConfigRules | what a merged table holds under every key; merging is a monoid on tables of one schema; a cycle is reported exactly when the extend chain comes back to a file |
| fixes and script loading (`src/linter/fix.rs`, `src/script_loading.rs`) | Sorting, Fixes, FixRules, ScriptLoading | a fix is left out exactly when one taken before it reaches past its start; right-to-left application is the simultaneous splice; the load is exactly what chains of includes lead to |

`Wrappers` holds the two result types and `Sequences` the operations on sequences that several parts share. `dafny verify dfyconfig.toml` checks everything.

## Where the program and its comments part

- `src/incremental.rs:602-604` says that the package name is stripped once as a leading
  segment. The walk strips at every step taken in the root module (lines 652-656), so a
  package whose entry includes `a` inside `module P`, and `a` includes `b` inside another
  `module P`, puts `b` in the root module (`IncludeHosts.StripsTwice`), where the harvester
  strips only the first (`src/index/harvest.rs:398`). `IncludeHosts.HostIsComposition` gives
  the condition: the host is the composition stripped once if and only if no step is taken
  with just the package's own name composed so far and opens that name again.
- `src/incremental.rs:311-314` says that handing the base back unchanged leaves the staged
  chain anchored to it. That holds if and only if the pending chain, replayed on the text,
  gives the text back (`ReparseAnchoring.UnchangedAnchors`). It does not after any change of
  text without edits, written or staged as unknown, followed by a staged change back
  (`ReparseAnchoring.UnchangedKeepsStaleChain`; `ReparseAnchoring.StaleRun` is such a run from
  an empty cache). Nothing wrong is ever returned, because chains are verified before use;
  the chain is merely of no use until a store drains it.
- `src/incremental.rs:892` calls the side-channel bounded by 64 files. What is bounded
  is the number of bases, over every run (`ReparseLaws.RunsStayWithinBudget`). Entries are
  not: a change of unknown shape makes one and returns before the eviction (lines 1017-1025),
  so any number of such changes leaves as many entries (`ReparseLaws.UnknownChangesPileUp`)
  until the next known change or store, after which at most 64 are left
  (`ReparseLaws.KnownChain`, `ReparseLaws.StoringBase`).
- `CompatSpec::with_version` is meant to give a text that admits the version. It does so
  for every text and version except 0.0.0 when a union of several clauses does not
  contain it: the new arm then is the one spelling the parser rejects
  (`CompatEdits.EditReadsBack`, with the concrete case in `CompatEdits.ZeroUnionFails`).
- `src/resolve.rs:16-22` describes one order for `resolve` and `visible`. They differ for
  the enclosing workspace module's own name (line 415), when Base is not harvested but
  Core is (line 978 against lines 619-621), and for a macro's spelling with its `@` looked up
  as a value, which line 335 rules out by its documentation only.
  `Agreement.ResolveAgreesWithVisible` shows that these are the only cases, for every name,
  position and namespace; `Agreement.OwnNameIsNotListed`, `Agreement.CoreAloneIsNotResolved`
  and `Agreement.SigilIsNotListed` show that each occurs.

## Model

| member | source | states |
|---|---|---|
| IncludeWalk.ProjectGraph | src/incremental.rs:554-596 | the graph returned is a project graph: nodes are the reached members, each once, in depth-first preorder from the entries in package order; each host is handed down along the include that first reaches its file; links, misses and cycles are as the rows below say, the cycles being the back edges of the depth-first postorder |
| IncludeWalk.IncludeWalk.Walk | src/incremental.rs:606-671 | walking an unvisited member finishes it with the host given, restores the stack, keeps the invariant and changes nothing recorded for earlier files |
| IncludeWalk.IncludeWalk.Include | src/incremental.rs:638-668 | one include: its link is recorded both ways and its target is walked, reported as a cycle or left alone by its colour |
| IncludeWalk.ReportsExactlyWhenCyclic | src/incremental.rs:658-667 | a cycle edge is reported if and only if some reached member can reach itself |
| IncludeWalk.CompleteIsProjectGraph | src/incremental.rs:518-537 | a walk that kept the invariant and is over has exactly the promised graph |
| IncludeWalk.UnreportedTrailDescends | src/incremental.rs:539-545 | along includes that were not reported files finish in strictly descending order, so none comes back |
| IncludeWalk.GraphIsDetermined | src/incremental.rs:519-532 | a workspace has one order of nodes, and for each node one host, one list of links, one of reported cycle edges and one of unresolved includes: the graph's description leaves no choice |
| IncludeLinks.LinksAreIncludes | src/incremental.rs:619-642 | the files recorded for a node are, in source order, the members that its includes' targets normalize to, and no others |
| IncludeLinks.MissesAreIncludes | src/incremental.rs:620-637 | the unresolved entries of a node are, in source order and with the path as written, its includes without a target or whose target normalizes to no member |
| IncludeLinks.IncludeIsLinked | src/incremental.rs:631-647 | the member an include's target normalizes to is a node, linked both ways, as often in the one map as in the other |
| IncludeLinks.ReportsAreMisses | src/incremental.rs:622-637 | an unresolved include is reported if and only if it stands in a node and normalizes to no member; only nodes have links |
| IncludeLinks.DetourGraph | src/incremental.rs:619-637 | the whole graph of a package whose targets all take detours that normalization removes |
| IncludeHosts.HostIsComposition | src/incremental.rs:649-656 | along every trail the host is the composition of the suffixes with the package name stripped once, if and only if no step strips again |
| IncludeHosts.RecordedHosts | src/incremental.rs:525-530 | every recorded host belongs to a trail from an entry: that composition stripped once, or at least two names short of the composition |
| IncludeHosts.StripsTwice | src/incremental.rs:652-656 | a package of three files for which every project graph has a host that is not that composition |
| IncludeWalk.NodesReached | src/incremental.rs:617-667 | the nodes are exactly the members some trail of includes leads to from a seeded entry |
| IncludeSteps.EnterKeeps | src/incremental.rs:616-618 | colouring a member gray and recording node and host keeps the invariant |
| IncludeSteps.MissKeeps | src/incremental.rs:621-637 | an include without a member as target adds one unresolved entry in source order and keeps the invariant |
| IncludeSteps.LinkKeeps | src/incremental.rs:638-647 | pushing a link onto both maps keeps them exact transposes of each other and the links in source order |
| IncludeSteps.CloseCycleKeeps | src/incremental.rs:658-663 | reporting an include of a gray file keeps every report a true cycle |
| IncludeSteps.CloseKeeps | src/incremental.rs:664 | passing over an include of a black file keeps the invariant |
| IncludeSteps.LeaveKeeps | src/incremental.rs:670 | a file turns black only with all its includes dealt with |
| Edits.TryApplyConcat | crates/fatou-parser/src/parser/edit.rs:58-71 | applying two chains after one another is applying their concatenation, failures included |
| ByteEdits.ComputeByteDiff | crates/fatou-parser/src/parser/edit.rs:77-104 | the loops over bytes, with their clamping to character boundaries, recover exactly the edit that the longest common prefix and suffix of characters give |
| ByteEdits.FittingEdits | crates/fatou-parser/src/parser/edit.rs:61-66 | the byte ranges that fit a text are exactly the ranges of its characters |
| ByteEdits.ReplacedBytes | crates/fatou-parser/src/parser/edit.rs:27-34 | replacing a byte range gives the bytes of the text edited by characters |
| Utf8.BoundariesArePrefixes | crates/fatou-parser/src/parser/edit.rs:85-87 | the places where bytes may be cut are the ends of character prefixes |
| Edits.DiffEditApplies | crates/fatou-parser/src/parser/edit.rs:73-77 | the recovered edit fits the old text and turns it into the new one |
| Edits.DiffEditIsSmallest | crates/fatou-parser/src/parser/edit.rs:73-77 | no single edit between the two texts replaces a shorter range |
| Edits.ComputeReparseEdits | crates/fatou-parser/src/parser/reparse.rs:182-240 | the loop over the chain computes the stepwise splice, with each rejection |
| Edits.SpliceChainIsFaithful | crates/fatou-parser/src/parser/reparse.rs:213-240 | each intermediate tree of a chain is the full parse of the intermediate text |
| Edits.ReparseEditsIsFaithful | crates/fatou-parser/src/parser/reparse.rs:167-173 | whatever chain is offered, a result is the full parse of the new text and the chain really leads there |
| ReparseCache.EvictionIsExact | src/incremental.rs:925-963 | exactly the overflow is dropped; no hot entry while the hot ones fit; only hot ones stay otherwise; within a class every survivor is newer than every victim; survivors are unchanged |
| ReparseCache.RanksCount | src/incremental.rs:926-927 | with unique stamps exactly `n` entries are among the `n` oldest |
| ReparseCache.ThresholdIsRank | src/incremental.rs:945-947 | keeping what is newer than a threshold is keeping what ranks above the number at or below it |
| ReparseCache.SelectNth | src/incremental.rs:944-945 | the threshold is a stamp with exactly `n` stamps at or below it |
| ReparseCache.ReparseCache.EvictOverBudget | src/incremental.rs:928-963 | both branches leave exactly the entries that survive by rank |
| ReparseCache.ReparseCache.TouchFile | src/incremental.rs:917-923 | the entry exists and carries the new highest stamp |
| ReparseCache.ReparseCache.ReparsePrev | src/incremental.rs:1007-1014 | the base is returned and its entry stamped; an absent file creates nothing |
| ReparseLaws.ReadingBase | src/incremental.rs:1007-1014 | reading a base makes its entry newer than every other and changes nothing else |
| ReparseCache.ReparseCache.ReparseStageEdits | src/incremental.rs:1016-1040 | a known chain is appended, promotes the entry and evicts; over budget it is cleared; an unknown one only clears |
| ReparseLaws.KnownChain | src/incremental.rs:1027-1039 | after a known chain what is pending is the old chain with it, or nothing if that has more than 16 edits or inserts more than 65536 bytes; the file is hot and newest, keeps its base and stays; others stay as they are, 64 entries at most |
| ReparseLaws.UnknownChain | src/incremental.rs:1017-1025 | an unknown chain clears what is pending and nothing else, and drops no entry |
| ReparseLaws.UnknownChangesPileUp | src/incremental.rs:1017-1025 | unknown changes of any number of files leave as many entries, none with a base |
| ReparseLaws.SeventeenKeystrokes | src/incremental.rs:1027-1038 | sixteen insertions staged before any read are all pending, the seventeenth clears them |
| ReparseLaws.RunsStayWithinBudget | src/incremental.rs:1027-1038 | over every run from an empty cache at most 64 files hold a base, and each pending chain has at most 16 edits that insert at most 65536 bytes |
| ReparseCache.StageKeepsStamps | src/incremental.rs:1016-1040 | stamps stay unique, and after a known chain at most the budget remains with the file among it |
| ReparseCache.ReparseCache.ReparsePendingEdits | src/incremental.rs:1042-1048 | the pending chain, empty for an absent file |
| ReparseCache.ReparseCache.ReparseStore | src/incremental.rs:1050-1081 | base, hot flag and prefix drain in one step, then eviction |
| ReparseLaws.StoringBase | src/incremental.rs:1062-1080 | the stored entry holds the base given, its class is kept or raised by a hit, and the chain without the prefix seen; others stay as they are, 64 entries at most |
| ReparseCache.StoreKeepsStamps | src/incremental.rs:1050-1081 | stamps stay unique and at most the budget remains |
| ReparseCache.StoreDropsItself | src/incremental.rs:903-905 | a base just stored is dropped at once if and only if it was no hit, was not hot and hot entries fill the budget |
| ReparseCache.ReparseCache.ReparseEvict | src/incremental.rs:1083-1085 | the entry goes, all others stay |
| ReparseProtocol.ComputeIsParse | src/incremental.rs:319-343 | from a true base every route of a reader gives what a full parse would, whatever was staged |
| ReparseLaws.RouteTaken | src/incremental.rs:319-343 | a reader hands the base back when the texts are equal, else splices the staged chain if it replays, else the single edit between the texts if that splices, and only then parses in full |
| ReparseLaws.ChainIsUsed | crates/fatou-parser/src/parser/reparse.rs:182-240 | a chain is used if and only if it is not empty and each edit fits and splices in turn, ending in the text asked for |
| ReparseLaws.StageDuringRead | src/incremental.rs:1065-1077 | a stage that lands while a reader works need not wait, and is what is left pending when the reader has stored |
| ReparseLaws.CancelLeavesNothing | src/incremental.rs:303-306 | a reader that has peeked and is cancelled leaves everything as it was |
| ReparseLaws.EvictDuringRead | src/incremental.rs:1083-1085 | a base evicted while a reader works is there again, with nothing pending, when the reader has stored |
| ReparseProtocol.StepIsSafe | src/incremental.rs:303-361 | every step keeps all bases true parses, all readers on the current text, stamps unique and every pending chain a contiguous suffix of what was staged |
| ReparseProtocol.RunsAreSafe | src/incremental.rs:303-361 | the same over every run, with cancellations and evictions anywhere |
| ReparseProtocol.EveryResultIsParse | src/incremental.rs:300-301 | from an empty cache, every reader about to finish returns the full parse of the text its file has then |
| ReparseProtocol.AloneIsFourSteps | src/incremental.rs:303-361 | a reader that is not interrupted is the four steps in a row |
| ReparseProtocol.ParsedDocument | src/incremental.rs:303-361 | the parse of the text is returned, and the cache is as after those four steps |
| ReparseAnchoring.StepKeepsAnchor | src/incremental.rs:1065-1077 | a step calm for a file keeps its chain replaying base to text and every peeked chain droppable |
| ReparseAnchoring.ChainsReplay | src/incremental.rs:1065-1077 | over calm runs the pending chain replays the base to the current text and a peeked chain replays the base read to the text parsed, also when a stage lands between peek and store |
| ReparseAnchoring.StoreRecovers | src/incremental.rs:1069-1077 | however a chain was lost, one undisturbed reader that stores anchors the file again |
| ReparseAnchoring.UnchangedAnchors | src/incremental.rs:308-326 | a reader that hands the base back keeps the pending chain, and leaves the file anchored if and only if the chain replayed on the text gives the text back |
| ReparseAnchoring.UnchangedKeepsStaleChain | src/incremental.rs:308-326 | after a change of text without edits and any staged way back, that way is still pending once the document was read, anchored only under that same condition |
| ReparseAnchoring.StaleRun | src/incremental.rs:308-326 | a run from an empty cache that ends with text and base alike and a chain that does not fit them |
| Versions.ComputeSuccessor | src/julia_version/compat.rs:240-251 | the carry loop computes the successor |
| Versions.SuccessorBounds | src/julia_version/compat.rs:240-251 | below the successor are exactly the versions whose first components are at most the given ones; no successor exactly when those are all at the maximum |
| Versions.SuccessorAbove | src/julia_version/compat.rs:240-251 | the successor lies above the version and has zeros behind its precision |
| Compat.ParseNumber | src/julia_version/compat.rs:211-230 | the component loop reads one to three decimal components that fit 32 bits, and where they stand |
| Compat.ParseParts | src/julia_version/compat.rs:39-49 | parsing part by part with a running offset, stopping at the first bad part |
| Compat.ParseSpec | src/julia_version/compat.rs:39-49 | a specifier is the list of its comma-separated clauses |
| CompatGrammar.ParsesExactlyDocuments | src/julia_version/compat.rs:39-49 | a text parses if and only if it is a list of clauses of the grammar: a sign, blanks and one to three numerals within 32 bits, or two numbers around a dash with blanks |
| CompatGrammar.DocumentReads | src/julia_version/compat.rs:39-49 | every such text parses clause by clause to the kind, the numbers and their places in the text, and an interval of just the versions the operator admits |
| CompatGrammar.ClauseReads | src/julia_version/compat.rs:142-209 | the same for one clause, at whatever place it stands |
| CompatGrammar.ClauseIsWritten | src/julia_version/compat.rs:142-230 | nothing else is read as a clause |
| CompatGrammar.ContainsWhatIsWritten | src/julia_version/compat.rs:51-55 | a specifier contains a version if and only if one of its written clauses admits it |
| CompatClauses.WrittenNumber | src/julia_version/compat.rs:232-238 | a formatted version parses back to itself, truncated to the precision |
| CompatClauses.OperatorEdited | src/julia_version/compat.rs:96-118 | rewriting the number of an operator clause in place gives the clause of that operator and number |
| CompatClauses.HyphenEdited | src/julia_version/compat.rs:111-118 | rewriting the upper end of a hyphen range in place keeps its lower end |
| CompatParsing.NumberReplaced | src/julia_version/compat.rs:117-119 | replacing one number by its span changes that clause and no other |
| CompatEdits.SelectedIsBest | src/julia_version/compat.rs:72-78 | the clause chosen has the highest floor among those considered and is the last of them |
| CompatEdits.EditDeclines | src/julia_version/compat.rs:77-110 | no text comes back exactly when no clause admits the version and either some clause starts above it or the only clause is an upper bound that cannot be raised further |
| CompatEdits.EditReadsBack | src/julia_version/compat.rs:71-121 | a text that comes back parses and admits the version, if and only if the version is not 0.0.0 outside every arm of a union of several clauses |
| CompatEdits.ZeroUnionFails | src/julia_version/compat.rs:82-99 | `<0, <0` edited for 0.0.0 no longer parses |
| CompatEdits.EditTouchesOneClause | src/julia_version/compat.rs:68-70 | an edit changes one clause in place, or appends one and keeps the old text as a prefix; all other clauses mean what they did |
| CompatEdits.EditIsIdempotent | src/julia_version/compat.rs:71-121 | editing the result for the same version gives the same text |
| CompatEdits.RewriteAdmits | src/julia_version/compat.rs:100-116 | the number written by each kind of clause makes that clause admit the version |
| Text.WhiteSpaceIs | src/julia_version/compat.rs:43-44 | what trimming drops are the twenty-five characters of Unicode's White_Space property |
| CompatEdits.PrecisionIsLeast | src/julia_version/compat.rs:123-136 | an edit keeps a clause's precision; an exact clause gets the least one, no shorter than its own, that spells the version |
| CompatEdits.OperatorAdmits | src/julia_version/compat.rs:181-203 | what each operator's interval contains, component by component; for a caret up to the first component that is not zero, or up to the precision when all are |
| CompatEdits.HyphenAdmits | src/julia_version/compat.rs:148-156 | a hyphen range contains the versions from its lower end whose written components are at most the upper end's |
| CompatEdits.EnvelopeIsTight | src/julia_version/compat.rs:57-66 | the envelope covers the union; its floor is a clause's; its ceiling is missing exactly when a clause has none and otherwise is the highest of theirs |
| SemanticModel.SemanticModel.FindScopeAt | src/semantic.rs:201-213 | the loop computes the innermost scope |
| SemanticModel.ScopeAtIsInnermost | src/semantic.rs:201-213 | no scope around a position is shorter than the one found, and every later one around it is longer |
| SemanticModel.SemanticModel.FindEnclosingModulePath | src/semantic.rs:142-161 | the cursor loop and final reversal give the module names outermost first |
| SemanticModel.OccurrencesAre | src/semantic.rs:254-275 | the occurrences of a binding are its definition, if it has one in the text, and then every identifier resolved to it, once and in source order |
| ScopeNames.ResolveName | src/semantic.rs:167-198 | the first binding that answers to the name, scope by scope outwards, last introduced first |
| ScopeNames.NamesInScopeAt | src/semantic.rs:215-237 | the bindings in scope with shadowed names dropped |
| ScopeNames.InScopeResolves | src/semantic.rs:215-237 | a binding is listed in scope if and only if its own name resolves to it there |
| ScopeNames.LookupsAgree | src/resolve.rs:841-866 | lookup by stored name and by namespace agree on macros always, on values exactly unless the nearest binding of that name is a macro |
| Resolver.Resolver.FindFileBinding | src/resolve.rs:844-866 | the cursor loop finds the innermost, last introduced binding and stops at the first global scope |
| Resolver.Resolver.ScopeVisible | src/resolve.rs:1017-1030 | a statement is visible exactly when its scope is on the read's chain |
| ResolutionRules.ResolveFollowsRules | src/resolve.rs:364-477 | `resolve` gives an answer if and only if it follows the rules: the innermost last binding on the scope chain, else what the workspace module defines, is called or imports, else the first `using` clause without items, made on the chain, that opens a module exporting the name, else the module's own clauses, else Base and then Core |
| ResolutionRules.BindingRule | src/resolve.rs:844-866 | the binding found is the last under the name in the innermost scope on the chain that has one |
| ResolutionRules.LoadRule | src/resolve.rs:870-884 | the clause found is the first whole-module `using` on the chain whose absolute path leads to a harvested module that exports the name |
| ResolutionRules.DefinesRule | src/resolve.rs:818-841 | the module defines a macro it lists, a type or constant, a function with a written method, or a function behind which no exported type or constant stands |
| ResolutionRules.HostTierRule | src/resolve.rs:400-428 | the workspace tier answers for what the module has itself, then for what it imports, and for nothing else |
| ResolutionRules.ModulePathIsUnique | src/semantic.rs:142-161 | a scope's module path is the names of the named modules around it, outermost first |
| VisibleOrder.VisibleListsPlaces | src/resolve.rs:521-635 | completion lists, in order of tier, list and position, exactly the places that offer a name which no earlier place offers |
| Visibility.Visible | src/resolve.rs:521-635 | the candidates are what all tiers offer, in masking order, the first under each name |
| Agreement.ListedIsFound | src/resolve.rs:521-527 | under any name the list holds nothing, or exactly the first offer of that name |
| Agreement.FindBindings | src/resolve.rs:843-866 | the first binding offered under a name is the one a read finds |
| Agreement.FindHost | src/resolve.rs:556-576 | the workspace module offers a name exactly when it defines or imports it |
| Agreement.FindLoads | src/resolve.rs:870-884 | the first `using` offering a name is the first one that exports it |
| Agreement.SystemExportIs | src/resolve.rs:976-984 | Base before Core, and nothing at all when Base is missing |
| Agreement.ResolveAgreesWithVisible | src/resolve.rs:364-477 | resolved exactly when listed, and then listed once from the same tier and the same binding, module or path, if and only if none of the three exceptions applies |
| Agreement.OwnNameIsNotListed | src/resolve.rs:414-421 | a module's own name resolves inside it but is not listed |
| Agreement.CoreAloneIsNotResolved | src/resolve.rs:976-984 | with Core alone in the library its export is listed but does not resolve |
| Agreement.BareNamesHaveNoSigil | src/resolve.rs:335-337 | the third exception concerns value names that start with the macro sigil only |
| Agreement.SigilIsNotListed | src/resolve.rs:335-337 | with a macro exported from Base its spelling resolves as a value but is not listed as one |
| Agreement.ItemListOpensNothing | src/resolve.rs:991-1000 | `using X` opens what `X` exports, to both `resolve` and `visible`; `using X: a` opens nothing else |
| OccurrenceRules.BindingRuleIs | src/resolve.rs:792-816 | a binding is classified as a symbol if and only if it is made in a file or module scope, goes by the symbol's name, and the workspace module of that scope defines the name as seen from the definition |
| OccurrenceRules.SymbolRule | src/resolve.rs:733-765 | a position is classified as a symbol if and only if the first identifier around it is bound to it or means it, or there is none and the first definition around it is of it |
| OccurrenceRules.IndexRecords | src/resolve.rs:666-730 | every record is a definition, a use or a free read of its symbol with that site's access, and no such site's range is left out |
| OccurrenceRules.IndexIsTheRecords | src/resolve.rs:666-730 | with sites apart, a bucket holds exactly those records |
| Occurrences.WorkspaceOccurrences | src/resolve.rs:651-731 | the loops over bindings and identifiers gather the buckets, each sorted and without repetitions |
| Occurrences.IndexIsOrdered | src/resolve.rs:725-730 | every bucket is strictly ordered by range |
| Occurrences.IndexHas | src/resolve.rs:666-723 | a bucket holds exactly the occurrences of the bindings with its key and the free reads that resolve to it |
| Occurrences.TidiedIsPartOf | src/resolve.rs:725-730 | sorting and dropping repetitions makes nothing up |
| Occurrences.TidiedKeepsFirst | src/resolve.rs:725-730 | of several records with one range the first that was gathered is kept |
| Occurrences.SymbolIsListed | src/resolve.rs:733-765 | whatever symbol a position is classified as, the index holds that site under it |
| Occurrences.IndexIsTheSymbols | src/resolve.rs:787-816 | with sites apart, the index under a key is exactly the sites that are classified as that key at their start |
| Crc32c.Crc32c | src/environment.rs:965-975 | the loop over bytes and bits computes the checksum |
| Crc32c.CrcChains | src/environment.rs:964-975 | continuing over a second part is the checksum of both parts |
| Crc32c.GeneratorWord | src/environment.rs:966 | the constant, read from its lowest bit, is the generator 0x11EDC6F41 below its leading coefficient |
| Crc32c.StepTimesX | src/environment.rs:970-972 | one bit step multiplies by x modulo the generator |
| Crc32c.CrcIsRemainder | src/environment.rs:965-975 | the checksum, every coefficient turned over, is the remainder of the message by polynomial long division, started from the initial value turned over |
| Crc32c.CheckValue | src/environment.rs:965-975 | the checksum of the nine digits is the customary check value 0xE3069283 |
| Polynomials.AbsorbDivides | src/environment.rs:968-973 | taking in a message bit by bit is long division of the message followed by 32 zeros |
| Polynomials.RegisterIsLinear | src/environment.rs:968-973 | two registers differ by what the difference of their messages leaves |
| Polynomials.ZeroRemainderIsMultiple | src/environment.rs:968-973 | long division leaves zero if and only if the dividend is a product of the generator |
| CrcDetection.CollisionIsMultiple | src/environment.rs:965-975 | two messages of one length collide if and only if their difference, followed by 32 zeros, is a product of the generator |
| CrcDetection.DetectsBursts | src/environment.rs:965-975 | a difference within 32 consecutive bits always changes the checksum |
| CrcDetection.DetectsFourByteChanges | src/environment.rs:965-975 | so does any change within four consecutive bytes |
| CrcDetection.DetectsOddFlips | src/environment.rs:965-975 | so does flipping an odd number of bits |
| ConfigMerge.MergeConfigTables | src/config.rs:707-742 | updating the inherited table key by key, in any order, gives the merge |
| ConfigRules.MergeRule | src/config.rs:707-742 | what a merge holds under any key, kind by kind, with the keys whose lists are joined, the functions replaced as a whole and the widths of the format section spelled out |
| ConfigRules.WidthRule | src/config.rs:452-459 | the width in effect is the spelling with a dash if it is set, else the other |
| ConfigMerge.Entry | src/config.rs:707-742 | what a merge holds under each key; for a width, both spellings are the child's if it sets either |
| ConfigMerge.MergeIsMonoid | src/config.rs:707-742 | the empty table is a unit and merging is associative on tables of one schema |
| ConfigMerge.MixedKindsDoNotAssociate | src/config.rs:707-742 | without one schema the grouping matters |
| ConfigMerge.FoldSplits | src/config.rs:689-692 | a chain of tables may be cut anywhere and its parts merged |
| ConfigMerge.WidthIsInherited | src/config.rs:445-467 | the width in effect, and whether its old spelling is warned about, are the child's if it sets either spelling and the inherited ones otherwise |
| ConfigLoader.Loader.LoadMergedTable | src/config.rs:627-692 | the recursive load with its outcome, the stack restored and the files visited |
| ConfigLoader.OutcomeIsChain | src/config.rs:627-692 | every outcome is explained by the chain of extended files: the fold of its tables, the file that could not be identified, read or parsed with its message, or the file it returned to; the files visited are those of the chain that were entered |
| ConfigRules.ContributionRule | src/config.rs:657-705 | a file contributes its table without what it extends, and if it is inherited, with each relative entry point of either list read beside the file |
| ConfigLoader.CycleIsReported | src/config.rs:636-641 | a cycle is reported if and only if some chain of extended files comes back to one of its files |
| ConfigLoader.LoadIsFold | src/config.rs:642-692 | a success is the merge of the chain's own tables, every file once, and visits just those files |
| Sorting.SortByIs | src/linter/fix.rs:39-40 | the sort is ordered, a permutation, and keeps the order of equal keys |
| Fixes.ApplyFixes | src/linter/fix.rs:31-60 | one pass gives the splice of the chosen fixes and their number |
| FixRules.ChosenAre | src/linter/fix.rs:31-50 | the fixes applied are, in order of start, end and place in the report, exactly the admitted ones that no fix applied before them reaches past the start of |
| Fixes.ChosenIs | src/linter/fix.rs:42-50 | chosen fixes do not overlap; each skipped one starts inside a chosen one; together they are the eligible fixes |
| Fixes.ReplaceBackwards | src/linter/fix.rs:52-56 | replacing right to left is replacing all ranges of the source at once |
| Fixes.NothingChosen | src/linter/fix.rs:101-107 | nothing is applied exactly when nothing is eligible |
| Fixes.FixWith | src/linter/fix.rs:92-122 | the bounded loop of passes |
| Fixes.OutcomeIs | src/linter/fix.rs:92-122 | what remains is the report on the text returned, and that text is settled or every pass applied something |
| FixRules.TenPasses | src/linter/fix.rs:92-122 | a rule that never settles is applied ten times |
| Fixes.SettledIsFixed | src/linter/fix.rs:101-107 | once settled, running again and running longer change nothing |
| ScriptLoading.LoadSources | src/script_loading.rs:28-52 | the result is the least set holding the entries and closed under includes, each file as read, buffers first, and fetched from disk at most once |
| ScriptLoading.LoadKeeps | src/script_loading.rs:36-49 | loading a popped path and pushing its includes loses nothing and adds nothing unneeded |
| ScriptLoading.LoadIsUnique | src/script_loading.rs:28-52 | there is one such result, whatever the order of the entries and of the stack |
| ScriptLoading.LoadIs | src/script_loading.rs:28-52 | a path is loaded if and only if a chain of includes leads to it from an entry, and it is held as its open buffer, else as the disk, else as the failure to read it |
| ScriptLoading.ChainsAreLoaded | src/script_loading.rs:28-52 | whatever a chain of includes leads to from an entry is loaded |

## Left out

- The parser itself, its token and region tiers, the formatter and the semantic builder: parsing and splicing one edit are parameters, with the one assumption that a splice of a fitting edit into a true parse is the true parse or nothing; the semantic model is given, with its indices in range.
- Salsa memoisation, revisions and cancellation signals, and the thread pools: of them only the rule that a write that changes a text waits for live readers, and that a reader may be cancelled at any step. That a query runs at most once at a time for one file is not built in; the anchoring results ask for it, in that no second reader of the file has peeked when one stores.
- Unbounded clocks: the stamp counter is a 64-bit integer in the program and unbounded here.
- Bytes against characters: offsets of fixes, version numbers, identifiers and scopes count characters; for text edits the two are connected by `ByteEdits`.
- Syntax of includes: the includes of a file are an arbitrary list of edges with target, written path and module suffix; agreement of the hosts with the harvester's is not claimed.
- Unicode white space: trimming uses one predicate for white space.
- Script contexts in name resolution, qualified names, and whether a symbol can be renamed.
- The harvested library is a finite map from names to packages; harvesting it is not modelled.
- Paths: normalising, joining and canonicalising them are parameters, and so are reading files and parsing TOML; the order in which project entries are taken is that of the given list.
- A configuration cycle is an error of its own here; the program reports it as a parse error that names the file.
- IncludeWalk.ProjectGraph: how the misses and the cycle edges of different files interleave, and the order inside a reverse list, are not stated; per file misses and cycle edges are in source order.
- ConfigMerge.MergeIsMonoid: associativity is stated for tables whose shared keys hold values of one kind and whose widths are no tables, which is what the typed schema enforces; `ConfigMerge.MixedKindsDoNotAssociate` shows why.
- Fixes.FixWith: `check` is a function of the text; a check with state of its own is not modelled.
- Slug digits, UUID text and hexadecimal parsing: short loops next to the checksum.
- Deserialising a merged table into typed settings, apart from the choice between the two spellings of a width.
