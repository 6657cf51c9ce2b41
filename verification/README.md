# A verified model of overseerd's configuration, construction order and streaming core

overseerd is a Rust application framework. This project models four of its parts in Dafny and proves
what they promise, for all inputs and all runs:

- **Configuration templates.** A `${key:default}` parser; a resolver with an in-flight stack, a depth cap
  of 64, a step budget of 4096, a byte budget of 1 MiB and a recorded dependency trace; the reload
  fingerprint built on that trace; and the merging of declared defaults under file values.
- **Construction order.** The greedy topological sort over concrete, single-trait, collection and keyed
  edges, with transient providers expanded by a memoised, cycle-breaking walk; the registry's one
  descriptor per type and its captive-dependency rule; and the plan that runs the sort once per scope.
- **NDJSON streams.** The decoder that buffers lines across chunk boundaries, the encoder, and the byte
  and item limits.
- **Concurrent handles.** Double-checked initialization of lazy handles, and the hand-off of deferred
  handles between registration and scope attachment, as interleaved atomic steps of any number of threads.

## How it is built

| file | what it holds |
|---|---|
| `Common.dfy` | option, result, saturating addition |
| `ConfigTree.dfy` | the configuration tree and dotted paths |
| `TemplateSemantics.dfy` | the meaning of a template when nothing bounds its resolution |
| `ResolveContext.dfy` | the guarded, stateful resolver, proved against that meaning |
| `ResolutionMeaning.dfy` | what a resolution says about the tree, the resolvers and the template, in their own terms |
| `Deserialization.dfy` | whole passes over one context, the trace as a fingerprint, `snapshot_matches` |
| `SnapshotGap.dfy` | when the snapshot of an unchanged world matches it, and a world where it does not |
| `TemplateParser.dfy` | the parser and the canonical printer it inverts |
| `Defaults.dfy` | the four tagging shapes of default filling: what a fill keeps and what it adds |
| `DefaultsTwice.dfy` | exactly when a second fill changes nothing |
| `DependencyGraph.dfy` | descriptors and provider selection |
| `ExpansionGraph.dfy` | the wait relation, declaratively |
| `WaitExpansion.dfy` | the memoised expansion, proved against that relation |
| `TopologicalSort.dfy` | the wait tables, readiness and the greedy sort |
| `ProviderChoice.dfy` | which provider an edge waits for, said of the registered providers |
| `ScopePlan.dfy` | the partition into scopes and their orders |
| `PlanGuarantees.dfy` | what a plan keeps, what it builds in time, and where planning goes wrong |
| `ComponentRegistry.dfy` | one descriptor per type, and the captive-dependency rule |
| `NdjsonStream.dfy` | lines, decoder, encoder, limits |
| `LazyHandle.dfy` | `Lazy::get_or_create` and `Lazy::create`, interleaved |
| `DeferredHydration.dfy` | `attach` and `register_deferred`, interleaved |

Stateful code is modelled as classes and loops (`ResolveCtx`, `WaitExpansion`, `NdjsonState`, `Subtree`,
and the loops of the sort, the registry, the plan and the parser). Each such method is proved against a
definition that knows nothing of its state: `Eval`, `Gates`, `BuildOrder`, `Meaning`, `Parse`, `Winner`,
`FillMissing`. The lemmas are about those definitions.

Definitions that an operation shares with its specification are pinned by statements that use none of them:
numbers by reading them back, byte counts by UTF-8, precedence by the key's spelling, provider choice by the
registered providers, places in a plan by the descriptors, limits by the bytes received, fills by what is found
afterwards.

Parameters stand for what is foreign: resolvers and the environment are a list of functions from key to
optional value, `f64`'s decimal rendering and `str::parse` are functions, JSON encoding and decoding are
functions, type identities are numbers, and hash-map iteration is an arbitrary choice of the next element.

## What the proofs found

Where the code does not meet a property that its documentation or its purpose suggests, the model follows
the code, exhibits a failing input, and proves exactly when the property holds.

- *Reload skipping is sound but not complete.* A snapshot that matches guarantees equal texts
  (`MatchingSnapshotIsCurrent`), but a pass that fits the step budget can leave a trace whose re-resolution
  does not, so the snapshot of an unchanged world is reported as changed (`UnchangedWorldCanMismatch`).
  `UnchangedWorldMatchesIff` gives the exact condition: the steps and renderings of the pass, each counted
  once for every reference it was nested in, must fit the budgets.
- *Default filling is not always idempotent*, although `crates/config/src/managed/source.rs:479` says so. A
  tag entry written as a template is never read back, so every fill appends one more
  (`TemplatedTagAccumulates`). `FillTwiceIffSettled` gives the exact condition on the tree before the first
  fill, and `FillTwiceIffPlainlySettled` what it comes to for default tags without `$`.
- *A repeated scope name loses components.* The second occurrence overwrites the first one's order with an
  empty one: `RepeatedScopeLoses` is a chain that is accepted and loses its only component, one exists for
  every intermediate scope (`SomeComponentIsLost`), and `ScopeKeepsComponents` gives the exact condition.
- *A dependency on a transient by its own type cannot be planned.* The registry's lifetime rule allows it, but
  the sort waits for a type that nothing builds: `TransientTargetFails` with `SomeTransientTargetFails` is such
  an input, `MissingTargetBlocks` says that one such edge is enough, and `LoneComponent` and `Partition` say
  exactly when sorting and planning succeed.
- *A byte limit can make items appear.* A cut reads as a clean end of stream, so a partial last line is
  offered to the decoder (`CutCanInventItems`); `LimitedDecodeKeepsPrefix` says exactly when what the limited
  decoder emits is a prefix of what the unlimited one emits.
- *Whether duplicate automatic descriptors are an error depends on registration order*: after a manual
  override they are ignored, before it they are rejected (`OrderDecides`). They are accepted in every order
  exactly when descriptors of a kind all agree (`AcceptedInEveryOrder`), and the order decides exactly when
  the automatic ones disagree beside manual ones that agree (`OrderMatters`).
- *A direct `Lazy::create` can break the agreement of `get_or_create` callers.* It is harmless to store a
  value exactly when the cache holds that value already, or is empty while no initializer is under way that
  could bring another one (`Harmless`). If every direct store is harmless all callers agree (`CallersAgree`);
  and a pending direct store can by itself, with no other direct `create` and no initializer started beside it,
  make two callers disagree if and only if it is not harmless (`HarmlessIsExact`). `CallersCanDisagree` is a run
  in which two do.
- *A deferred handle can be left behind*: exactly when it is registered after the container has died, or
  when an attachment fails on a handle before it (`LeftBehind`). Both happen (`TooLateHappens`,
  `AbortHappens`), and any other registered handle that is not settled can still be hydrated
  (`NotLostCanBeHydrated`).

## Model

| member | source | states |
|---|---|---|
| ConfigTree.LookupPath | crates/config/src/value.rs:136-151 | The iterative walk finds exactly the node that the dotted path denotes by recursive descent, or nothing. |
| ConfigTree.GetPath | crates/config/src/value.rs:30-36 | The empty path is the root itself; any other path is what it denotes. |
| ConfigTree.SplitJoin | crates/config/src/value.rs:139 | Splitting a path on dots loses nothing: the pieces hold no dot and joined by dots are the path again. |
| ConfigTree.PathMeaning | crates/config/src/value.rs:136-151 | A path of one segment is an entry of a table; a longer path is followed from the node of its front. |
| ConfigTree.FindFirst | crates/config/src/value.rs:145 | The first entry with a key is the one found. |
| TemplateSemantics.FuelMonotone | crates/config/src/resolve.rs:141-295 | The unbounded meaning of a template is well defined: more fuel never changes an answer, in text, trace, renderings or error. |
| TemplateSemantics.Determinate | crates/config/src/resolve.rs:141-295 | An expression has at most one outcome, whatever fuel found it. |
| TemplateSemantics.PrefixDecides | crates/config/src/resolve.rs:249-272 | The first segment that does not yield decides the whole template. |
| TemplateSemantics.PrefixCosts | crates/config/src/resolve.rs:249-272 | Every prefix of a template that yields also yields, with no more steps and no more bytes. |
| TemplateSemantics.SelfDemandDiverges | crates/config/src/resolve.rs:153-161 | A node that cannot be answered without answering its own key has no meaning at any fuel. |
| TemplateSemantics.DemandLifts | crates/config/src/resolve.rs:232-243 | What a node demands, every reference to that node demands. |
| ResolveContext.ResolveCtx.constructor | crates/config/src/resolve.rs:89-98 | A fresh context has nothing in flight, zero counters and an empty trace. |
| ResolveContext.ResolveCtx.RecordResolved | crates/config/src/resolve.rs:104-109 | The trace grows by exactly the placeholder and its value. |
| ResolveContext.ResolveCtx.ConsumeStep | crates/config/src/resolve.rs:111-122 | Succeeds exactly while fewer than 4096 steps are consumed, and then counts one. |
| ResolveContext.ResolveCtx.ConsumeBytes | crates/config/src/resolve.rs:124-135 | Succeeds exactly while the running total stays within 1 MiB, and then adds to it. |
| ResolveContext.ResolveCtx.ResolvePlaceholder | crates/config/src/resolve.rs:141-198 | Refinement: an Ok is the unbounded meaning, with its exact steps, bytes and trace; a lookup error is the meaning's own error; a cycle report names a demanded in-flight key and, if the cycle closes inside, proves divergence; a resource error proves the resource insufficient. In-flight keys stay distinct, at most 64, each naming a tree node, and are restored on every exit. |
| ResolveContext.ResolveCtx.Lookup | crates/config/src/resolve.rs:163-173 | The branches on the key's spelling deliver what the key's declared origin says. |
| ResolveContext.ResolveCtx.ResolvePathThenEnv | crates/config/src/resolve.rs:212-218 | Tree before resolvers yields the key's origin. |
| ResolveContext.ResolveCtx.ResolveEnvThenPath | crates/config/src/resolve.rs:222-228 | Resolvers before tree yields the key's origin. |
| ResolveContext.ResolveCtx.ResolveConfigPath | crates/config/src/resolve.rs:232-243 | None exactly if the path is absent; otherwise the node's meaning one level deeper, with the key popped on success and on error. |
| ResolveContext.ResolveCtx.RenderNodeAsString | crates/config/src/resolve.rs:277-295 | Scalars and string leaves mean what the reference semantics says; null, arrays and tables are its error. |
| ResolveContext.ResolveCtx.RenderStr | crates/config/src/resolve.rs:249-272 | A rendered template refines its unbounded meaning, in the sense of `ResolvePlaceholder`. |
| ResolveContext.ResolveCtx.RenderSegment | crates/config/src/resolve.rs:255-269 | One iteration keeps text, trace, steps and bytes exact, or its error is an error of the whole template. |
| ResolveContext.NodeExcuse | crates/config/src/resolve.rs:232-243 | Every error of a tree node is that error of the reference to it; a cycle that closes at this key proves divergence. |
| ResolveContext.ReferenceExcuse | crates/config/src/resolve.rs:262-267 | Every error of the next placeholder is that error of the whole template. |
| ResolveContext.ReferencePaid | crates/config/src/resolve.rs:262-267 | A template pays at least for its first placeholders and the next one, in steps and bytes. |
| ResolveContext.BytesExcuse | crates/config/src/resolve.rs:124-135 | Running out of bytes at a segment means that the whole template exceeds the budget at every fuel. |
| ResolveContext.RenderingAdvances | crates/config/src/resolve.rs:255-269 | Appending one segment's text keeps the accounting exact. |
| ResolveContext.ReferenceAnswer | crates/config/src/resolve.rs:175-197 | A found value, the inline default, and the two kinds of missing-value error are the meaning of the placeholder. |
| ResolutionMeaning.PlaceholderSource | crates/config/src/resolve.rs:163-187 | A resolved placeholder has its text from the source its spelling puts first: an `@` key from the first resolver to answer; one spelled like an environment variable from the resolvers, else the tree; any other from the tree, else the resolvers; from its inline default only when all have nothing. Integers read back as themselves, booleans are spelled out. |
| ResolutionMeaning.PlaceholderFailure | crates/config/src/resolve.rs:189-197 | One that nothing answers and that has no default fails naming itself, as an unknown namespace key or as missing. |
| ResolutionMeaning.StructureFails | crates/config/src/resolve.rs:288-293 | A reference to null, an array or a table is not renderable. |
| ResolutionMeaning.ShowIntReads | crates/config/src/resolve.rs:285 | The text of an integer reads back, digit by digit from the left, as that integer, and has no superfluous zero or sign. |
| ResolutionMeaning.ByteLenIsUtf8 | crates/config/src/resolve.rs:124-135 | The byte counter counts the bytes of the UTF-8 encoding. |
| ResolutionMeaning.Utf8Decodes | crates/config/src/resolve.rs:124-135 | That encoding is well formed and decodes to the character. |
| ResolutionMeaning.RenderedText | crates/config/src/resolve.rs:249-272 | A rendered template is the concatenation, left to right, of its literals and of what its placeholders resolve to, and so is its trace. |
| ResolutionMeaning.RecordedLast | crates/config/src/resolve.rs:175-187 | A reference records itself last. |
| ResolutionMeaning.LimitsInNumbers | crates/config/src/resolve.rs:10-20 | In a fresh context a resolution succeeds if and only if its meaning takes at most 64 nested references, 4096 steps and 1,048,576 bytes; limit errors name these numbers. |
| Deserialization.SucceedsIffFits | crates/config/src/resolve.rs:141-198 | With nothing in flight the guarded resolver succeeds if and only if the meaning exists within depth 64 and its steps and bytes fit what is left. |
| Deserialization.PassGrows | crates/config/src/resolve.rs:111-135 | A pass that fits has only prefixes that fit: budgets are aggregate. |
| Deserialization.PassAdvances | crates/config/src/resolve.rs:104-135 | After one more resolution the counters are exactly those of the longer pass, or no pass that starts this way fits. |
| Deserialization.ResolveLeaf | crates/config/src/de.rs:93-108 | A lone placeholder in a scalar slot is resolved without charging its own bytes; every other leaf is rendered. |
| Deserialization.SlotsOfPlaceholder | crates/config/src/de.rs:93-108 | A lone placeholder takes the same text, steps and trace in both kinds of slot, but only the string slot charges the bytes of the text itself. |
| Deserialization.Deserialize | crates/config/src/de.rs:41-56 | A pass succeeds if and only if all its leaves have meanings whose summed work fits; it then returns those meanings, with as many recorded dependencies as steps (at most 4096) and exactly the bytes of all renderings (at most 1,048,576). A failing pass fails at the first leaf that does not fit, for a reason its meaning gives (a cycle report means that it diverges), with all that the leaves before it took and observed still counted and recorded. |
| Deserialization.TraceHolds | crates/config/src/resolve.rs:104-109 | Every recorded pair is a placeholder with the value it really resolves to. |
| Deserialization.TraceIsFunctional | crates/config/src/resolve.rs:65-71 | The trace of a pass maps each placeholder to one value. |
| Deserialization.Transfer | crates/config/src/resolve.rs:249-272 | If what a template observed in one world holds in another, it renders the same there. |
| Deserialization.EqualTracesEqualResults | crates/config/src/de.rs:38-56 | Two passes over the same leaves with equal traces return equal texts, even over different trees and resolvers. |
| Deserialization.SnapshotMatches | crates/config/src/managed/source.rs:491-507 | True if and only if the raw subtree is unchanged, every recorded value still holds, and re-resolving the whole trace in one context fits the budgets. |
| Deserialization.MatchingSnapshotIsCurrent | crates/config/src/managed/source.rs:488-507 | A snapshot that matches a new world has, there, the very texts that the committed pass produced. |
| SnapshotGap.Mismatch | crates/config/src/managed/source.rs:501-506 | Repeating an alias often enough fits the step budget once but not when its trace is re-resolved. |
| SnapshotGap.UnchangedWorldCanMismatch | crates/config/src/managed/source.rs:501-506 | A concrete tree whose own snapshot does not match it, for every number of copies that the pass affords and the recheck does not. |
| SnapshotGap.SnapshotMatchesItsWorld | crates/config/src/managed/source.rs:491-507 | The snapshot of a pass matches the world it was taken in if and only if the steps and bytes of re-resolving its placeholders one by one fit the budgets. |
| SnapshotGap.RecheckIsNested | crates/config/src/resolve.rs:104-109 | Re-resolving what an expression observed costs every step once per reference it was nested in, itself included, and every rendering once per reference around it. |
| SnapshotGap.UnchangedWorldMatchesIff | crates/config/src/managed/source.rs:488-507 | So that match holds if and only if the pass's steps and renderings, weighted by nesting depth, fit the budgets. |
| TemplateParser.ParseTemplate | crates/config/src/parse.rs:14-56 | The iterator loop computes the grammar's segments and kind, and fails exactly where the grammar does. |
| TemplateParser.ParsePlaceholder | crates/config/src/parse.rs:60-83 | The key runs to the first colon or brace and the default to the first brace; what follows is left to the caller. |
| TemplateParser.ReadDefault | crates/config/src/parse.rs:86-102 | The default is everything before the first closing brace. |
| TemplateParser.TakePlaceholderFails | crates/config/src/parse.rs:60-102 | A placeholder is unterminated if and only if no closing brace follows, and its key and default hold no character that would end them. |
| TemplateParser.ErrorIsUnterminated | crates/config/src/parse.rs:12-34 | Every parse error comes with a position that the scan reaches and at which an opening stands that no closing brace follows. |
| TemplateParser.UnterminatedIsError | crates/config/src/parse.rs:60-102 | Any such position makes the parse fail. |
| TemplateParser.ParseFailsIff | crates/config/src/parse.rs:10-13 | A template is malformed if and only if the scan, skipping dollar pairs and terminated placeholders, comes to an opening that no closing brace follows. |
| TemplateParser.ParseInvertsPrint | crates/config/src/parse.rs:7-13 | Parsing the canonical text of a normal segment list gives that list back. |
| TemplateParser.ParseIsNormal | crates/config/src/parse.rs:14-56 | Every successful parse is in normal form, and its canonical text parses to the same. |
| TemplateParser.KindMeaning | crates/config/src/value.rs:86-101 | The computed kind is full exactly when the single placeholder can be read, literal exactly when the plain text can, and templated exactly when there are several segments. |
| TemplateParser.PlainText | crates/config/src/parse.rs:19-46 | A text in which no dollar stands before another or before an opening brace is one literal, itself. |
| Defaults.FillKeepsValues | crates/config/src/defaults.rs:91-109 | In every tagging shape, on success and on error, every path that reached a value other than a table still reaches that value. |
| DefaultsTwice.FillTwiceIffSettled | crates/config/src/defaults.rs:98-349 | A second fill changes nothing if and only if, in the tree before the first one, a tag to be synthesized is readable and absent, and the fields of the variant it names are present or supplied with it. |
| DefaultsTwice.FillTwiceIffPlainlySettled | crates/config/src/defaults.rs:250-318 | For default tags without a dollar sign: if and only if no unreadable tag entry is in the way and a unit variant with listed defaults finds them all there. |
| DefaultsTwice.FillIsIdempotent | crates/config/src/managed/source.rs:476-486 | Filling is idempotent for dollar-free default tags, no defaults listed for a unit default variant, and tag entries that are plain strings. |
| DefaultsTwice.TemplatedTagAccumulates | crates/config/src/defaults.rs:260-273 | With a templated tag entry a second fill changes the tree again. |
| DefaultsTwice.FillEntriesTwice | crates/config/src/defaults.rs:131-147 | Filling the same fields again repeats the outcome, its error included. |
| Defaults.FillEntriesMeaning | crates/config/src/defaults.rs:131-147 | After a fill without errors a field that was there has its old value, one that was not has its first declared default, and no other field appeared. |
| Defaults.FillEntriesFails | crates/config/src/defaults.rs:140 | A fill fails exactly at an absent field whose default is malformed, with the fields before it filled. |
| Defaults.FillApplies | crates/config/src/defaults.rs:91-349 | A fill without an error does all that its defaults ask for and nothing else, shape by shape: declared fields with their old value or first default, payloads of the tags present, the variant that the tag names, or the default variant written where none is. |
| Defaults.DefaultValueMeaning | crates/config/src/defaults.rs:156-174 | A template default stays a template; a literal one is a string, or the scalar it reads as where scalars are wanted. |
| Defaults.VariantFieldsMeaning | crates/config/src/defaults.rs:193-198 | A variant's defaults are those of the first declaration of its tag. |
| Defaults.TagValueMeaning | crates/config/src/defaults.rs:342-349 | A tag is read exactly when its entry is a plain string. |
| Defaults.FillEntriesLoop | crates/config/src/defaults.rs:131-147 | The loop over declared fields refines the recursive fill that the lemmas are about. |
| Defaults.FillPayloadsLoop | crates/config/src/defaults.rs:212-220 | The loop over the tags present refines the recursive fill and stops at the first error with earlier writes kept. |
| Defaults.Subtree.FillTable | crates/config/src/defaults.rs:118-128 | The subtree afterwards, and the error, are those of the field fill; a non-table is left alone. |
| Defaults.Subtree.FillExternally | crates/config/src/defaults.rs:204-245 | The subtree afterwards, and the error, are those of the externally tagged fill. |
| Defaults.Subtree.FillInternally | crates/config/src/defaults.rs:250-280 | The subtree afterwards, and the error, are those of the internally tagged fill. |
| Defaults.Subtree.FillContentTable | crates/config/src/defaults.rs:322-338 | The content table is created if absent and filled in its place. |
| Defaults.Subtree.FillAdjacently | crates/config/src/defaults.rs:285-318 | The subtree afterwards, and the error, are those of the adjacently tagged fill. |
| Defaults.Subtree.FillDefaults | crates/config/src/defaults.rs:98-109 | The whole in-place fill: it keeps every value that was there and, without an error, has applied the defaults in the sense of `FillApplies`. |
| DependencyGraph.PrimariesMeaning | crates/di/src/container.rs:173-180 | A unique primary is found exactly when exactly one provider is primary, and it is that one. |
| DependencyGraph.SelectionMeaning | crates/di/src/container.rs:982-993 | An unqualified edge selects something exactly when there is one provider or one primary; a qualified edge exactly when some provider has the qualifier; always one of those given. |
| DependencyGraph.ChoiceIsSelected | crates/di/src/container.rs:166-181 | What is selected is the first provider with the edge's qualifier; without one, the sole provider or the only primary. |
| DependencyGraph.SelectedIsChoice | crates/di/src/container.rs:982-993 | Nothing is selected without such a choice. |
| DependencyGraph.FactoryMeaning | crates/di/src/descriptors/component.rs:912-943 | The sole factory, else the one explicit one, else the first default; two explicit ones are an error; only a component without factories has none. |
| ExpansionGraph.GatesAreSortable | crates/di/src/container.rs:742-745 | Only types that take part in the sort are ever waited for. |
| ExpansionGraph.Descends | crates/di/src/container.rs:915-978 | Away from expansion cycles an expansion step never meets anything that is being visited. |
| ExpansionGraph.CycleFreeRankIsRanking | crates/di/src/container.rs:840-850 | Every graph has a numbering of its cycle-free traits and transients that each expansion step decreases. |
| WaitExpansion.WaitExpansion.ProviderWaits | crates/di/src/container.rs:855-871 | Terminates on every graph; the memoised answer never overstates the declarative transitive closure, and equals it where no expansion cycle is in reach. |
| WaitExpansion.WaitExpansion.SingleEdgeWaits | crates/di/src/container.rs:878-911 | The answer is the union of the memoised waits of the edge's targets: the selected transient, else the local selection, else all ambiguous local providers. |
| WaitExpansion.WaitExpansion.AllWaits | crates/di/src/container.rs:901-909 | The union of the waits of all given providers. |
| WaitExpansion.WaitExpansion.TraitWaits | crates/di/src/container.rs:915-941 | As for providers, over all providers of a trait; a trait being visited answers nothing and is not memoised. |
| WaitExpansion.WaitExpansion.ExpandTransient | crates/di/src/container.rs:947-978 | Adds only what the recipe waits for, and all of it where no expansion cycle is in reach; leaves the visiting set as it was. |
| WaitExpansion.WaitExpansion.ExpandEdge | crates/di/src/container.rs:952-974 | One gating edge adds what it leads to, by its three branches. |
| TopologicalSort.GroupByTrait | crates/di/src/container.rs:733-740 | Providers grouped by trait in registration order. |
| TopologicalSort.ComputeProviderWaits | crates/di/src/container.rs:768-772 | Entries queried in any order are sound, and exact where no expansion cycle is in reach. |
| TopologicalSort.ComputeTraitWaits | crates/di/src/container.rs:774-778 | The same for traits. |
| TopologicalSort.ComputeWaits | crates/di/src/container.rs:751-778 | Both tables hold an entry for every provider and every trait, each sound and, where possible, exact. |
| TopologicalSort.FullTablesAreTables | crates/di/src/container.rs:751-778 | The wait relation itself gives sound and complete tables for every graph. |
| TopologicalSort.TablesAreUnique | crates/di/src/container.rs:768-778 | On graphs without expansion cycles the tables do not depend on the order of the queries. |
| TopologicalSort.SingleEdgeRulesAgree | crates/di/src/container.rs:1017-1055 | Readiness of a single-valued edge holds exactly when the union of its targets' waits is built. |
| TopologicalSort.SingleEdgeWaitsAreReadiness | crates/di/src/container.rs:878-911 | The two separately written rules agree: once the tables are computed, `SingleEdgeWaits` returns the union of the memoised waits of the edge's targets, and the edge is ready against any built set exactly when that is contained in it. |
| TopologicalSort.ReadinessMeaning | crates/di/src/container.rs:1001-1056 | Readiness never asks for more than the edge declaratively waits for, and asks for all of it where no expansion cycle is in reach. |
| TopologicalSort.RetainPass | crates/di/src/container.rs:786-820 | A pass is a function of the tables; it only moves components, keeps the order buildable, and if it moves none then none was ready. |
| TopologicalSort.StuckIsStuck | crates/di/src/container.rs:822-832 | If nothing of a set is ready once all else is built, no build order, however arranged, contains any of it. |
| TopologicalSort.StuckIsUnbuildable | crates/di/src/container.rs:822-832 | So no build order over these components holds any that the error names; that all the others can be built is stated by `Sort`. |
| TopologicalSort.GreedyOrder | crates/di/src/container.rs:780-833 | The loop, a function of the tables, splits the components into a build order and a rest that no build order can touch. |
| TopologicalSort.Sort | crates/di/src/container.rs:722-838 | Fails if and only if no permutation of the components is a build order. An Ok is such a permutation; an Err names a nonempty rest that is unbuildable while all else is buildable. The result is a function of the input and the wait tables. |
| TopologicalSort.SortIsDetermined | crates/di/src/container.rs:759-778 | On graphs without expansion cycles two runs over the same input return the same order or name the same components, however the hash maps were enumerated. |
| TopologicalSort.CycleIffNoOrder | crates/di/src/container.rs:822-832 | A nonempty rest that no build order touches rules out every permutation, and an order found is one. |
| TopologicalSort.MissingTargetBlocks | crates/di/src/container.rs:1010-1014 | A gating single-valued edge whose target has no provider and is neither prebuilt nor sorted makes every order impossible, even if the target is a transient. |
| TopologicalSort.LoneComponent | crates/di/src/container.rs:1010-1014 | A component alone with such edges can be ordered if and only if all their targets are prebuilt. |
| TopologicalSort.OrderSatisfiesEdges | crates/di/src/container.rs:791-811 | On every graph, each gating edge finds its concrete target, its selected provider, or all its sorted providers built before; where no expansion cycle is in reach, also everything transients on the way need. |
| ProviderChoice.OrderHoldsChoice | crates/di/src/container.rs:1017-1050 | In an order found by the sort, a gating single-valued trait edge finds built the choice among the registered providers sorted here, unless the trait's provider is constructed on demand; all of them if there is no choice and no qualifier. |
| ProviderChoice.OrderHoldsRecipe | crates/di/src/container.rs:1019-1025 | Where the provider is constructed on demand and no expansion cycle is in reach, everything its recipe needs is built instead. |
| ProviderChoice.OrderHoldsAll | crates/di/src/container.rs:1052 | A collection or keyed edge finds every provider of its trait that is sorted here built. |
| ProviderChoice.ReadyByChoice | crates/di/src/container.rs:1001-1056 | Such an edge is ready if and only if the choice is built. |
| ProviderChoice.ReadyWithoutChoice | crates/di/src/container.rs:1035-1050 | Without a choice an unqualified edge waits for all providers sorted here, a qualified one for none. |
| ProviderChoice.FreeComponentsAreOrdered | crates/di/src/container.rs:791-800 | Components all of whose edges are optional, dynamic, to configuration values or not eager can always be ordered. |
| ProviderChoice.GateRules | crates/di/src/container.rs:855-941 | A sorted type is waited for itself, a transient for what its recipe needs, a trait for what its providers need. |
| ProviderChoice.RecipeRule | crates/di/src/container.rs:947-978 | A recipe needs what its gating edges name: a sorted type, what the chosen provider or every provider needs, or what another transient's recipe needs. |
| TopologicalSort.BuildOrderIsDeclared | crates/di/src/container.rs:718-721 | Every order that satisfies the declarative waits is a build order, and conversely on graphs without expansion cycles. |
| TopologicalSort.OrderableMeaning | crates/di/src/container.rs:780-833 | If the declarative waits can be satisfied by some permutation, the sort can succeed; and on graphs without expansion cycles only then. |
| ScopePlan.PlaceOne | crates/app/src/app.rs:408-418 | One component goes to exactly one of transient, singleton, its scope's group or the seeds, or its ambiguous factory is the error. |
| ScopePlan.PlaceMeaning | crates/app/src/app.rs:408-418 | Where a component belongs, said of its descriptor: transient by its scope, singleton by rank 255, scoped if a factory builds it, seeded if none does. |
| ScopePlan.SplitByScope | crates/app/src/app.rs:408-418 | The first loop splits all components that way, keeping registration order. |
| ScopePlan.OrderStage | crates/app/src/app.rs:426-430 | One scope's sort succeeds if and only if its group can be ordered over everything before; an error means that no arrangement satisfies the declarative waits. |
| ScopePlan.OrderOne | crates/app/src/app.rs:424-434 | One iteration orders the next scope, takes its group, and files the order under the scope's name. |
| ScopePlan.OrderScopes | crates/app/src/app.rs:422-434 | The second loop orders the scopes one after another over what is built, takes each group once, and fails at the first stage that is not feasible. |
| ScopePlan.PlanGroups | crates/app/src/app.rs:420-447 | On what the first loop has split, the rest ends as `Partition` promises. |
| ScopePlan.Partition | crates/app/src/app.rs:395-448 | A plan exists if and only if no factory is ambiguous, every scoped component's scope is declared, and every stage can be ordered over the seeds, singletons and groups before it; it holds every component in its place and every scope in a build order. An error is an ambiguous factory, an undeclared scope of a real component, or a scope that no arrangement can order. Singletons are the components of rank 255, each as often as given, and transients those of a transient scope. |
| ScopePlan.StartMeaning | crates/app/src/app.rs:415-420 | Prebuilt before the first scope are the singletons and the scoped components without a factory. |
| ScopePlan.FeasibleMeaning | crates/app/src/app.rs:424-434 | Where no expansion cycle is in reach, a stage is feasible if and only if some arrangement of its group satisfies the declarative waits. |
| ScopePlan.AllFeasibleMeaning | crates/app/src/app.rs:424-434 | So without expansion cycles whether a plan exists depends on the declarations alone, not on the order in which wait sets were queried. |
| PlanGuarantees.ScopeKeepsComponents | crates/app/src/app.rs:424-434 | A declared scope keeps its components if and only if its name is not declared twice or it has none. |
| PlanGuarantees.RepeatedScopeLoses | crates/app/src/app.rs:424-434 | The outcome of a chain that names a scope twice is a plan in no part of which the scope's one component is. |
| PlanGuarantees.SomeComponentIsLost | crates/app/src/app.rs:424-434 | For every intermediate scope there is a component that every outcome of that chain loses. |
| PlanGuarantees.PlanConserves | crates/app/src/app.rs:395-448 | With distinct scope names every singleton and scoped component is in its part of the plan as often as it was registered and in no other; a seed is prebuilt; a transient is filed, if it is the only component of its type. |
| PlanGuarantees.PlanRegistered | crates/app/src/app.rs:229-243 | From the registry on, with distinct scope names: the one surviving descriptor per type is in exactly one part of the plan, once, and every gating edge of the plan's orders is satisfied in time. An error is the registry's first fault or one of the plan's causes. |
| PlanGuarantees.PlanIsSound | crates/app/src/app.rs:420-434 | Each gating edge of an ordered component is satisfied; one to a concrete type by a seed, a singleton, an earlier scope, or an earlier component of its own scope. |
| PlanGuarantees.PlanIsInTime | crates/app/src/app.rs:420-434 | The same of the plan's orders by scope name, with distinct names: each gating edge is satisfied by what the plan has built before. |
| PlanGuarantees.TransientTargetFails | crates/di/src/container.rs:1010-1014 | A scoped component that depends on a transient by its own type passes the lifetime rule, and the outcome of planning the two is a cycle error. |
| PlanGuarantees.SomeTransientTargetFails | crates/di/src/container.rs:1010-1014 | For every intermediate scope there are two such components. |
| ComponentRegistry.AddDescriptor | crates/di/src/registry.rs:55-80 | One iteration keeps one winner per type in the place of its first registration, or says which rule the descriptor breaks. |
| ComponentRegistry.AddAgain | crates/di/src/registry.rs:65-78 | Another descriptor of a known type changes that type's winner in place, or nothing, or is a duplicate. |
| ComponentRegistry.ResolvedComponents | crates/di/src/registry.rs:51-83 | Succeeds if and only if no factory choice is ambiguous and the descriptors of each type are compatible; then yields one winner per type, types distinct, in order of first registration; an error belongs to the first descriptor at fault. |
| ComponentRegistry.WinnerMeaning | crates/di/src/registry.rs:47-50 | The winner is the first manual descriptor of the type, or the first one if there is no manual one. |
| ComponentRegistry.ResolvedRegistrations | crates/di/src/registry.rs:51-83 | What is resolved, in terms of the registrations: each is the first registration of its type without factories, or else the first of its type, and they come in the order in which their types were first registered. |
| ComponentRegistry.CompatibleMeaning | crates/di/src/registry.rs:65-78 | Descriptors of a type are compatible exactly when all manual ones share an id and so do the automatic ones before the first manual one. |
| ComponentRegistry.AcceptedInEveryOrder | crates/di/src/registry.rs:65-78 | Descriptors of a type are accepted in every order of registration if and only if all manual ones share an id and all automatic ones do. |
| ComponentRegistry.AcceptedInSomeOrder | crates/di/src/registry.rs:65-78 | In some order if and only if all manual ones share an id and either there is one or all automatic ones share an id. |
| ComponentRegistry.OrderMatters | crates/di/src/registry.rs:65-78 | One order is accepted and another rejected if and only if automatic descriptors disagree beside manual ones that agree. |
| ComponentRegistry.OrderDecides | crates/di/src/registry.rs:51-83 | A manual and two disagreeing automatic descriptors: resolving them with the manual one first succeeds, with it last ends in a duplicate-type error. |
| ComponentRegistry.DisagreeingDescriptors | crates/di/src/registry.rs:51-83 | Three concrete descriptors of that kind. |
| ComponentRegistry.DependencyScopes | crates/di/src/registry.rs:118-132 | The scopes checked for an edge are those of the type itself or of all the trait's registered providers. |
| ComponentRegistry.ValidateConsumer | crates/di/src/registry.rs:109-145 | No error exactly when every edge the rule covers is allowed; an error names a target that the consumer must not hold. |
| ComponentRegistry.ValidateScopes | crates/di/src/registry.rs:104-149 | No error exactly when every edge of every component is allowed. |
| ComponentRegistry.AllowedExactly | crates/di/src/registry.rs:104-149 | Validation accepts exactly the registries in which no static edge that is neither fresh nor to a configuration value can resolve, by type or by a registered provider, to a component its consumer may outlive; equal ranks and transients are accepted. |
| ComponentRegistry.MayHoldRaises | crates/di/src/registry.rs:507-517 | One covered edge never leads to a shorter-lived component, transients counted as needing singletons. |
| ComponentRegistry.FloorRises | crates/di/src/registry.rs:101-149 | Nor does a path of any length. |
| ComponentRegistry.NoCaptiveDependency | crates/di/src/registry.rs:101-149 | Along any path, transients in between included, a stored component reaches only stored components of at least its rank; singletons only singletons. |
| NdjsonStream.NdjsonState.TakeLine | crates/axum/src/stream.rs:135-154 | Takes the first buffered line and leaves what is still to be emitted as the meaning demands. |
| NdjsonStream.NdjsonState.NextLine | crates/axum/src/stream.rs:134-212 | Across reads, length checks, transport errors and the clean end, the next line and the remaining items are those of the meaning; the early length check only fires where the meaning has nothing left. |
| NdjsonStream.NdjsonState.Next | crates/axum/src/stream.rs:133-228 | Each step emits the next item of the meaning, or ends exactly when there is none. |
| NdjsonStream.NdjsonDecode | crates/axum/src/stream.rs:115-230 | For every chunking, the emitted items are those of the longest prefix of good lines of the received bytes; the unterminated last line counts only on a clean end. |
| NdjsonStream.ItemsMeaning | crates/axum/src/stream.rs:111-114 | The items are exactly the decoded lines up to the first one that is too long or undecodable. |
| NdjsonStream.LinesAreLines | crates/axum/src/stream.rs:135-141 | The lines of a body are nonempty and hold no newline. |
| NdjsonStream.LinesMeaning | crates/axum/src/stream.rs:135-171 | The lines are the nonempty pieces between newlines, the last one only after a clean end. |
| NdjsonStream.PiecesJoin | crates/axum/src/stream.rs:135-137 | Those pieces hold no newline, and joined by newlines they are the body. |
| NdjsonStream.LongLineEnds | crates/axum/src/stream.rs:143-152 | A line of more than 1,048,576 bytes ends the stream, one of exactly that many does not. |
| NdjsonStream.ErrorEndsReception | crates/axum/src/stream.rs:196-204 | Nothing after a transport error is received, and the body does not end cleanly. |
| NdjsonStream.LineEndMeaning | crates/axum/src/stream.rs:135 | A line ends at the first newline. |
| NdjsonStream.ChunkingInvariance | crates/axum/src/stream.rs:111-114 | A body cut into chunks anyhow means what it means delivered in one piece with the same kind of end. |
| NdjsonStream.RecuttingInvariance | crates/axum/src/stream.rs:174-193 | Cutting any one chunk in two, anywhere in a body, changes nothing. |
| NdjsonStream.PendingChunk | crates/axum/src/stream.rs:174-193 | Reading a chunk changes nothing but where the bytes are, and the length check on it rejects only bodies with nothing left to emit. |
| NdjsonStream.RoundTrip | crates/axum/src/stream.rs:487-500 | Encoding items and decoding any re-chunking of the bytes gives the items back, even if the transport fails after the last byte. |
| NdjsonStream.LimitRequestBody | crates/axum/src/stream.rs:255-328 | The limited body is the longest prefix of events whose chunks hold at most `maxBytes` bytes, one more event holding more; 0 means unlimited, and the counter saturates. |
| NdjsonStream.TotalSizeCounts | crates/axum/src/stream.rs:310-313 | The running total is the number of bytes of all chunks. |
| NdjsonStream.LimitDecodedItems | crates/axum/src/stream.rs:334-405 | The first `maxItems` items, or all of them for 0. |
| NdjsonStream.LimitedNdjsonDecode | crates/axum/src/stream.rs:408-422 | The first `maxItems` items decoded from the longest prefix within `maxBytes`. |
| NdjsonStream.LimitedDecodeKeepsPrefix | crates/axum/src/stream.rs:408-422 | What the limited decoder emits is a prefix of what the unlimited one emits if and only if a transport error ended the body before the cut, the item limit stopped before the partial line, an earlier line ended both, the cut falls on a line boundary, the partial line is no item, or it is the item that the completed line is. |
| NdjsonStream.LimitKeepsPrefix | crates/axum/src/stream.rs:313-322 | The same for a cut after any number of error-free chunks, without the item limit. |
| NdjsonStream.CutItemsKeepPrefix | crates/axum/src/stream.rs:358-360 | The same on bytes, with the item limit. |
| NdjsonStream.CutKeepsPrefix | crates/axum/src/stream.rs:155-171 | The same on bytes, without the item limit. |
| NdjsonStream.CutCanInventItems | crates/axum/src/stream.rs:155-171 | A body and a limit for which the limited decoder yields an item that the unlimited one never does. |
| LazyHandle.RunKeepsInvariant | crates/di/src/primitives.rs:85-97 | As long as every direct `create` stores harmlessly, in every state of every run whoever resolves does so with an empty cache, and whoever has an answer has the cache's or is about to fill it. |
| LazyHandle.RunKeepsExclusive | crates/di/src/primitives.rs:90 | In every state of every run exactly the mutex holder is between acquiring and releasing. |
| LazyHandle.CacheIsStable | crates/di/src/primitives.rs:85-97 | Once filled, the cache never changes, direct stores being harmless. |
| LazyHandle.StoredAtMostOnce | crates/di/src/primitives.rs:84-97 | A run stores under the mutex at most once, failures and abandoned callers included, direct stores being harmless. |
| LazyHandle.CallersAgree | crates/di/src/primitives.rs:84-97 | If every direct store is harmless, all callers that return, at whatever time, return the same value. |
| LazyHandle.OneResolverAtATime | crates/di/src/primitives.rs:90-96 | In every run, two callers never resolve under the mutex at the same time. |
| LazyHandle.NeverWedged | crates/di/src/primitives.rs:90-96 | In every run, a held mutex has a holder that can step; a free one can be taken by anyone queued. |
| LazyHandle.HarmfulStoreBreaksAgreement | crates/di/src/primitives.rs:74-82 | Every run in which a direct `create` is about to store harmfully, over a filled cache or beside an initializer, can go on, with no other direct `create` and no further initializer, so that two callers of `get_or_create` have different values. |
| LazyHandle.HarmlessStoreKeepsAgreement | crates/di/src/primitives.rs:74-97 | If the pending store is harmless, no such continuation makes two callers disagree, and it stores harmlessly in all of them. |
| LazyHandle.HarmlessIsExact | crates/di/src/primitives.rs:74-97 | So a pending direct store can break agreement by itself if and only if it is not harmless. |
| LazyHandle.CreateBreaksAgreement | crates/di/src/primitives.rs:74-82 | Spelled out for a filled cache: the steps by which a direct `create` of another value makes two callers return different values. |
| LazyHandle.CallersCanDisagree | crates/di/src/primitives.rs:74-97 | A run in which two callers of `get_or_create` have different values. |
| DeferredHydration.RunKeepsInvariant | crates/di/src/container.rs:195-243 | In every state of every run the slot's list and the attacher's queue hold, once each, exactly the handles in those phases, and nothing waits in the slot of a live container. |
| DeferredHydration.SettledForGood | crates/di/src/primitives.rs:449-451 | A hydrated handle keeps its target; a failed or dropped one stays so. |
| DeferredHydration.HydratedAtMostOnce | crates/di/src/container.rs:205-207 | No handle is offered for hydration twice, by whichever thread. |
| DeferredHydration.HydratedInOrder | crates/di/src/container.rs:202-207 | Attachment hydrates the handles waiting in the slot in the order in which they were registered. |
| DeferredHydration.NothingLeftPending | crates/di/src/container.rs:225-235 | While the container lives no registered handle waits in the slot. |
| DeferredHydration.EveryHandleIsServed | crates/di/src/container.rs:196-210 | Once attachment has completed, every registered handle without a hydrating registrant is hydrated or had no target. |
| DeferredHydration.LeftBehind | crates/di/src/container.rs:205-235 | A handle is lost if and only if an earlier step registered it with a slot whose container was dead, or failed an attachment that still had it to hydrate; and it stays lost. |
| DeferredHydration.NotLostCanBeHydrated | crates/di/src/container.rs:195-243 | Every other registered handle that is not settled can still be hydrated with any target. |
| DeferredHydration.TooLateHappens | crates/di/src/container.rs:228-231 | A run that leaves a handle pending in the slot of a dead container. |
| DeferredHydration.AbortHappens | crates/di/src/container.rs:205-207 | A run in which a failed attachment drops a later handle. |
| DeferredHydration.DrainingProgresses | crates/di/src/container.rs:205-209 | A running attachment can always step towards its end. |

## Left out

- Wall-clock deadlines of the stream limiters: the limiters are modelled with the deadline off.
- Laziness of streams: decoder and limiters are run to the end of their input rather than pulled by a consumer; the item limit therefore says which items come out, not how many bytes were read for them.
- `encode` failing: JSON encoding is a total function here.
- Serde's visitor protocol, numeric coercion and error paths in `crates/config/src/de.rs`: a pass is the sequence of string leaves it resolves, each in a string or in a scalar slot.
- Deserialization.Deserialize: after an error the trace and counters are only bounded from below, by what the leaves before the failing one took; the original discards the context then.
- ResolveContext.ResolveCtx.ResolvePlaceholder: the world is fixed for one context, so a resolver that answers the same key differently from call to call is not modelled; after an error the counters and the trace are only said not to have shrunk.
- The decimal rendering of floats and the parsing of numbers are parameters. A float is its bit pattern, so `snapshot_matches` compares a NaN as equal to itself, where the original compares it as different.
- `i128` bounds of configuration integers: they are unbounded here; nothing in the modelled code computes with them.
- In-place mutation of nested tables is modelled at the `Subtree` a call is handed; entries inside it are values that the methods rebuild.
- Seeding several bindings into one tree (`seed_defaults_into`): each fill is modelled on its own subtree.
- WaitExpansion.WaitExpansion.TraitWaits: where an expansion cycle is in reach the memoised sets may be partial, depending on query order; there the contract states soundness and that sorted providers are included, not completeness.
- TopologicalSort.SortIsDetermined: where an expansion cycle is in reach the wait tables, and so the order, may depend on hash-map enumeration.
- The joined text of the cycle error: the model keeps the list of names.
- `registry/order.rs`, descriptors' macros, provider aliasing at construction time and the other `validate_*` checks of the registry.
- The scope names in a scope violation, and type names: errors carry the component's name and the type identity.
- Reference counting: a container's death is one step that needs attachment to be over and no registrant to hold it. A second attachment of the same slot is not modelled.
- Poisoned mutexes and panics.
- Managed reload beyond `snapshot_matches`, jobs, subscriptions, routing, directories, sockets and code generation.
