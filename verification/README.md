# Verified models of the OpenAPI compiler, its SDK projection and the release tooling

The project models, in Dafny, the parts of the repository in which state is changed step by step over cyclic or
unbounded data, and proves for all inputs what those parts are for.

| module | what it models |
|---|---|
| `Text`, `Reachability` | string operations and finite graphs shared by the others; paths that avoid a set of nodes |
| `Pointers` | JSON Pointer escaping (sections 3 and 4 of RFC 6901), the pointers the scanner writes and the lookup that follows them |
| `Preflight` | the scan of a graph of YAML files for `$ref` edges |
| `ReferenceCycles`, `RepeatedKeys` | the three-colour search that rejects cycles of non-schema references, and the document that escapes it |
| `SchemaNormalizer` | the memoised copy of the raw schema graph into document schemas |
| `EffectiveProperties`, `ListItems` | property inheritance and list items through `allOf`, with a visiting set that is undone on exit |
| `ResourceViews` | operations grouped into resource views with sorted capability lists |
| `Routes` | path templates, route segments and parameter merging |
| `ModelClosure`, `SensitiveModels` | which models the SDK generator projects, and which contain sensitive fields |
| `PathExpressions` | the URL path expressions of the Go and TypeScript clients, and what they evaluate to |
| `ReleaseStore`, `Publisher`, `PublishRun` | a remote release store whose calls may fail, the steps of the release publisher, and whole runs |
| `ManifestSource` | the choice of the commit a bundle's manifests come from |
| `Globs`, `ImpactScopes` | the glob compiler and the indentation-relative reader of the impact scope file |
| `Paging` | the TypeScript `listAll` generators and the Go iterator |
| `BatchFrames` | the reader of `git cat-file --batch` answers |

`dafny verify dfyconfig.toml` checks the whole project.

## How the models are built

Code that mutates fields is a class with those fields; its methods are proved equal to a recursive specification
function (`Visit`, `Effective`, `Contains`, `ListItem`, `Parse`, ...) or to an invariant on a snapshot of the state,
and the lemmas then compare that specification with an independent one (reachability, a segment matcher, a lookup from
the top, a rendering). Traversals that mark on entry and unmark on exit all rest on one equation,
`Reachability.Unfold`: what a node reaches outside a set V is the node and what its successors reach outside V and the
node, also on cyclic graphs.

Go map iteration is modelled by picking any remaining key, so every result holds for every order. Files, the network and
git are parameters: a finite map from file names to node trees with an abstract resolver (`World`), a store whose calls
may fail with or without having taken effect (`GitHub`), and git's answers as a function that may also give no answer.

Results in which the code does less than one might expect, each proved as it is:

- The cycle check tests the whole search path and not only the cycle. With one edge per source it is sound for every
  visiting order (`AcceptedMeansSchemaCycles`), but a non-schema tail leading into a schema cycle is accepted in one
  order and rejected in another (`OrderCanDecide`); the exact conditions are `AlwaysAcceptedIff` and
  `SometimesAcceptedIff`. With two edges from one source it can miss a bad cycle (`TwoEdgesCanHideACycle`). The scan
  records two when a mapping repeats the key `$ref`, which the node parser does not reject: `RepeatedRefHidesACycle` is
  such a document, scanned and accepted with a cycle that leaves the schemas. Repeated keys are the exact gap: in
  documents without them no source has two edges (`ScanGivesOneEdgePerSource`), and every accepted cycle is a schema
  cycle (`CheckReferences`).
- `findPointer` does not follow sequence indexes, so it finds a node by its own pointer exactly when the node is reached
  through mappings only (`FindsNodeByItsPointer`).
- `splitCanonicalReference` splits at the last `#` and recovers file and pointer exactly when the pointer has none
  (`SplitRecoversIffNoHash`).
- The normalizer tells schemas apart by identity, not by place of use. Two schemas that are referred to by text share one
  document schema exactly when their files and declared keys are the same (`KeysDecideIdentities`). When components have
  distinct keys and nothing written in place is a component or is named with a final `#`, all identities are distinct and
  the document is exact (`ProperDocumentIsExact`); for other documents that is proved from distinct identities
  (`DocumentIsExactImage`).
- TypeScript `listAll` bounds its loop with the unclamped page size. It yields every collection whole exactly when the
  size is within the clamp (`CompleteForEveryCollectionIff`). Beyond the clamp it yields a collection of n items whole
  exactly when n = 0 or (p − 1)·size < n ≤ p·clamp for some page p (`CompleteBeyondClampIff`); the windows close after
  finitely many pages (`WindowsEnd`), and from twice the clamp on only the first is left (`LosesBeyondClamp`).
- The glob documentation says that `**` matches any number of segments including zero; a final `**` needs at least one,
  because it follows a slash (`PathMatches`, `GlobMeansSegments`).
- `fmt.Sprintf` fills holes by position, so the Go path is right when the parameters are given in path order
  (`GoFillsByPosition`, `GoPathMeans`); the TypeScript path does not depend on the order (`TsPathMeans`).
- A store that alters an upload spoils the draft for good: such a state is reachable in the first run
  (`SpoiledIsReachable`), no later step of any run mends it (`SpoiledForGood`), and no run finishes from it
  (`PublishGithub`). With a store that keeps what it was sent, every run without faults finishes.
- Visits of the model closure are recorded by name. Two schemas of one name make the result depend on the order of the
  roots (`OrderOfRootsDecides`); `ProjectedNames` says what is recorded for any roots in any order, and that it is the
  closure of the roots when every root is the schema its own name finds.

## Model

| member | source | states |
|---|---|---|
| Pointers.UnescapeEscape | scripts/openapi-ir/loader.go:385-413 | unescaping undoes escaping, for every string |
| Pointers.EscapeStep | scripts/openapi-ir/loader.go:411-413 | escaping works character by character: `~` becomes `~0`, `/` becomes `~1`, everything else stays |
| Pointers.TokensRender | scripts/openapi-ir/loader.go:385-413 | splitting and unescaping a rendered pointer gives back its tokens |
| Pointers.RenderInjective | scripts/openapi-ir/loader.go:411-413 | different token lists have different pointers |
| Pointers.FindPointer | scripts/openapi-ir/loader.go:385-401 | the cursor loop computes the descent along the unescaped tokens through the first entry of each key |
| Pointers.ResolveIs | scripts/openapi-ir/loader.go:385-401 | with distinct keys a pointer finds a node if and only if it spells a position of that node reached through mappings |
| Pointers.FindsNodeByItsPointer | scripts/openapi-ir/loader.go:385-401 | in a document with distinct keys a node's own pointer finds that node if it is reached only through mappings, and nothing otherwise |
| Pointers.DistinctPositionsDistinctPointers | scripts/openapi-ir/loader.go:140-173 | two positions of a document with distinct keys that have the same pointer are the same position |
| Preflight.RefsHavePointersOfMappings | scripts/openapi-ir/loader.go:140-173 | the references the walk meets are exactly those of the mappings of the document, each under the pointer of its mapping |
| Preflight.OnePointerOneReference | scripts/openapi-ir/loader.go:140-173 | with distinct keys two references under one pointer are one reference |
| Pointers.SplitRecoversIffNoHash | scripts/openapi-ir/loader.go:403-409 | splitting a canonical reference recovers file and pointer if and only if the pointer has no `#` |
| Preflight.ResolveReference | scripts/openapi-ir/loader.go:198-244 | a reference resolves to t if and only if its text names t, t lies within the document roots and the fragment is empty or starts with a slash; otherwise it does not resolve |
| Preflight.Scanner.ScanFile | scripts/openapi-ir/loader.go:122-138 | scanning a file completes every file it adds and leaves the edges of earlier files alone; it fails only if a reachable file is unreadable, has an operation without an identifier or a reference that does not resolve |
| Preflight.Scanner.Walk | scripts/openapi-ir/loader.go:140-173 | walking a node checks the operations of path items, follows all its references and records their edges in document order |
| Preflight.Scanner.CollectOperations | scripts/openapi-ir/loader.go:278-297 | accepts a path item if and only if each of its operations has an identifier that is not blank |
| Preflight.Scanner.CollectReference | scripts/openapi-ir/loader.go:175-196 | a reference is resolved, its file scanned and then its edge recorded |
| Preflight.Scan | scripts/openapi-ir/loader.go:122-196 | the scan terminates on cyclic file graphs and succeeds if and only if every file reachable from the root is readable, every mapping entry at `/paths/<item>/<HTTP method>` has an identifier that is not blank, and every `$ref` names a place within the roots; its edges are then exactly those of the references in these files |
| Preflight.FileGraphIs | scripts/openapi-ir/loader.go:175-196 | the files reachable from the root are those that the located references of reachable files name, in whatever file they lie |
| Preflight.SoundIs | scripts/openapi-ir/loader.go:140-196 | what the walk checks of a file is what holds at the positions of its tree |
| Preflight.EdgesAreReferences | scripts/openapi-ir/loader.go:175-196 | after an accepted scan there is an edge exactly for each reference of a reachable file, from the pointer of its mapping to what it names, flagged as schema edge if and only if both pointers contain `/schemas/` |
| Preflight.ScannedIsExact | scripts/openapi-ir/loader.go:122-196 | the scanned files are exactly those reachable from the root and equal the allowed files; every edge joins scanned files; every file but the root passed the containment check |
| Preflight.ScanGivesOneEdgePerSource | scripts/openapi-ir/loader.go:140-196 | with distinct mapping keys no two recorded edges have the same source |
| ReferenceCycles.Search.Explore | scripts/openapi-ir/loader.go:324-346 | the search with its colour map computes `Visit`, colours included |
| ReferenceCycles.GroupBySource | scripts/openapi-ir/loader.go:319-322 | edges are grouped by source in the order they were recorded |
| ReferenceCycles.FindBadCycle | scripts/openapi-ir/loader.go:319-354 | the search over all sources is `Run` for some order of the sources |
| ReferenceCycles.AllResolve | scripts/openapi-ir/loader.go:311-317 | accepts if and only if every edge target is a node of a scanned document |
| ReferenceCycles.ValidateReferences | scripts/openapi-ir/loader.go:310-355 | accepts if and only if every target resolves and the search accepts in the order it took; with one edge per source every cycle of an accepted graph has schema edges only, and schema edges alone are never rejected |
| ReferenceCycles.VisitExplained | scripts/openapi-ir/loader.go:324-346 | a rejection comes with a walk into a cycle that has a non-schema edge, outside what was finished; acceptance finishes the node and leaves the active ones as they were |
| ReferenceCycles.VisitSound | scripts/openapi-ir/loader.go:324-346 | with one edge per source, finished nodes never lead into a cycle with a non-schema edge |
| ReferenceCycles.AcceptedMeansSchemaCycles | scripts/openapi-ir/loader.go:310-355 | for every order, acceptance means that every cycle consists of schema edges only |
| ReferenceCycles.SchemaEdgesAreAccepted | scripts/openapi-ir/loader.go:327-354 | schema edges alone are never rejected, in any order and with any number of edges per source |
| ReferenceCycles.AlwaysAcceptedIff | scripts/openapi-ir/loader.go:327-354 | every order accepts if and only if every walk into a cycle, tail included, has schema edges only |
| ReferenceCycles.SometimesAcceptedIff | scripts/openapi-ir/loader.go:327-354 | some order accepts if and only if every cycle has schema edges only |
| ReferenceCycles.OrderCanDecide | scripts/openapi-ir/loader.go:329-332 | two edges for which one order rejects and the other accepts |
| ReferenceCycles.TwoEdgesCanHideACycle | scripts/openapi-ir/loader.go:327-343 | with two edges from one source, flagged as `collectReference` flags them, a cycle with non-schema edges can be accepted |
| RepeatedKeys.RepeatedRefHidesACycle | scripts/openapi-ir/loader.go:151-163 | a document with two `$ref` entries in one mapping is scanned, every target resolves, one order accepts, and a cycle has non-schema edges |
| ReferenceCycles.CheckReferences | scripts/openapi-ir/loader.go:60-65 | accepts if and only if every reachable file is as the scan demands, every target resolves and the search accepts in the order taken; documents with schema references only are then always accepted; with distinct mapping keys every reference cycle of an accepted document is a schema cycle |
| SchemaNormalizer.SchemaIdentity | scripts/openapi-ir/normalize.go:521-547 | every identity contains a `#`, and so is never empty |
| SchemaNormalizer.ComponentIdentities | scripts/openapi-ir/normalize.go:521-547 | references to declared components have the same identity if and only if file and key are the same |
| SchemaNormalizer.Normalizer.EnsureSchema | scripts/openapi-ir/normalize.go:267-366 | terminates on cyclic graphs; extends the document, completes every schema it adds and names the target; a new schema is stored where the request places it (declared file and key, component name, or parent and place) and the name is one that was asked for; it fails only if an unresolved reference is reachable |
| SchemaNormalizer.Normalizer.Adopt | scripts/openapi-ir/normalize.go:276-282 | a known identity is shared, and gains a name if it had none |
| SchemaNormalizer.Normalizer.CollectSlot | scripts/openapi-ir/normalize.go:368-378 | a list of references becomes the list of their identities, in order |
| SchemaNormalizer.Normalizer.FillLinks | scripts/openapi-ir/normalize.go:308-364 | the links of a new schema become the image of the raw links under the identities |
| SchemaNormalizer.NormalizeComponents | scripts/openapi-ir/normalize.go:46-53 | ensuring all components succeeds with a complete document, or some component leads to an unresolved reference; if components have distinct declared keys and nothing written in place is one, the document is exact: each reachable schema once, components under `<file>#/components/schemas/<key>` with the key as name, the others under the identity of their parent and their place, every link as in the raw schema |
| SchemaNormalizer.KeysDecideIdentities | scripts/openapi-ir/normalize.go:275-282 | in any document, schemas first referred to by text share an identity if and only if their files and keys are the same |
| SchemaNormalizer.IdentitiesAreDistinct | scripts/openapi-ir/normalize.go:521-547 | in such a document distinct schemas have distinct identities: an identity spells the file and key of a component and the way from it, and is read back uniquely |
| SchemaNormalizer.ComponentsAreStored | scripts/openapi-ir/normalize.go:267-366 | a component is stored under its file and escaped key and carries the key as its name |
| SchemaNormalizer.OthersAreStoredInPlace | scripts/openapi-ir/normalize.go:308-378 | a schema written in place is stored without a name under the identity of a schema that holds it, followed by its keyword and index or property name |
| SchemaNormalizer.ProperDocumentIsExact | scripts/openapi-ir/normalize.go:46-53 | the exact-image law without the assumption that identities are distinct |
| SchemaNormalizer.ReferencesStayInside | scripts/openapi-ir/normalize.go:267-378 | every stored reference names a schema of the document |
| SchemaNormalizer.ReferencesAreUnique | scripts/openapi-ir/normalize.go:267-378 | the document lists every schema once |
| SchemaNormalizer.DocumentIsExactImage | scripts/openapi-ir/normalize.go:267-378 | with distinct identities the document is exactly the image of the raw graph reachable from the components, link by link |
| EffectiveProperties.Collector.Collect | scripts/openapi-ir/graph.go:189-205 | the traversal adds `Effective` to its result and restores the visiting set |
| EffectiveProperties.EffectiveOf | scripts/openapi-ir/graph.go:183-187 | the normalizer's effective properties of a schema |
| EffectiveProperties.DocumentEffectiveOf | scripts/openapi-ir/graph.go:207-233 | the document's effective properties, over the index of its schema list |
| EffectiveProperties.NamesAreThoseReachable | scripts/openapi-ir/graph.go:183-233 | the names are exactly those declared by schemas reachable through `allOf`, cycles included |
| EffectiveProperties.OverwritingIsLookup | scripts/openapi-ir/graph.go:189-205 | overwriting bottom up equals a lookup top down: own declaration first, then the last member that has one |
| EffectiveProperties.OwnThenLaterMembers | scripts/openapi-ir/graph.go:199-204 | own declarations win; otherwise the last `allOf` member that brings the name |
| EffectiveProperties.ValuesAreDeclared | scripts/openapi-ir/graph.go:189-205 | every effective property is a declaration of some reachable schema |
| EffectiveProperties.InheritanceComposes | scripts/openapi-ir/graph.go:189-205 | without `allOf` cycles, members contribute exactly their own effective properties |
| EffectiveProperties.NormalizerAndDocumentAgree | scripts/openapi-ir/graph.go:183-233 | the normalizer and the document, in any order of its schemas, compute the same map |
| ListItems.Finder.ListItemReference | scripts/openapi-ir/graph.go:151-181 | the answer is x if and only if x is the first answer of the search: a schema answers with its own items, else with those of its effective property `items`, else `data`, else `results`; a schema without an answer passes on that of the first `allOf` member, in list order, that reaches one outside the visiting set, which is restored |
| ListItems.ListItemFinds | scripts/openapi-ir/graph.go:151-181 | the recursion finds exactly that first answer, for any visiting set and cycles included |
| ListItems.ListItemIff | scripts/openapi-ir/graph.go:151-181 | there is an item schema if and only if some schema reachable through `allOf` has items or a list property of its own |
| ResourceViews.Compact | scripts/openapi-ir/model.go:320-329 | the in-place compaction leaves the list without entries equal to their predecessor |
| ResourceViews.SortCapabilities | scripts/openapi-ir/model.go:320-329 | the result is strictly increasing and has the same members |
| ResourceViews.RepresentedSchema | scripts/openapi-ir/graph.go:126-149 | the first schema of the first successful response that has one, as its list item if there is one, or else the first schema of the request, or none |
| ResourceViews.SuccessIs | scripts/openapi-ir/graph.go:340-346 | a status is successful if and only if it starts with a 2 or spells, perhaps with a plus sign and zeros, a number from 200 to 299 |
| ResourceViews.OperationHasRepresentedSchema | scripts/openapi-ir/graph.go:96-115 | true if and only if some successful response or the request has a schema |
| ResourceViews.RepresentedAgrees | scripts/openapi-ir/graph.go:96-149 | the two represented-schema tests agree on nonempty references |
| ResourceViews.OperationCapabilities | scripts/openapi-ir/graph.go:271-301 | strictly increasing, with exactly the capabilities of the operation in a view of that kind |
| ResourceViews.CapabilitySetIs | scripts/openapi-ir/graph.go:271-301 | which operations give each capability: stream by content type, action by a colon in the path, the others by verb and kind |
| ResourceViews.LastSegmentIs | scripts/openapi-ir/graph.go:303-315 | the last segment of a path holds a brace if and only if a brace is followed by no slash |
| ResourceViews.Builder.AddOperation | scripts/openapi-ir/graph.go:51-73 | one operation more is grouped under its path, kind and schema |
| ResourceViews.Builder.JoinViews | scripts/openapi-ir/graph.go:80-92 | an operation without a schema joins every view at its path |
| ResourceViews.BuildViews | scripts/openapi-ir/graph.go:10-93 | the finished views have distinct keys, one for every represented schema, sorted capabilities and the operations that belong to them; the entries they are built from say for each operation its represented schema, its kind and its capabilities |
| ResourceViews.EntryIs | scripts/openapi-ir/graph.go:51-73 | the entry of an operation is the only one that describes it |
| ResourceViews.ViewIsUnion | scripts/openapi-ir/graph.go:51-92 | a view's capabilities are strictly increasing and the union of those of the operations it lists, which are exactly the attached ones |
| ResourceViews.PathWithViewAttaches | scripts/openapi-ir/graph.go:80-92 | every operation at the path of a view is attached to some view, and listed at most once in it |
| Routes.ScanRenders | scripts/openapi-ir/normalize.go:468-492 | the pieces of a template are canonical and spell the template |
| Routes.ScanOfRender | scripts/openapi-ir/normalize.go:468-492 | canonical pieces are the only ones with their spelling |
| Routes.RoutePart | scripts/openapi-ir/normalize.go:468-492 | the cursor loop over one part terminates, accepts if and only if every hole is closed and names a required path parameter, and builds the segments in order |
| Routes.RouteSegments | scripts/openapi-ir/normalize.go:457-500 | accepts if and only if every hole is closed and names a required path parameter and every declared one is used; every rejection has its reason |
| Routes.DeclaredIs | scripts/openapi-ir/normalize.go:458-463 | the declared path parameters are those in the path, and of two with one name the last |
| Routes.AcceptedRoute | scripts/openapi-ir/normalize.go:457-500 | the segments spell the path without slashes; the ordered parameters are those of the segments, declared and required; every declared path parameter is among them |
| Routes.MergeParameters | scripts/openapi-ir/normalize.go:186-200 | one parameter per place and name, the last one given, in the order of first appearance |
| ModelClosure.FindSchema | scripts/openapi-ir/model.go:311-318 | finds a schema by reference or name if and only if there is one |
| ModelClosure.FindSchemaIsFirst | scripts/openapi-ir/model.go:311-318 | of several matches it finds the first in the document |
| ModelClosure.Closure.Visit | scripts/sdk-generator/parser.go:418-439 | a visit records the name of what it finds, unless it is recorded, and everything that schema leads to outside what was recorded |
| ModelClosure.Closure.VisitReference | scripts/sdk-generator/parser.go:491-503 | every named schema on an items chain is recorded |
| ModelClosure.ProjectedNames | scripts/sdk-generator/parser.go:415-442 | with acyclic items chains the traversal terminates; the seen set is what the roots record one after the other, and the closure of the roots, on paths that never enter ObjectReference or Error, if every root is what its name finds |
| ModelClosure.OrderOfRootsDecides | scripts/sdk-generator/parser.go:434-436 | with two schemas of one name the order of the roots decides whether a third becomes a model |
| ModelClosure.ProjectFields | scripts/sdk-generator/parser.go:505-553 | exactly one field per effective property, with its own sensitivity and the model its schema refers to; an enumeration has none |
| ModelClosure.ModelRefIs | scripts/sdk-generator/parser.go:527-553 | the model reference is that of the first schema on the items chain that is not a plain array: GatewayPlacementIntent by the spelling of the reference, else the name of a schema that is an enumeration, composed or has effective properties; if that schema gives none the reference is empty |
| ModelClosure.ProjectModels | scripts/sdk-generator/parser.go:415-489 | one model for each recorded name that is no array, flagged if and only if models joined by properties and their items chains lead to one with a sensitive effective property; with roots that are what their names find, every model a property refers to is among the models, an array, or one of the three hand-written types |
| ModelClosure.FlagIs | scripts/sdk-generator/parser.go:463-487 | the flags over the generated models are reachability over the document |
| ModelClosure.ReferenceIsKnown | scripts/sdk-generator/parser.go:415-439 | a property of a recorded schema refers to a recorded name or a hand-written type |
| SensitiveModels.Analysis.ContainsSensitive | scripts/sdk-generator/parser.go:467-484 | the search computes `Contains` and restores the visiting set |
| SensitiveModels.ContainsIsReachability | scripts/sdk-generator/parser.go:467-484 | true if and only if a model with a sensitive field is reachable outside the visiting set |
| SensitiveModels.MarkSensitive | scripts/sdk-generator/parser.go:463-487 | each model is flagged if and only if a sensitive field is reachable through model references, cycles included |
| PathExpressions.GoPathExpression | scripts/sdk-generator/parser.go:593-608 | if the holes of the path are the scope names followed by the item name, the Go expression evaluates to the path with each hole replaced by the escaped value of its parameter |
| PathExpressions.TsPathExpression | scripts/sdk-generator/parser.go:610-619 | if every hole is named by the scope or the item, the template literal evaluates to the path with each hole replaced by the escaped value of its parameter |
| PathExpressions.GoFillsByPosition | scripts/sdk-generator/parser.go:593-608 | the Go expression fills the holes with the escaped arguments by position |
| PathExpressions.GoPathMeans | scripts/sdk-generator/parser.go:593-608 | in path order it evaluates to the path with each hole replaced by the escaped value of its parameter |
| PathExpressions.TsPathMeans | scripts/sdk-generator/parser.go:610-619 | the template literal evaluates to the path with each hole replaced by the escaped value of its parameter, in any order |
| PathExpressions.BackendsAgree | scripts/sdk-generator/parser.go:593-619 | with the parameters in path order both expressions evaluate to the instantiated path, and agree wherever the two escapes do |
| PathExpressions.OrderedIsPathOrder | scripts/openapi-ir/normalize.go:457-500 | the ordered parameters of an accepted route are the holes of its path, in path order |
| PathExpressions.AcceptedRoutesAgree | scripts/sdk-generator/parser.go:593-619 | for every accepted route with validated literals and distinct identifier names, both expressions evaluate to the path with each hole replaced by the escaped value of its parameter |
| PublishRun.EnsureTag | scripts/release_bundle.py:170-181 | leaves the tag at the revision or fails; without faults it fails if and only if the tag points elsewhere |
| PublishRun.FindRelease | scripts/release_bundle.py:183-196 | finds the release of the tag, published or draft on any page, if there is one; without faults it fails only on duplicates |
| PublishRun.ListAndCheck | scripts/release_bundle.py:202-206 | accepts if and only if the assets have distinct names, all of them expected |
| PublishRun.PlaceFile | scripts/release_bundle.py:207-222 | places one file and keeps the others; without faults it fails if and only if the existing asset does not fit |
| PublishRun.FinishRelease | scripts/release_bundle.py:200-224 | leaves the release published and exact, or fails only for a release that does not fit or a fault |
| PublishRun.PublishGithub | scripts/release_bundle.py:168-224 | every change is a lawful step whatever fails; a finished run leaves the bundle published; from a safe state it finishes only if the state was ready, and always then if the store is honest and no call fails |
| PublishRun.PublishUntilDone | scripts/release_bundle.py:168-224 | over any number of runs cut off anywhere: every state is safe, the tag and published releases never change, and a last run without faults completes |
| PublishRun.CompletedIsFinal | scripts/release_bundle.py:168-224 | once the bundle is published no step changes anything |
| Publisher.HistoryIsSafe | scripts/release_bundle.py:168-224 | in every history of steps at most one release carries the tag, a published one is exact, the tag never moves and published releases never change |
| Publisher.ExactAssets | scripts/release_bundle.py:202-222 | every asset of an exact release has the name, digest and size of one of the files |
| Publisher.SpoiledIsReachable | scripts/release_bundle.py:219-222 | a store that alters the first upload leads to a safe state with an asset that is neither a starter nor a file |
| Publisher.SpoiledForGood | scripts/release_bundle.py:207-224 | from such a state no history of steps reaches a state from which a run can finish |
| Publisher.ReachableIsReady | scripts/release_bundle.py:168-224 | with an honest store, a run can finish from every reachable state |
| ReleaseStore.GitHub.Upload | scripts/release_bundle.py:219-222 | an upload stores the file, a starter or nothing, and may lose its answer |
| ManifestSource.ManifestSource | scripts/release_bundle.py:327-346 | selects a revision that contains every revision, or says that none does; it stops only if git gives no answer about the revisions and the main branch, or a revision is not on the main branch |
| ManifestSource.GreatestIsUnique | scripts/release_bundle.py:334-346 | in an acyclic history at most one revision contains all others |
| ManifestSource.OutcomeIsUnique | scripts/release_bundle.py:327-346 | the outcome depends on the set of revisions and not on the order in which they are tried |
| Globs.GlobToRegex | scripts/check_ci_impact_scopes.py:53-86 | the index loop emits the atoms of `Translate` |
| Globs.TranslatePath | scripts/check_ci_impact_scopes.py:53-86 | a pattern of segments compiles segment by segment |
| Globs.PathAtomsMatch | scripts/check_ci_impact_scopes.py:53-98 | the compiled segments match a normalized path if and only if the segment matcher does |
| Globs.GlobMeansSegments | scripts/check_ci_impact_scopes.py:53-98 | for every pattern whose segments are `**` or free of it, the compiled expression accepts a normalized path if and only if the segment matcher does |
| Globs.Matcher.Compiled | scripts/check_ci_impact_scopes.py:89-94 | the cache never changes what a pattern compiles to |
| Globs.Matcher.MatchesAny | scripts/check_ci_impact_scopes.py:97-98 | true if and only if some pattern accepts the path |
| Globs.Matcher.ScopesFor | scripts/check_ci_impact_scopes.py:386-396 | exactly the scopes that include and do not exclude the path |
| Globs.Matcher.IsClassified | scripts/check_ci_impact_scopes.py:399-404 | true if and only if a barrier or some scope selects the path |
| ImpactScopes.ParseImpactScopes | scripts/check_ci_impact_scopes.py:106-198 | the loop over the lines of the text computes `Parse` |
| ImpactScopes.ReindentingChangesNothing | scripts/check_ci_impact_scopes.py:106-198 | adding any number of spaces to every indented line of a text leaves scopes and barriers unchanged |
| ImpactScopes.CommentsChangeNothing | scripts/check_ci_impact_scopes.py:126-128 | two texts that differ only in blank lines and comment lines, anywhere, give the same scopes and barriers |
| ImpactScopes.InsertingIgnoredLines | scripts/check_ci_impact_scopes.py:126-128 | inserting such lines between any two lines of a file changes nothing |
| ImpactScopes.OtherBlocksAreSkipped | scripts/check_ci_impact_scopes.py:143-148 | a block of any other top-level key, at the end or before another top-level line, changes nothing |
| ImpactScopes.ParseRender | scripts/check_ci_impact_scopes.py:106-198 | reading the rendering of any table of legal names and items gives the table back, at any indents and in any quotes |
| Paging.ListAll | components/sdk-typescript/src/gateway_access_api.ts:67-79 | makes max(1, ⌈n/size⌉) requests and yields exactly the first min(n, requests·min(size, clamp)) items |
| Paging.ListAllAccess | components/sdk-typescript/src/gateway_access_api.ts:24-79 | a prefix; everything if the size is at most 100, and otherwise exactly for the lengths in the windows of the clamp 100 |
| Paging.ListAllGateways | components/sdk-typescript/src/gateway_api.ts:39-51 | a prefix; everything if the size is at most 65500, and otherwise exactly for the lengths in the windows of the clamp 65500 |
| Paging.CompleteForEveryCollectionIff | components/sdk-typescript/src/gateway_access_api.ts:67-79 | every collection is yielded whole if and only if the size is within the clamp |
| Paging.CompleteBeyondClampIff | components/sdk-typescript/src/gateway_access_api.ts:67-79 | beyond the clamp, n items are yielded whole if and only if n = 0 or (p − 1)·size < n ≤ p·clamp for some p |
| Paging.WindowsEnd | components/sdk-typescript/src/gateway_access_api.ts:67-79 | a nonempty window has (p − 1)·(size − clamp) < clamp, so there are finitely many |
| Paging.CompleteWithinClamp | components/sdk-typescript/src/gateway_api.ts:39-51 | nothing is lost when the size is within the clamp |
| Paging.LosesBeyondClamp | components/sdk-typescript/src/base.ts:55-66 | from twice the clamp on, exactly the collections within the clamp are yielded whole |
| Paging.Iterator.Next | components/sdk-go/client/iterator.go:34-56 | each call hands out the next item, or ends or fails, and after that nothing changes any more |
| Paging.Iterator.Item | components/sdk-go/client/iterator.go:58-60 | the item handed out last |
| Paging.Drain | components/sdk-go/client/iterator.go:34-64 | the loop yields the whole collection in ⌈n/s⌉+1 fetches; if a page it needs fails, exactly the pages before it |
| BatchFrames.ReadBatch | packages/spec-viewer-ui/server/repository.ts:240-251 | every text file's content is recovered exactly, whatever bytes it holds; a file is left out if and only if one of its first 8000 bytes is zero |
| BatchFrames.ReadFrame | packages/spec-viewer-ui/server/repository.ts:242-250 | one frame gives its content and the offset of the next frame |

## Left out

- YAML parsing, URL and path resolution, symbolic links and the OpenAPI loader: a finite map of node trees and an abstract resolver stand for them.
- Percent-decoding of fragments: pointers are taken as decoded.
- The list of operation identifiers the scan collects, and the later rejection of duplicates (scripts/openapi-ir/loader.go:299-308): nothing modelled here reads it.
- Whether the OpenAPI loader that reads the files after the preflight rejects repeated keys: a library outside this model.
- References are pairs of file and pointer instead of joined strings; `SplitRecoversIffNoHash` says when that is the same.
- SchemaNormalizer.Normalizer.EnsureSchema: document schemas are values in a map and not shared pointers; a schema is written back when a field changes.
- SchemaNormalizer.NormalizeComponents: parameters and media types ask for their schemas after the components, through the same `EnsureSchema` (`ByOperation`); the exactness of the whole document is stated for the components and what they reach.
- Parts of a schema that are only copied (title, limits, examples, extensions) are one `Info` value; discriminators are not modelled.
- The sorting of operations, schemas, models and names: the models keep lists in any order, sets or multisets instead.
- ModelClosure.ProjectedNames: requires that no reference equals a name; references contain a `#`, and component names are validated without one.
- ModelClosure.ProjectFields: items chains must be acyclic, because the original recursion has no guard; Go, Python and TypeScript type names are not modelled.
- Schema uses, links and inferred relationships between views: lists of records without a property that spans operations.
- ResourceViews.BuildViews: references must be nonempty texts, which the normalizer guarantees (`SchemaIdentity`); view keys are triples, not joined strings; scope parameters and extensions of views are not kept.
- Routes.RoutePart: the first brace is found by cutting the text around it instead of by an index.
- PathExpressions.AcceptedRoutesAgree: the two escape functions are parameters; quoting by `strconv.Quote` and the compilers' reading of the quoted text are taken to be inverse.
- PublishRun.PublishGithub: runs are serial. Two publishers at once can delete each other's work because listings go stale. Release names, targets and the latest flag are not modelled; a bundle has fewer than a hundred files, as the page of assets requires.
- ManifestSource.ManifestSource: the check that the manifest files exist in the selected commit.
- Globs.GlobMeansSegments: paths have nonempty segments without line breaks, and pattern segments that mix `**` with other characters are outside the statement; `Accepts` itself covers them.
- ImpactScopes.ParseImpactScopes: the order in which scopes are kept.
- Paging.ListAll: the collection does not change during the run and the size is at least one; with size zero the original never stops on a nonempty collection.
- Paging.Drain: the iterator's `total` field is kept but, as in the original, nothing depends on it.
- BatchFrames.ReadBatch: `git ls-tree` parsing, UTF-8 decoding (a parameter) and answers for missing objects; the cache of commits.
- Token signing, registry commands, archives, templates, generated types, user interfaces and the other check scripts.
