# Fabricks: verified models of the core libraries

Fabricks builds, stores and runs WebAssembly modules. This project models, in Dafny, the parts of its
libraries whose correctness depends on search, rewriting, on-disk state, interleaving or arithmetic, and
proves what they promise for every input, every run and every crash point. `dafny verify dfyconfig.toml`
checks everything.

| file | what it models |
|---|---|
| `DependencyGraph.dfy`, `CycleDetection.dfy` | the depth-first search for circular service dependencies |
| `MortarValidation.dfy` | collection of all violations of a mortar file into a flat report |
| `Wrappers.dfy`, `Sequences.dfy` | notions shared by all files |
| `Text.dfy` | replace-all, split and join as the standard library defines them |
| `Placeholders.dfy`, `Interference.dfy` | the `${variable.name:-default}` pattern; text that can take part in spelling it |
| `VariableResolver.dfy` | the rewriting loop, the substitution it should perform, and when the two agree |
| `ValueSafety.dfy`, `ChainRewriting.dfy`, `TemplateSafety.dfy`, `TemplateExamples.dfy` | which values and which templates are safe, and families that are not |
| `FabricksModules.dfy` | module layers, builders, annotations and the configuration fallback |
| `Digest.dfy`, `ImageIndex.dfy`, `BlobStore.dfy` | the content-addressed store and its index: reading, storing, deleting |
| `StoreReading.dfy`, `StoredManifests.dfy` | what each reader yields or fails with, and what the store writes down about a module, in terms of the stored bytes and records |
| `StorageRuns.dfy`, `StoredModules.dfy`, `LocalStorage.dfy` | the store on disk, one file-system effect at a time, crashes at any point of a run, and what loads then |
| `RuntimePool.dfy` | the shared module cache under any interleaving of callers |
| `Quantities.dfy` | parsing and printing of 64-bit byte sizes and durations |
| `LogCapture.dfy` | line-buffered log capture |

Hash maps and sets of the program are Dafny maps and sets; loops over them pick elements in an arbitrary
order, so each result holds for every iteration order. SHA-256, JSON, TOML, semantic versions and the
resolution of paths are function parameters. Of the hash only the shape of its result is assumed (64
hexadecimal characters). Freedom from collisions is assumed of nothing but the contents named in a
hypothesis: that nothing else at hand has the hash of a manifest, where a stored manifest is said to be
complete, and that nothing else has the hash of a part of the module, where the module is said to load
back. Of the codecs it is assumed that decoding inverts encoding. Text is a sequence of characters.

## Where the code does not keep its promise

- **Resolution is not always a substitution.** The resolver's documentation promises that references are
  replaced by values. The code rewrites a copy of the string once per match, and so can rewrite text
  that a value or a default brought in, or destroy a match nested in a default.
  `SafeIffInert` says exactly which values are safe: those inside which no placeholder can start,
  whatever text follows. A lone `$` is unsafe, `$5` is safe (`DollarExamples`).
  `SafeTemplateIff` says exactly which templates are safe with such values: those that neither *spell
  ahead* (literal text before a placeholder that is replaced first begins the spelling of a later match)
  nor *nest* (a default hides the spelling of an earlier match). The one kind of template that it does
  not decide is named under "Left out". `SeamDisagrees`, `NestedDefaultDisagrees` and
  `TwoValuesDisagree` are families of failures.
- **Durations are not checked for overflow**, unlike byte sizes. `DurationExactIffFits` gives the exact
  condition; beyond it a checking build panics and a release build wraps; `213503982334602d` is the
  first such number of days (`FirstOverflow`).
- **A cache of capacity zero still caches one module** (`ZeroCapacityCachesOne`), so the bound that holds
  is the larger of one and the capacity.
- **Authors survive the annotation fallback** exactly when the list is not empty and no author contains
  the separator; and a custom annotation can supply an optional field that the configuration leaves out
  (`FallbackRecoversIff`).
- **Deleting a blob** leaves the store in working order exactly when nothing refers to the blob
  (`DeleteServesIff`, `DeletionExamples`); the code does not check. Nor does it check that the digest
  names a blob at all: a path such as `../../index.json` after the prefix removes the index.
- **A crash while the index is written** loses all references until the index is put back
  (`TornIndexRecovers`), because the file is truncated first. No blob is lost, and the earlier index, put
  back, brings back every module (`Run`). At every other crash point each reference loads what was last
  stored under it (`LoadsLastStored`).

## Model

| member | source | states |
|---|---|---|
| CycleDetection.CycleDetector.DfsDetectCycle | fabricks-common/src/validation.rs:357-380 | terminates on every graph; a reported edge closes a real cycle; with no report, the recursion stack is again exactly the search path, and the node and all it reaches have finished, dependencies first |
| CycleDetection.CheckCircularDependencies | fabricks-common/src/validation.rs:327-355 | for every iteration order, an error if and only if the graph has a cycle (self-loops and undeclared names included), naming an edge on a cycle; otherwise a start order of all names exists |
| DependencyGraph.OrderRefutesCycles | fabricks-common/src/models/mortar.rs:269-271 | a listing of the services in which dependencies come first rules out every cycle |
| CycleDetection.BackEdge | fabricks-common/src/validation.rs:372-374 | an edge from the end of the search path back into it lies on a cycle and is reported as such |
| CycleDetection.EnterNode | fabricks-common/src/validation.rs:363-364 | visiting a new neighbor keeps the stack equal to the path |
| CycleDetection.LeaveNode | fabricks-common/src/validation.rs:378-379 | a node whose neighbors have all finished can be appended to the dependencies-first order of finished nodes |
| MortarValidation.ValidateService | fabricks-common/src/validation.rs:258-325 | reports every violation of a service with its multiplicity, flat: nothing, the bare error, or at least two leaves |
| MortarValidation.ValidateServices | fabricks-common/src/validation.rs:230-240 | in any order of services, collects exactly the sum of the services' violations, unnested |
| MortarValidation.Validate | fabricks-common/src/validation.rs:189-256 | the report holds every service, project and cycle violation exactly once and is flat; it is empty iff the file is well formed, and then the services can be listed so that each comes after every service in its `depends_on` |
| MortarValidation.ViolationCounts | fabricks-common/src/validation.rs:258-325 | how often a service is reported for each reason, told from the fields of its record: no source or both, unknown networks and dependencies as often as listed, unknown volumes once |
| MortarValidation.ProjectCounts | fabricks-common/src/validation.rs:189-229 | what is reported of the project itself: a version other than 1.0, a name that is not a label of 1 to 63 characters, a version that is not semantic |
| MortarValidation.CyclesAreCircles | fabricks-common/src/validation.rs:333-352 | the graph that is searched has a cycle iff some services depend on each other in a circle, whatever else they declare |
| MortarValidation.ReportNamesCircle | fabricks-common/src/validation.rs:345-351 | a reported edge leads along a circle of `depends_on` entries |
| MortarValidation.NoViolationsIffWellFormed | fabricks-common/src/validation.rs:247-254 | there is nothing to report iff names, versions, references and dependencies are all in order, and violations are never nested |
| MortarValidation.WellFormedIsClosed | fabricks-common/src/validation.rs:305-315 | in a valid file every dependency names a declared service |
| MortarValidation.SumTakesAny | fabricks-common/src/validation.rs:231-240 | the total does not depend on which service is validated first |
| MortarValidation.AbsorbKeepsAll | fabricks-common/src/validation.rs:235-238 | splicing a nested report in loses and adds nothing |
| Placeholders.MatchIffSpelled | fabricks-common/src/mortar/variables.rs:120 | the scanner matches a placeholder at a position iff a well-formed placeholder is spelled there, and it is the only one |
| Placeholders.MatchIffWritten | fabricks-common/src/mortar/variables.rs:120 | a match is `${variable.`, a name of letters, digits and underscores not starting with a digit, optionally `:-` and a default without a closing brace, and a closing brace, spelled out character by character |
| Placeholders.PrefixFree | fabricks-common/src/mortar/variables.rs:120 | no placeholder's spelling is a proper prefix of another's |
| VariableResolver.Resolve | fabricks-common/src/mortar/variables.rs:117-157 | fails iff some match has neither value nor default, then naming every such occurrence in order; otherwise yields the one-pass substitution for inert values and every template that neither spells ahead nor nests; a text that is one reference yields the value, the default, or the error with its name |
| VariableResolver.RewriteNext | fabricks-common/src/mortar/variables.rs:139-150 | each further match replaces every occurrence of its spelling by its value or else its default, and nothing if it has neither |
| VariableResolver.UndefinedNext | fabricks-common/src/mortar/variables.rs:144-147 | each further match without value and default adds one message with its name |
| VariableResolver.RewriteIsOnePass | fabricks-common/src/mortar/variables.rs:126-150 | match-then-replace-all equals simultaneous left-to-right substitution for inert values in every template that neither spells ahead nor nests, whatever the number, order and repetition of placeholders |
| VariableResolver.ParseIsInput | fabricks-common/src/mortar/variables.rs:126-137 | runs and placeholders spell the template, the placeholders are the matches in order, and none can be read from within a run |
| VariableResolver.ParseIsUnique | fabricks-common/src/mortar/variables.rs:126-137 | and there is no other reading of the template into runs and placeholders of this kind |
| VariableResolver.OnePassIsFill | fabricks-common/src/mortar/variables.rs:108-111 | filling each placeholder of the template in place is the left-to-right substitution |
| VariableResolver.StepIsLocal | fabricks-common/src/mortar/variables.rs:149 | unless a run before a filled placeholder begins its spelling or a remaining one hides it, one replace-all changes the placeholders spelled like its match and no other character |
| VariableResolver.ResolvedIsFinal | fabricks-common/src/mortar/variables.rs:117-157 | for a calm template and inert values the resolved string contains no placeholder, so resolving it again under any variables changes nothing |
| VariableResolver.ResolveEnvironment | fabricks-common/src/mortar/variables.rs:164-171 | keeps the key set; succeeds iff every value resolves, and then every value is what resolving it by itself yields, whatever the template and the values; a failure is that of some unresolvable value |
| VariableResolver.FromMortarWithOverrides | fabricks-common/src/mortar/variables.rs:69-104 | the variables are those with a default or an override, and overrides win |
| ValueSafety.SafeIffInert | fabricks-common/src/mortar/variables.rs:139-150 | a value is treated like a one-pass substitution would in every template that by itself neither spells ahead nor nests iff no placeholder can start inside it, which is checked character by character |
| ValueSafety.NotInertIsNotSafe | fabricks-common/src/mortar/variables.rs:149 | every other value has even a calm template and inert other values for which the loop loses text |
| ChainRewriting.StepSpells | fabricks-common/src/mortar/variables.rs:149 | if no spelling crosses from a run into a placeholder, replace-all acts on each run by itself, on the placeholders so spelled and on those that hide one |
| ChainRewriting.StepUncrossed | fabricks-common/src/mortar/variables.rs:139-150 | a replacement by an inert value longer than every spelling lets no spelling cross either, and leaves no placeholder of that spelling |
| TemplateSafety.SafeTemplateIff | fabricks-common/src/mortar/variables.rs:126-150 | the loop performs the substitution for all inert values iff the template neither spells ahead nor nests, both checked on the template alone, except that templates that only spell ahead are covered only if one value can complete a spelling |
| TemplateSafety.SpellsAheadIsNotSafe | fabricks-common/src/mortar/variables.rs:139-150 | every template in which a run before a match begins the spelling of a later one, and what is left of that spelling is inert, has inert values for which the loop fails |
| TemplateSafety.SingleDollarTemplateIff | fabricks-common/src/mortar/variables.rs:126-150 | if no placeholder contains a second dollar sign, then iff no end of a run before a match begins the spelling of a match that comes later than one spelled like the first |
| TemplateSafety.NestsIsNotSafe | fabricks-common/src/mortar/variables.rs:149 | every template that nests, whatever else it contains, has inert values for which the loop fails |
| TemplateSafety.LoopGrows | fabricks-common/src/mortar/variables.rs:139-150 | with long values, once a spelling occurs where it should not at its turn, the result comes out longer than the substitution, however the loop goes on |
| TemplateSafety.PlainTemplatesAgree | fabricks-common/src/mortar/variables.rs:117-157 | if every dollar sign starts a placeholder and no value or default contains one, the loop is the substitution |
| TemplateSafety.SinglePlaceholderAgrees | fabricks-common/src/mortar/variables.rs:139-150 | a template with one placeholder is resolved as promised for any value and any text around it |
| TemplateExamples.SeamDisagrees | fabricks-common/src/mortar/variables.rs:139-150 | `$${variable.x}…${variable.y}` with the inert values `{variable.y}` and nothing: the text `${variable.y}` that the substitution yields is lost |
| TemplateExamples.NestedDefaultDisagrees | fabricks-common/src/mortar/variables.rs:120-150 | `${variable.x}…${variable.y:-${variable.x}` leaves the opening of the second placeholder in the result for any two names, although all values are empty |
| TemplateExamples.TwoValuesDisagree | fabricks-common/src/mortar/variables.rs:139-150 | `$${variable.x}$${variable.w}…${variable.y:-${variable.z}`, or with any longer beginning of `${variable.y` in front, with inert values for `x` and `w` that together spell the third placeholder: the text the substitution yields is lost |
| TemplateExamples.TwoValuesNeeded | fabricks-common/src/mortar/variables.rs:139-150 | for a beginning that does not begin `${variable.w}` no single value can complete a spelling there, so this is one of the templates that the exact condition leaves open, and it is unsafe |
| ValueSafety.DollarExamples | fabricks-common/src/mortar/variables.rs:139-150 | the value `$` is unsafe and the value `$5` is safe |
| Interference.CanBeginIffLive | fabricks-common/src/mortar/variables.rs:120 | the executable check decides whether text is, or could be completed to, a placeholder |
| Interference.InertConcat | fabricks-common/src/mortar/variables.rs:149 | joining inert texts creates no placeholder across the seam |
| Text.SplitInvertsJoinIff | fabricks-oci/src/client.rs:360-362 | splitting undoes joining iff the list is not empty and no part contains the separator, even when parts end like the separator begins |
| Text.JoinInvertsSplit | fabricks-oci/src/client.rs:360-362 | joining undoes splitting for every text and separator |
| Text.JoinNext | fabricks-oci/src/module.rs:391-397 | the separator stands between any two parts and nowhere else; no parts give no text |
| Text.ReplaceIsSplitJoin | fabricks-common/src/mortar/variables.rs:149 | replace-all is splitting at the pattern and joining with the replacement |
| Text.ReplaceAround | fabricks-common/src/mortar/variables.rs:149 | a pattern that cannot overlap itself splits the text at any of its occurrences |
| FabricksModules.FallbackRecoversIff | fabricks-oci/src/client.rs:326-383 | the fallback configuration equals the annotated part of the original iff authors survive joining and no custom annotation stands in for an absent field |
| FabricksModules.AnnotationsByKey | fabricks-oci/src/module.rs:367-408 | what each of the seven standard keys, spelled out, holds for present and absent fields, and that every other key holds what the custom annotations say |
| FabricksModules.ParsedByKey | fabricks-oci/src/client.rs:315-383 | a parsed configuration is taken as it is; otherwise which annotation each field is read from, what defaults, and which missing annotation is reported first |
| FabricksModules.CodeIs | fabricks-oci/src/module.rs:271-287 | the code is the first module layer, or else the last layer of whatever type |
| FabricksModules.FirstOfTypeIs | fabricks-oci/src/module.rs:291-302 | the first layer of a type is found iff there is one |
| FabricksModules.SourceLayersPick | fabricks-oci/src/module.rs:321-325 | exactly the source layers are listed, in order |
| FabricksModules.ModuleShape | fabricks-oci/src/module.rs:138-225 | after any sequence of additions runtime layers form a prefix, sources are last in the order added, the size is the sum of all parts, and a compiled module's code is unchanged |
| FabricksModules.FabricksModule.NewInterpreted | fabricks-oci/src/module.rs:180-191 | an interpreted module has a runtime layer and then a source layer, of their types and with the given contents, and no annotations; so it is an empty one to which both were added |
| FabricksModules.FabricksModule.WithRuntimeLayer | fabricks-oci/src/module.rs:202-209 | prepends a runtime layer and changes nothing else |
| FabricksModules.FabricksModule.WithSourceLayer | fabricks-oci/src/module.rs:221-225 | appends a source layer and changes nothing else |
| Digest.VerifyIffNamed | fabricks-oci/src/digest.rs:32-42 | content passes verification iff its hash is what follows the digest's prefix, and otherwise the error holds the expected and the actual digest |
| Digest.ParsesIffWellFormed | fabricks-oci/src/digest.rs:49-88 | a digest parses iff it is a known algorithm, a colon and a hexadecimal hash of that algorithm's length, and the parts are these |
| Digest.RejectedBecause | fabricks-oci/src/digest.rs:49-88 | which error every other digest gives: no colon, an unknown algorithm, or a hash of the wrong length or alphabet |
| Digest.ParsesComputed | fabricks-oci/src/digest.rs:22-25 | every computed digest parses, back to its hash |
| ImageIndex.UpsertIsMapUpdate | fabricks-oci/src/storage.rs:276-332 | from any list, adding acts as map update, leaves exactly one entry for the reference, keeps unnamed entries as they were parsed and references distinct |
| ImageIndex.RunsRefineMap | fabricks-oci/src/storage.rs:276-405 | over every run the list stands for the updated map, and from an empty index no reference is ever listed twice |
| ImageIndex.WithoutNext | fabricks-oci/src/storage.rs:297-303 | exactly the entries that carry the reference are dropped, and the others kept in order |
| ImageIndex.UpsertAppends | fabricks-oci/src/storage.rs:305-317 | the new entry comes last, with the media type of a manifest, its digest and size, and the reference as its one annotation |
| ImageIndex.FindDigest | fabricks-oci/src/storage.rs:339-372 | finds what the map holds for the reference |
| ImageIndex.FirstEntryWins | fabricks-oci/src/storage.rs:360-371 | the map holds the digest of the first entry that carries the reference |
| ImageIndex.ListReferences | fabricks-oci/src/storage.rs:379-405 | lists the references of all named entries, in order |
| ImageIndex.ReferencesNext | fabricks-oci/src/storage.rs:393-404 | an entry is listed under its reference annotation if it has one, and counts as unnamed otherwise |
| ImageIndex.ReferencesAreKeys | fabricks-oci/src/storage.rs:379-405 | the listed references are the keys of that map |
| LocalStorage.LocalStorage.constructor | fabricks-oci/src/storage.rs:107-148 | opening keeps what is there, and creates an empty index if there is none, torn for the time it takes to write it |
| LocalStorage.LocalStorage.StoreBlob | fabricks-oci/src/storage.rs:162-202 | afterwards the data is under its hash unless something was there before, every other blob and the index are as they were, and no new temporary file is left; at every point, a partial write included, finished blobs are as before or hold the new data under its hash, and none is ever lost again |
| LocalStorage.LocalStorage.DeleteBlob | fabricks-oci/src/storage.rs:246-263 | if the path leads to a blob, that blob is gone and reading it fails as missing, and all other blobs and the index are as they were; if it leads to the index, the index is gone and no blob; elsewhere, or without the prefix, nothing changes |
| LocalStorage.LocalStorage.AddToIndex | fabricks-oci/src/storage.rs:276-332 | truncates and then rewrites the index and touches no blob; fails, with nothing changed, if the index cannot be read |
| LocalStorage.LocalStorage.StoreModule | fabricks-oci/src/storage.rs:430-488 | on success the last index entry names, for the reference, a stored manifest that describes the module: configuration, layers in order with type, digest, size and annotations, and the annotations key by key; up to the index the disk only grows, then the index is torn, then it is the new one |
| StoredManifests.ManifestDescribes | fabricks-oci/src/storage.rs:436-478 | the manifest that is written describes the module, in terms of its records and with all media types and keys spelled out |
| StoredManifests.ManifestReadsBack | fabricks-oci/src/storage.rs:474-487 | the manifest that the index names reads back as it was written, unless something else has its hash |
| StoredManifests.ManifestRecoversIff | fabricks-oci/src/client.rs:326-383 | from its annotations alone the annotated part of the configuration is recovered iff authors survive joining and no custom annotation stands in for an absent field |
| LocalStorage.LocalStorage.LoadModule | fabricks-oci/src/storage.rs:503-541 | follows index, manifest, configuration and layers, and fails with the first failure on the way |
| StoreReading.ModuleIsRead | fabricks-oci/src/storage.rs:503-541 | if index, manifest, configuration and all layers can be read, the module is made of exactly these |
| StoreReading.FirstFailure | fabricks-oci/src/storage.rs:503-541 | otherwise loading fails with the first of the index, the manifest, its text, the configuration, its text or a layer that fails |
| StoreReading.BlobIsRead | fabricks-oci/src/storage.rs:209-231 | a blob is returned iff it is there under what follows the prefix and has that hash; which error otherwise |
| StoreReading.ReferenceIsRead | fabricks-oci/src/storage.rs:339-372 | the digest of the first entry that carries the reference, or which error |
| LocalStorage.LocalStorage.GetLayerByMediaType | fabricks-oci/src/storage.rs:557-581 | the data of the first layer of the type |
| StoreReading.FirstDataIs | fabricks-oci/src/storage.rs:564-580 | whether or not the module loads, the first layer of the type decides, also by its failure |
| LocalStorage.LocalStorage.GetSourceLayers | fabricks-oci/src/storage.rs:638-659 | the data of the source layers in order |
| StoreReading.SourceDataNext | fabricks-oci/src/storage.rs:645-658 | whether or not the module loads, each further source layer adds its data, and the first that cannot be read is the failure |
| LocalStorage.LocalStorage.Run | fabricks-oci/src/storage.rs:162-488 | the operations take the disk through the crash points one after the other; for any hash, at every one of them blobs match their names and are never lost, every indexed digest can be read, the index is that of the operations complete by then or torn just before the next is complete, and all that these have stored can be read; if nothing else has a manifest's hash, every indexed manifest is also complete, under any earlier index too |
| StorageRuns.GuardedStep | fabricks-oci/src/storage.rs:162-488 | one more operation extends the timeline of a run and keeps every state sound |
| StorageRuns.TimelineOfIndex | fabricks-oci/src/storage.rs:425-488 | in every state of a run the index is exactly that of the operations complete by then, or torn in the one state before a module is complete |
| StorageRuns.TimelineOfContents | fabricks-oci/src/storage.rs:162-202 | from the state in which an operation is complete, all it has stored can be read in every later state |
| StoredModules.LoadsLastStored | fabricks-oci/src/storage.rs:430-541 | at every crash point with a readable index a reference loads the module last stored under it by a complete operation, if nothing else has the hash of one of its parts, and what it loaded before the run if there is none |
| StorageRuns.IndexedRefinesMap | fabricks-oci/src/storage.rs:276-332 | over a run the index stands for the map updated by each stored module in turn, and no reference is dropped |
| BlobStore.IndexStaysValid | fabricks-oci/src/storage.rs:177-201 | an index that was fine once is fine over all that was kept and added since |
| BlobStore.TornIndexRecovers | fabricks-oci/src/storage.rs:319-329 | a torn index hides every module, and putting the earlier one back brings each of them back unchanged |
| BlobStore.StoredIsSound | fabricks-oci/src/storage.rs:430-488 | for any hash, after a module is stored every indexed digest and every part of the module can be read |
| BlobStore.GrowthIsConsistent | fabricks-oci/src/storage.rs:177-201 | storing blobs, finished or interrupted, breaks nothing the index refers to |
| BlobStore.StoredIsConsistent | fabricks-oci/src/storage.rs:480-487 | because the index is written last, the new entry's manifest is complete, if only nothing else has the manifest's hash |
| BlobStore.LoadAfterStore | fabricks-oci/src/storage.rs:430-541 | a stored module loads back with the same configuration and the same layers in order |
| BlobStore.OthersLoadAsBefore | fabricks-oci/src/storage.rs:430-541 | every other reference still loads exactly what it loaded before, collisions or not |
| BlobStore.QueriesAgreeWithLoad | fabricks-oci/src/storage.rs:557-659 | whatever loads, the direct queries for a layer type and for source layers agree with the loaded module |
| BlobStore.DeleteServesIff | fabricks-oci/src/storage.rs:246-263 | after a deletion the index can be read and all it mentions is there iff the path led to a blob that no indexed manifest is or mentions, or out of the store |
| BlobStore.DeletionExamples | fabricks-oci/src/storage.rs:246-263 | a store of one module stops serving when its manifest is deleted, and when a path leads to the index |
| RuntimePool.RuntimePool.EvictAndInsert | fabricks-runtime/src/pool.rs:108-122 | at capacity exactly one cached module, of any key, makes room, and below capacity none; the module is then cached, nothing else changes, and the bound is kept |
| RuntimePool.RuntimePool.GetRuntime | fabricks-runtime/src/pool.rs:93-125 | an uninterrupted call returns the cached bytes, or else its own, which are then cached |
| RuntimePool.Take | fabricks-runtime/src/pool.rs:93-153 | every critical section of the pool is a step of the state machine, with the same effect on the cache |
| RuntimePool.StepIsSafe | fabricks-runtime/src/pool.rs:93-153 | each atomic step keeps the size bound and the provenance of all cached and returned bytes |
| RuntimePool.CacheIsTransparent | fabricks-runtime/src/pool.rs:93-153 | in every interleaving of any number of calls with evictions the cache stays within max(1, capacity), and callers who agree per digest get exactly their own bytes |
| RuntimePool.DisagreementShows | fabricks-runtime/src/pool.rs:100-106 | callers who disagree about a digest can be served each other's bytes, at any capacity |
| RuntimePool.ZeroCapacityCachesOne | fabricks-runtime/src/pool.rs:112-120 | a pool of capacity zero reaches one cached module |
| Quantities.ByteSizeIffSpelled | fabricks-common/src/models/common.rs:151-194 | a byte size is read iff the trimmed text is decimal digits and a known unit whose exact product fits in 64 bits, and is that product; otherwise the error holds the trimmed text |
| Quantities.ByteSizeOfSpelling | fabricks-common/src/models/common.rs:187-193 | the product is returned if it fits and is an error otherwise |
| Quantities.ByteSizeRoundTrip | fabricks-common/src/models/common.rs:197-213 | printing then parsing is the identity on all 64-bit sizes |
| Quantities.PrintsLargestByteUnit | fabricks-common/src/models/common.rs:197-213 | the printed unit divides the size, and so does no larger one |
| Quantities.TrimCuts | fabricks-common/src/models/common.rs:152 | trimming removes white space, all of it, from both ends and nothing else |
| Quantities.CharactersAre | fabricks-common/src/models/common.rs:152-162 | the white space that is trimmed and the digits that are read, by their code points and in their order |
| Quantities.LeadingDigit | fabricks-common/src/models/common.rs:164-168 | a digit counts by its place in the decimal number |
| Quantities.ByteUnits | fabricks-common/src/models/common.rs:170-184 | the factor of every unit of size, and that there are no others |
| Quantities.DurationUnits | fabricks-common/src/models/common.rs:60-70 | the factor of every unit of time, and that there are no others |
| Quantities.DurationExactIffFits | fabricks-common/src/models/common.rs:41-75 | the exact product is returned iff it fits in 64 bits; beyond, a checking build panics and another wraps |
| Quantities.FirstOverflow | fabricks-common/src/models/common.rs:41-75 | `213503982334601d` is read exactly; for `213503982334602d` a checking build panics and another reads 61184 seconds |
| Quantities.DurationInvalidIff | fabricks-common/src/models/common.rs:41-71 | a duration is rejected iff the trimmed text is not a 64-bit number in decimal digits followed by a known unit |
| Quantities.DurationRoundTrip | fabricks-common/src/models/common.rs:78-94 | printing then parsing is the identity on all 64-bit durations, without overflow |
| Quantities.PrintsLargestDurationUnit | fabricks-common/src/models/common.rs:78-94 | the printed unit divides the duration, and so does no larger one |
| LogCapture.LogCaptureStream.Write | fabricks-runtime/src/output.rs:85-106 | logs the lines completed by the text, tagged with the stream, and holds back the rest |
| LogCapture.LogCaptureStream.Flush | fabricks-runtime/src/output.rs:75-82 | logs the partial line if there is one and empties the buffer |
| LogCapture.FlushIsBreak | fabricks-runtime/src/output.rs:75-82 | a flush logs and empties the partial line exactly as a newline in the output would |
| LogCapture.FeedLogsLines | fabricks-runtime/src/output.rs:93-103 | the partial line held back and the text make up the lines logged next |
| LogCapture.ChunksLogLines | fabricks-runtime/src/output.rs:85-130 | however the output is cut into writes, after drop the log is its non-empty lines in order |
| LogCapture.FlushesLoseNothing | fabricks-runtime/src/output.rs:73-130 | with flushes anywhere, entries and buffer concatenate to the output without newlines, no entry is empty, and none contains a newline |
| LogCapture.CaptureOutput | fabricks-runtime/src/output.rs:49-130 | a stream opened, written to in chunks of any size and dropped adds to the log exactly the non-empty lines of the output under its tag |
| LogCapture.DriveAll | fabricks-runtime/src/output.rs:49-130 | any calls on any number of streams of one writer log the lines in the order of the calls, each under the tag of its stream |
| LogCapture.StreamsAreIndependent | fabricks-runtime/src/output.rs:49-62 | what comes from each of any number of streams, even of one tag, is what it would log alone |

## Left out

- Fabrickfile validation: it accumulates errors in the same way as a mortar file, over simpler checks.
- Network access, the daemon, the command line, credentials, and WebAssembly compilation and execution.
- I/O failures as results: an operation that fails half-way leaves one of the crash points modelled here, the torn index among them, but its error is not modelled.
- Concurrent writers to one store: both the temporary file and the rewriting of the index assume one writer.
- The kind of error when a digest with a path after the prefix is read: it is always an error, because no path is a hash, but whether the file is missing, cannot be read or does not match depends on the path.
- UTF-8: logs and strings are sequences of characters, so a multi-byte character split between two writes is not modelled.
- Coercion of variable defaults from TOML and of numbers to text: variables map names to strings.
- TemplateSafety.SafeTemplateIff: does not decide templates that do not nest and in which every run that begins the spelling of a later match leaves a rest that hides another placeholder. No single value can supply such a rest. Several values and the text between them may (`TwoValuesDisagree`); whether they can, with names that recur, is a matching problem of its own.
- Loss of power: the crash points are those of a crash of the process. That they are also all that a loss of power can leave assumes that the file system makes effects durable in order, because neither the directory after a rename nor the index is synced.
- Fields of `index.json` that the program does not parse, such as the platform of an entry: it drops them when it rewrites the index.
- LocalStorage.LocalStorage.Run: deletions are not among its operations, because they can break what the index refers to.
- BlobStore.LoadAfterStore: assumes that nothing else on disk or in the module has the hash of a part of the module; with such a collision the store keeps the older blob.
- FabricksModules.FabricksModule.WithRuntimeLayer: the builders update the object in place, where the program passes it on by value.
- Static files of a module, which the store does not write.
