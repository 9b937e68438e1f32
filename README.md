# BazelDepGraphFunction, modelled in Dafny

This project models the Bzlmod stage that turns a resolved module graph into
the `BazelDepGraphValue` that later stages use. The stage has four parts:

- **Graph source.** `compute` asks Skyframe for the root module file and the
  build language options. It returns "not ready" (`null`) while either is
  missing. When the lockfile is enabled, it reads the lockfile. If the
  lockfile was written for the current root module file hash, its graph is
  reused. Otherwise the graph comes from module resolution. A freshly
  resolved graph is written back to the lockfile when the lockfile is
  enabled.
- **Canonical repo name lookup.** Each module's canonical repository name
  is mapped to its module key with `toImmutableMap`. A name shared by two
  keys is rejected, not overwritten.
- **Extension usage table.** `getExtensionUsagesById` walks the modules and
  then each module's usages. It converts each usage's `.bzl` label with a
  converter built from the module's own repository and its bazel_dep-only
  repo mapping. It then puts the cell (extension id, module key) → usage into
  an `ImmutableTable.Builder`. A label that does not convert ends the stage
  with the usage's location. `buildOrThrow` rejects a second cell for the
  same (id, module) pair. Row keys keep the order of first appearance.
- **Unique extension names.** `calculateUniqueNameForUsedExtensionId` gives
  each row id, in row order, one of two names:
  - its best name, `<repo part>~<extension name>`, where the repo part is
    `_main` for the main repository;
  - or, if the best name is taken, the best name followed by the smallest
    number ≥ 2 that is still free.

  The published map is the inverse of the `HashBiMap`, so it maps id → name.

Files:

- `wrappers.dfy`: `Option`, `Result` and `Distinct`.
- `bzlmod_types.dfy`: keys, modules, usages, labels, extension ids, failure
  kinds, and the two foreign functions.
- `decimal.dfy`: `Integer.toString` for the probe suffix, with an inverse.
- `canonical_lookup.dfy`: the canonical repo name lookup.
- `table_builder.dfy`: Guava's table builder as a sequence of puts plus
  `buildOrThrow`.
- `extension_usages.dfy`: `getExtensionUsagesById`.
- `unique_names.dfy`: the name allocator. It has a specification
  (`AllocateNames`, `UniqueName`) and the imperative loop proved against it.
- `dep_graph_function.dfy`: `compute`.
  - A Skyframe `Environment` class logs the keys that are requested.
  - A `LockfileStore` class logs writes.
  - Pure functions (`SelectDepGraph`, `Requests`, `LockfileWrites`,
    `ComputeOf`) state what `compute` does for a given Skyframe state.

Three decisions shape the model:

- **Foreign code becomes parameters.** Two functions are parameters of the
  model:
  - `ModuleKey.getCanonicalRepoName` is `canonicalRepo: ModuleKey -> RepositoryName`.
  - `LabelConverter.convert` is `convert: (LabelConverter, string) -> Result<Label, string>`.
- **The graph is a sequence.** The graph (`ImmutableMap<ModuleKey, Module>`)
  is its values in map order. The key of each entry is taken to be the
  module's own `key` field.
- **Skyframe availability is an `Option`.** Each Skyframe value is `None`
  until it has been computed.

## Model

| member | source | states |
|---|---|---|
| DepGraphFunction.Compute | src/main/java/com/google/devtools/build/lib/bazel/bzlmod/BazelDepGraphFunction.java:52-106 | The result of compute is `ComputeOf` of the Skyframe state. The keys requested are exactly `Requests` of that state, in order. The lockfile gains exactly the writes `LockfileWrites`, and the write is made before the lookup and the table can fail |
| DepGraphFunction.Publish | src/main/java/com/google/devtools/build/lib/bazel/bzlmod/BazelDepGraphFunction.java:90-105 | For a settled graph the result is the lookup failure, else the table failure, else the value made of the graph, the lookup, the table and the id → name map of the allocation over the table's row keys |
| DepGraphFunction.Environment.GetRootModule | src/main/java/com/google/devtools/build/lib/bazel/bzlmod/BazelDepGraphFunction.java:55-56 | getValue(root module key) returns what Skyframe holds and records the request |
| DepGraphFunction.Environment.GetStarlarkSemantics | src/main/java/com/google/devtools/build/lib/bazel/bzlmod/BazelDepGraphFunction.java:60 | STARLARK_SEMANTICS.get returns what Skyframe holds and records the request |
| DepGraphFunction.Environment.GetLockFile | src/main/java/com/google/devtools/build/lib/bazel/bzlmod/BazelDepGraphFunction.java:69 | getValue(lockfile key) returns what Skyframe holds and records the request |
| DepGraphFunction.Environment.GetModuleResolution | src/main/java/com/google/devtools/build/lib/bazel/bzlmod/BazelDepGraphFunction.java:79-80 | getValue(resolution key) returns what Skyframe holds and records the request |
| DepGraphFunction.LockfileStore.UpdateLockedModule | src/main/java/com/google/devtools/build/lib/bazel/bzlmod/BazelDepGraphFunction.java:86 | updateLockedModule appends one (root hash, graph) write and changes nothing else |
| DepGraphFunction.MissingOnlyLast | src/main/java/com/google/devtools/build/lib/bazel/bzlmod/BazelDepGraphFunction.java:79-83 | If every earlier request was answered, valuesMissing() holds exactly when the resolution value is missing |
| DepGraphFunction.NotReadyIff | src/main/java/com/google/devtools/build/lib/bazel/bzlmod/BazelDepGraphFunction.java:55-83 | compute returns null exactly when some value it requested is missing. In that case nothing is written to the lockfile |
| DepGraphFunction.DepGraphValueIsReady | src/main/java/com/google/devtools/build/lib/bazel/bzlmod/BazelDepGraphFunction.java:90-105 | Once the graph is settled, the result is a value or a failure, never null |
| DepGraphFunction.CacheHit | src/main/java/com/google/devtools/build/lib/bazel/bzlmod/BazelDepGraphFunction.java:68-78 | Suppose the lockfile is enabled and its hash equals the root module hash. Then the graph is exactly the lockfile's graph, resolution is not requested, nothing is written, and the result is the value of that graph |
| DepGraphFunction.FreshResolution | src/main/java/com/google/devtools/build/lib/bazel/bzlmod/BazelDepGraphFunction.java:78-88 | Suppose the lockfile is disabled, or its hash differs. Then the graph is the resolver's graph. Exactly one write of (root hash, that graph) happens if the lockfile is enabled, and none if it is disabled. A disabled lockfile is never read |
| DepGraphFunction.WriteDiscipline | src/main/java/com/google/devtools/build/lib/bazel/bzlmod/BazelDepGraphFunction.java:78-88 | At most one write is made. There is a write exactly when the graph was freshly resolved with the lockfile enabled, and it is (root hash, resolved graph) |
| DepGraphFunction.PublishedValue | src/main/java/com/google/devtools/build/lib/bazel/bzlmod/BazelDepGraphFunction.java:90-105 | The published value holds the graph itself. Its lookup has one entry per module and maps each module's canonical name to that module. Its table is the usage table of the graph. Its name map has exactly the table's row ids as keys, no two ids share a name, and each name starts with its id's best name and not with '~' |
| CanonicalLookup.CanonicalRepoNameLookup | src/main/java/com/google/devtools/build/lib/bazel/bzlmod/BazelDepGraphFunction.java:90-92 | On success every key is found under its canonical name, and every entry is a key under its own canonical name. On failure the error is a duplicate canonical name |
| CanonicalLookup.LookupSucceedsIff | src/main/java/com/google/devtools/build/lib/bazel/bzlmod/BazelDepGraphFunction.java:90-92 | The lookup is built exactly when no two keys share a canonical repository name |
| CanonicalLookup.LookupRejectsShared | src/main/java/com/google/devtools/build/lib/bazel/bzlmod/BazelDepGraphFunction.java:90-92 | Two keys with the same canonical name make the lookup fail |
| CanonicalLookup.LookupAcceptsDistinct | src/main/java/com/google/devtools/build/lib/bazel/bzlmod/BazelDepGraphFunction.java:90-92 | Keys with pairwise distinct canonical names give a lookup |
| CanonicalLookup.LookupFailureNamesSharedRepo | src/main/java/com/google/devtools/build/lib/bazel/bzlmod/BazelDepGraphFunction.java:90-92 | A failed lookup reports a canonical name that two distinct positions of the key list share |
| CanonicalLookup.LookupSize | src/main/java/com/google/devtools/build/lib/bazel/bzlmod/BazelDepGraphFunction.java:90-92 | A built lookup has exactly one entry per module key |
| CanonicalLookup.LookupInjective | src/main/java/com/google/devtools/build/lib/bazel/bzlmod/BazelDepGraphFunction.java:90-92 | Distinct canonical names map to distinct module keys |
| ExtensionUsages.GetExtensionUsagesById | src/main/java/com/google/devtools/build/lib/bazel/bzlmod/BazelDepGraphFunction.java:112-139 | The nested loops with an early exit return `UsageTableOf` of the graph: the first label error, or else buildOrThrow of the cells of every usage in visiting order |
| ExtensionUsages.OccurrencesPrefix | src/main/java/com/google/devtools/build/lib/bazel/bzlmod/BazelDepGraphFunction.java:116-121 | The usages visited for the first i modules are a prefix of the usages visited for the whole graph |
| ExtensionUsages.OccurrenceAt | src/main/java/com/google/devtools/build/lib/bazel/bzlmod/BazelDepGraphFunction.java:116-121 | The j-th usage of module i is visited right after all usages of modules 0..i-1 and usages 0..j-1 of module i |
| ExtensionUsages.OccurrenceOrigin | src/main/java/com/google/devtools/build/lib/bazel/bzlmod/BazelDepGraphFunction.java:116-121 | Every visited usage is some usage j of some module i of the graph |
| ExtensionUsages.CellsOfPrefixFailure | src/main/java/com/google/devtools/build/lib/bazel/bzlmod/BazelDepGraphFunction.java:122-135 | Once a conversion in a prefix fails, the whole walk fails with that same error |
| ExtensionUsages.EarlyFailure | src/main/java/com/google/devtools/build/lib/bazel/bzlmod/BazelDepGraphFunction.java:127-134 | If usage j of module i is the first visited usage whose label does not convert, the stage fails with that usage's location and the conversion error |
| ExtensionUsages.CellsOfElementwise | src/main/java/com/google/devtools/build/lib/bazel/bzlmod/BazelDepGraphFunction.java:121-126 | Cells are produced exactly when every label converts. In that case there is one cell per usage, in visiting order, and each is the usage's own (id, module key, usage) cell |
| ExtensionUsages.CellsOfFirstFailure | src/main/java/com/google/devtools/build/lib/bazel/bzlmod/BazelDepGraphFunction.java:122-135 | A failed walk reports the error of the first usage whose label does not convert. Every usage before it converts |
| ExtensionUsages.UsageTableContents | src/main/java/com/google/devtools/build/lib/bazel/bzlmod/BazelDepGraphFunction.java:116-126 | In a built table, every usage of every module has a label that converts. The cell (ModuleExtensionId(converted label, extension name), module key) holds that usage |
| ExtensionUsages.UsageTableOnlyUsages | src/main/java/com/google/devtools/build/lib/bazel/bzlmod/BazelDepGraphFunction.java:116-138 | A built table holds no other cells: each cell key is the (id, module key) of some usage, and the cell holds that usage |
| ExtensionUsages.UsageTableLabelFailure | src/main/java/com/google/devtools/build/lib/bazel/bzlmod/BazelDepGraphFunction.java:121-135 | The stage fails with a label error exactly when some usage's label does not convert. It then fails with the location and cause of the first such usage in visiting order |
| ExtensionUsages.UsageTableDuplicate | src/main/java/com/google/devtools/build/lib/bazel/bzlmod/BazelDepGraphFunction.java:126-138 | When every label converts, the table is built exactly when no two usages give the same (id, module key) cell. Otherwise the error is a duplicate cell |
| ExtensionUsages.UsageTableRowKeys | src/main/java/com/google/devtools/build/lib/bazel/bzlmod/BazelDepGraphFunction.java:126-138 | The row keys are the ids of the cells, each once, in the order their first usage was visited |
| TableBuilder.BuildOrThrow | src/main/java/com/google/devtools/build/lib/bazel/bzlmod/BazelDepGraphFunction.java:138 | buildOrThrow fails only with a duplicate cell |
| TableBuilder.BuildHoldsEveryCell | src/main/java/com/google/devtools/build/lib/bazel/bzlmod/BazelDepGraphFunction.java:126-138 | A built table holds, under each (row, column) put, the value put there |
| TableBuilder.BuildHoldsOnlyPuts | src/main/java/com/google/devtools/build/lib/bazel/bzlmod/BazelDepGraphFunction.java:126-138 | A built table holds no (row, column) that was not put |
| TableBuilder.BuildSucceedsIff | src/main/java/com/google/devtools/build/lib/bazel/bzlmod/BazelDepGraphFunction.java:138 | buildOrThrow succeeds exactly when no (row, column) pair was put twice, so it rejects duplicates instead of overwriting |
| TableBuilder.BuildRowOrder | src/main/java/com/google/devtools/build/lib/bazel/bzlmod/BazelDepGraphFunction.java:138 | The row keys are distinct and are exactly the rows put. A row comes before another exactly when it was put first |
| TableBuilder.AddRowKeepsOrder | src/main/java/com/google/devtools/build/lib/bazel/bzlmod/BazelDepGraphFunction.java:126 | One more put keeps the row keys in first-appearance order |
| UniqueNames.RepoPart | src/main/java/com/google/devtools/build/lib/bazel/bzlmod/BazelDepGraphFunction.java:148-149 | The repo part is non-empty and does not begin with '~' |
| UniqueNames.BestName | src/main/java/com/google/devtools/build/lib/bazel/bzlmod/BazelDepGraphFunction.java:150 | The best name is exactly the repo part, then '~', then the extension name, and it never begins with '~' |
| UniqueNames.CandidateInjective | src/main/java/com/google/devtools/build/lib/bazel/bzlmod/BazelDepGraphFunction.java:155 | Distinct suffixes give distinct probes |
| UniqueNames.ProbeBound | src/main/java/com/google/devtools/build/lib/bazel/bzlmod/BazelDepGraphFunction.java:155-157 | If probes 2..k-1 are all taken, then k-2 ≤ the number of taken names. So the probe loop terminates |
| UniqueNames.FirstFree | src/main/java/com/google/devtools/build/lib/bazel/bzlmod/BazelDepGraphFunction.java:154-157 | The probe found is free, and every probe before it is taken |
| UniqueNames.UniqueName | src/main/java/com/google/devtools/build/lib/bazel/bzlmod/BazelDepGraphFunction.java:150-157 | The name is free. It is the best name when that is free. Otherwise it is best name + s for the least s ≥ 2 that is free. It always starts with the best name and never with '~' |
| UniqueNames.UniqueNameByProbing | src/main/java/com/google/devtools/build/lib/bazel/bzlmod/BazelDepGraphFunction.java:154-157 | A probe loop that stops at the first free suffix yields exactly UniqueName |
| UniqueNames.PutKeepsBijection | src/main/java/com/google/devtools/build/lib/bazel/bzlmod/BazelDepGraphFunction.java:151-157 | Putting a fresh name for a fresh id keeps the two maps mutually inverse and adds one entry to each |
| UniqueNames.AllocatedNamesWellFormed | src/main/java/com/google/devtools/build/lib/bazel/bzlmod/BazelDepGraphFunction.java:146-150 | Every allocated name begins with its id's best name, so never with '~' |
| UniqueNames.AllocateNamesBijection | src/main/java/com/google/devtools/build/lib/bazel/bzlmod/BazelDepGraphFunction.java:144-159 | For distinct row ids, each id gets exactly one name, and no other entries exist. The name → id and id → name maps are mutually inverse (the round trip), so no two ids share a name |
| UniqueNames.AllocateNamesPrefix | src/main/java/com/google/devtools/build/lib/bazel/bzlmod/BazelDepGraphFunction.java:145-158 | A later row never changes a name given earlier |
| UniqueNames.NamingRule | src/main/java/com/google/devtools/build/lib/bazel/bzlmod/BazelDepGraphFunction.java:145-158 | Row i's name is UniqueName of its id against the names held after rows 0..i-1 |
| UniqueNames.TakenBefore | src/main/java/com/google/devtools/build/lib/bazel/bzlmod/BazelDepGraphFunction.java:145-158 | The names held before row i are exactly the final names of rows 0..i-1 |
| UniqueNames.CalculateUniqueNameForUsedExtensionId | src/main/java/com/google/devtools/build/lib/bazel/bzlmod/BazelDepGraphFunction.java:141-160 | The putIfAbsent loop and its probe loop produce exactly `AllocateNames` of the row keys. That result is a mutually inverse name/id pair covering exactly the row keys |
| UniqueNames.CollisionExample | src/main/java/com/google/devtools/build/lib/bazel/bzlmod/BazelDepGraphFunction.java:146-157 | The root extension `foo` is named `_main~foo`. Two `ext` extensions of repository `shared` are named `shared~ext` and `shared~ext2`, and the first one visited takes the best name |
| Decimal.NatToString | src/main/java/com/google/devtools/build/lib/bazel/bzlmod/BazelDepGraphFunction.java:155 | The rendering of the suffix is a non-empty string of decimal digits, one digit exactly below ten, with no leading zero (it begins with '0' exactly for 0) |
| Decimal.ParseNatToString | src/main/java/com/google/devtools/build/lib/bazel/bzlmod/BazelDepGraphFunction.java:155 | Reading the rendered suffix back gives the suffix, so the rendering is invertible |
| Decimal.NatToStringInjective | src/main/java/com/google/devtools/build/lib/bazel/bzlmod/BazelDepGraphFunction.java:155 | Distinct suffixes render to distinct strings |

## Left out

- Skyframe itself (`SkyFunction`, `SkyKey`, restarts). It is reduced to a set of `Option` values and a request log. `Compute` assumes a fresh evaluation, with no keys requested yet.
- The lockfile's persistence and `BazelLockFileFunction` itself. The write is a logged event on `LockfileStore`.
- Module resolution, `ModuleFileValue` and the lockfile parser. They only supply the values that compute reads.
- `ModuleKey.getCanonicalRepoName`, `LabelConverter.convert`, `PackageIdentifier` and label parsing. They are the parameters `canonicalRepo` and `convert`. Line 119 uses `module.getCanonicalRepoName()`, which the model takes to be the canonical name of the module's key.
- `RepositoryName` validation. Named repositories are assumed never to be empty and never to begin with '~', as validated before this stage.
- `AbridgedModule::from` and `BazelDepGraphValue.create` (lines 100-103), which live in other files. The published value leaves out the abridged module list.
- Error message texts, `FailureDetails` codes, the persistent/transient flag and `InterruptedException`. A label failure keeps only the usage location and the cause.
- The unchecked exceptions of `toImmutableMap` and `buildOrThrow`. They are modelled as the failures `DuplicateCanonicalRepoName` and `DuplicateTableCell`.
- The graph's map keys are not kept apart from its values. The model reads `depGraph.keySet()` (line 91) as each module's own `getKey()`, the same key the table column uses (line 126). The resolver builds the graph this way, but the model does not check it.
- The insertion order of the two published `ImmutableMap`s (the lookup at line 92 and the name map at line 105). Dafny maps have no order. Nothing in this stage reads that order.
- The keys of the graph are not required to be distinct, though `ImmutableMap` guarantees it. With a repeated key the canonical lookup fails.
- The `HashBiMap` value check that `putIfAbsent` performs. It cannot fire, because each row id is visited once. The map is modelled as two paired maps.
- UniqueNames.CalculateUniqueNameForUsedExtensionId: does not model the 32-bit `int` wrap-around of the probe suffix. It would need more than two billion names with the same best name.
- The published name map goes from extension id to name. This follows line 105 (`inverse()` of the name → id BiMap). An id → name map and a name → id map are equivalent given `AllocateNamesBijection`.
- A second usage with the same (extension id, module key) is rejected by `buildOrThrow` at line 138. It is not silently overwritten.
