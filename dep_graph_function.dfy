/**
 * BazelDepGraphFunction.compute: choose where the dependency graph comes from
 * (the lockfile when the root module file is unchanged, module resolution
 * otherwise), exit with "not ready" when an input is still being computed,
 * write a freshly resolved graph back to the lockfile, and publish the graph
 * with its canonical repo name lookup, its extension usage table and the
 * unique name of every used extension.
 */
module DepGraphFunction {
  import opened Wrappers
  import opened BzlmodTypes
  import opened TableBuilder
  import opened CanonicalLookup
  import opened ExtensionUsages
  import opened UniqueNames

  /** The evaluated root MODULE.bazel file; only its content hash matters here. */
  datatype RootModuleFileValue = RootModuleFileValue(moduleHash: string)

  /** The build language options; only --experimental_enable_bzlmod_lockfile matters here. */
  datatype StarlarkSemantics = StarlarkSemantics(enableLockfile: bool)

  /** The lockfile contents: the root module file hash it was written for, and the graph it holds. */
  datatype BazelLockFileValue = BazelLockFileValue(moduleFileHash: string, moduleDepGraph: DepGraph)

  /** The outcome of module resolution. */
  datatype BazelModuleResolutionValue = BazelModuleResolutionValue(resolvedDepGraph: DepGraph)

  /** The Skyframe values this function asks for. */
  datatype SkyKey = RootModuleKey | StarlarkSemanticsKey | LockFileKey | ModuleResolutionKey

  /** What Skyframe holds for each key in this evaluation; None means not computed yet. */
  datatype SkyframeInputs = SkyframeInputs(
    root: Option<RootModuleFileValue>,
    semantics: Option<StarlarkSemantics>,
    lockFile: Option<BazelLockFileValue>,
    resolution: Option<BazelModuleResolutionValue>)

  /** The published BazelDepGraphValue; the abridged module list is not modelled. */
  datatype BazelDepGraphValue = BazelDepGraphValue(
    depGraph: DepGraph,
    canonicalRepoNameLookup: map<RepositoryName, ModuleKey>,
    extensionUsagesTable: UsageTable,
    extensionUniqueNames: map<ModuleExtensionId, string>)

  /** What compute returns: null (not ready), a thrown failure, or the value. */
  datatype ComputeResult = NotReady | Failed(failure: Failure) | Done(value: BazelDepGraphValue)

  /** One call of BazelLockFileFunction.updateLockedModule. */
  datatype LockfileWrite = LockfileWrite(moduleHash: string, depGraph: DepGraph)

  /** Where the dependency graph comes from. */
  datatype GraphSource = Pending | FromLockfile(graph: DepGraph) | FromResolution(graph: DepGraph)

  predicate Available(inputs: SkyframeInputs, key: SkyKey)
  {
    match key
    case RootModuleKey => inputs.root.Some?
    case StarlarkSemanticsKey => inputs.semantics.Some?
    case LockFileKey => inputs.lockFile.Some?
    case ModuleResolutionKey => inputs.resolution.Some?
  }

  /** env.valuesMissing(): some value asked for in this evaluation is not computed yet. */
  predicate Missing(inputs: SkyframeInputs, requested: seq<SkyKey>)
  {
    exists i :: 0 <= i < |requested| && !Available(inputs, requested[i])
  }

  /** The Skyframe environment: the values it can supply, and the keys asked for so far. */
  class Environment {
    const inputs: SkyframeInputs
    var requested: seq<SkyKey>

    constructor(inputs: SkyframeInputs)
      ensures this.inputs == inputs && requested == []
    {
      this.inputs := inputs;
      requested := [];
    }

    method GetRootModule() returns (v: Option<RootModuleFileValue>)
      modifies this
      ensures v == inputs.root && requested == old(requested) + [RootModuleKey]
    {
      requested := requested + [RootModuleKey];
      v := inputs.root;
    }

    method GetStarlarkSemantics() returns (v: Option<StarlarkSemantics>)
      modifies this
      ensures v == inputs.semantics && requested == old(requested) + [StarlarkSemanticsKey]
    {
      requested := requested + [StarlarkSemanticsKey];
      v := inputs.semantics;
    }

    method GetLockFile() returns (v: Option<BazelLockFileValue>)
      modifies this
      ensures v == inputs.lockFile && requested == old(requested) + [LockFileKey]
    {
      requested := requested + [LockFileKey];
      v := inputs.lockFile;
    }

    method GetModuleResolution() returns (v: Option<BazelModuleResolutionValue>)
      modifies this
      ensures v == inputs.resolution && requested == old(requested) + [ModuleResolutionKey]
    {
      requested := requested + [ModuleResolutionKey];
      v := inputs.resolution;
    }

    predicate ValuesMissing()
      reads this
    {
      Missing(inputs, requested)
    }
  }

  /** The lockfile as updateLockedModule sees it: the writes made to it, in order. */
  class LockfileStore {
    var writes: seq<LockfileWrite>

    constructor()
      ensures writes == []
    {
      writes := [];
    }

    method UpdateLockedModule(moduleHash: string, depGraph: DepGraph)
      modifies this
      ensures writes == old(writes) + [LockfileWrite(moduleHash, depGraph)]
    {
      writes := writes + [LockfileWrite(moduleHash, depGraph)];
    }
  }

  /** The graph compute settles on, from the lockfile or from resolution, if every value it needs is there. */
  function SelectDepGraph(inputs: SkyframeInputs): GraphSource
  {
    if inputs.root.None? || inputs.semantics.None? then Pending
    else if inputs.semantics.value.enableLockfile && inputs.lockFile.None? then Pending
    else if inputs.semantics.value.enableLockfile && inputs.lockFile.value.moduleFileHash == inputs.root.value.moduleHash
    then FromLockfile(inputs.lockFile.value.moduleDepGraph)
    else if inputs.resolution.None? then Pending
    else FromResolution(inputs.resolution.value.resolvedDepGraph)
  }

  /** The keys compute asks Skyframe for, in order. */
  function Requests(inputs: SkyframeInputs): seq<SkyKey>
  {
    if inputs.root.None? then [RootModuleKey]
    else if inputs.semantics.None? then [RootModuleKey, StarlarkSemanticsKey]
    else if !inputs.semantics.value.enableLockfile then [RootModuleKey, StarlarkSemanticsKey, ModuleResolutionKey]
    else if inputs.lockFile.None? || inputs.lockFile.value.moduleFileHash == inputs.root.value.moduleHash
    then [RootModuleKey, StarlarkSemanticsKey, LockFileKey]
    else [RootModuleKey, StarlarkSemanticsKey, LockFileKey, ModuleResolutionKey]
  }

  /** The lockfile writes compute makes. */
  function LockfileWrites(inputs: SkyframeInputs): seq<LockfileWrite>
  {
    match SelectDepGraph(inputs)
    case FromResolution(g) =>
      if inputs.semantics.Some? && inputs.semantics.value.enableLockfile && inputs.root.Some?
      then [LockfileWrite(inputs.root.value.moduleHash, g)]
      else []
    case _ => []
  }

  /** The value compute publishes for a settled graph, or the first failure it throws. */
  function DepGraphValueOf(g: DepGraph, canonicalRepo: CanonicalRepoNameFn, convert: ConvertFn): ComputeResult
  {
    match CanonicalRepoNameLookup(Keys(g), canonicalRepo)
    case Failure(e) => Failed(e)
    case Success(lookup) =>
      match UsageTableOf(g, canonicalRepo, convert)
      case Failure(e) => Failed(e)
      case Success(t) => Done(BazelDepGraphValue(g, lookup, t, AllocateNames(t.rowKeys).byId))
  }

  /** What compute returns for the given Skyframe state. */
  function ComputeOf(inputs: SkyframeInputs, canonicalRepo: CanonicalRepoNameFn, convert: ConvertFn): ComputeResult
  {
    match SelectDepGraph(inputs)
    case Pending => NotReady
    case FromLockfile(g) => DepGraphValueOf(g, canonicalRepo, convert)
    case FromResolution(g) => DepGraphValueOf(g, canonicalRepo, convert)
  }

  /**
   * BazelDepGraphFunction.compute. The graph is settled step by step through early
   * returns; the lockfile write comes before the lookup and the table, so it
   * is made even when either of those then fails.
   */
  method Compute(env: Environment, store: LockfileStore, canonicalRepo: CanonicalRepoNameFn, convert: ConvertFn)
    returns (result: ComputeResult)
    requires env.requested == []
    modifies env, store
    ensures result == ComputeOf(env.inputs, canonicalRepo, convert)
    ensures env.requested == Requests(env.inputs)
    ensures store.writes == old(store.writes) + LockfileWrites(env.inputs)
  {
    var root := env.GetRootModule();
    if root.None? {
      return NotReady;
    }
    var starlarkSemantics := env.GetStarlarkSemantics();
    if starlarkSemantics.None? {
      return NotReady;
    }

    var depGraph: Option<DepGraph> := None;
    if starlarkSemantics.value.enableLockfile {
      var lockFile := env.GetLockFile();
      if lockFile.None? {
        return NotReady;
      }
      if lockFile.value.moduleFileHash == root.value.moduleHash {
        depGraph := Some(lockFile.value.moduleDepGraph);
      }
    }

    if depGraph.None? {
      var selectionResult := env.GetModuleResolution();
      MissingOnlyLast(env.inputs, env.requested);
      if env.ValuesMissing() {
        return NotReady;
      }
      depGraph := Some(selectionResult.value.resolvedDepGraph);
      if starlarkSemantics.value.enableLockfile {
        store.UpdateLockedModule(root.value.moduleHash, depGraph.value);
      }
    }

    result := Publish(depGraph.value, canonicalRepo, convert);
  }

  /** The last part of compute: the lookup, the usage table and the names for the settled graph. */
  method Publish(graph: DepGraph, canonicalRepo: CanonicalRepoNameFn, convert: ConvertFn) returns (result: ComputeResult)
    ensures result == DepGraphValueOf(graph, canonicalRepo, convert)
  {
    var canonicalRepoNameLookup := CanonicalRepoNameLookup(Keys(graph), canonicalRepo);
    if canonicalRepoNameLookup.Failure? {
      return Failed(canonicalRepoNameLookup.error);
    }
    var extensionUsagesById := GetExtensionUsagesById(graph, canonicalRepo, convert);
    if extensionUsagesById.Failure? {
      return Failed(extensionUsagesById.error);
    }
    UsageTableRowKeys(graph, canonicalRepo, convert);
    var extensionUniqueNames := CalculateUniqueNameForUsedExtensionId(extensionUsagesById.value.rowKeys);
    return Done(BazelDepGraphValue(graph, canonicalRepoNameLookup.value, extensionUsagesById.value, extensionUniqueNames.byId));
  }

  /** When every key but the last was available, a value is missing exactly when the last one is. */
  lemma MissingOnlyLast(inputs: SkyframeInputs, requested: seq<SkyKey>)
    requires |requested| > 0
    requires forall i :: 0 <= i < |requested| - 1 ==> Available(inputs, requested[i])
    ensures Missing(inputs, requested) <==> !Available(inputs, requested[|requested| - 1])
  {
  }

  /**
   * Not ready: compute returns null exactly when a value it asked for is
   * missing, and then it has written nothing to the lockfile.
   */
  lemma NotReadyIff(inputs: SkyframeInputs, canonicalRepo: CanonicalRepoNameFn, convert: ConvertFn)
    ensures ComputeOf(inputs, canonicalRepo, convert).NotReady? <==> Missing(inputs, Requests(inputs))
    ensures ComputeOf(inputs, canonicalRepo, convert).NotReady? ==> LockfileWrites(inputs) == []
  {
    var rs := Requests(inputs);
    if SelectDepGraph(inputs).Pending? {
      var last := |rs| - 1;
      assert !Available(inputs, rs[last]);
    } else {
      forall i | 0 <= i < |rs|
        ensures Available(inputs, rs[i])
      {
      }
      DepGraphValueIsReady(SelectDepGraph(inputs).graph, canonicalRepo, convert);
    }
  }

  /** Once the graph is settled, compute never answers "not ready". */
  lemma DepGraphValueIsReady(g: DepGraph, canonicalRepo: CanonicalRepoNameFn, convert: ConvertFn)
    ensures !DepGraphValueOf(g, canonicalRepo, convert).NotReady?
  {
  }

  /**
   * Cache hit: with the lockfile enabled and its hash equal to the root
   * module's, the graph is the lockfile's, resolution is never asked for, and
   * nothing is written.
   */
  lemma CacheHit(inputs: SkyframeInputs, canonicalRepo: CanonicalRepoNameFn, convert: ConvertFn)
    requires inputs.root.Some? && inputs.semantics.Some? && inputs.lockFile.Some?
    requires inputs.semantics.value.enableLockfile
    requires inputs.lockFile.value.moduleFileHash == inputs.root.value.moduleHash
    ensures SelectDepGraph(inputs) == FromLockfile(inputs.lockFile.value.moduleDepGraph)
    ensures ModuleResolutionKey !in Requests(inputs)
    ensures LockfileWrites(inputs) == []
    ensures ComputeOf(inputs, canonicalRepo, convert) ==
      DepGraphValueOf(inputs.lockFile.value.moduleDepGraph, canonicalRepo, convert)
  {
  }

  /**
   * Fresh resolution: with the lockfile disabled, or its hash different from
   * the root module's, the graph is the resolver's; it is written back once,
   * keyed by the root hash, exactly when the lockfile is enabled, and the
   * lockfile is not read when it is disabled.
   */
  lemma FreshResolution(inputs: SkyframeInputs, canonicalRepo: CanonicalRepoNameFn, convert: ConvertFn)
    requires inputs.root.Some? && inputs.semantics.Some? && inputs.resolution.Some?
    requires inputs.semantics.value.enableLockfile ==>
      inputs.lockFile.Some? && inputs.lockFile.value.moduleFileHash != inputs.root.value.moduleHash
    ensures SelectDepGraph(inputs) == FromResolution(inputs.resolution.value.resolvedDepGraph)
    ensures LockfileWrites(inputs) ==
      if inputs.semantics.value.enableLockfile
      then [LockfileWrite(inputs.root.value.moduleHash, inputs.resolution.value.resolvedDepGraph)]
      else []
    ensures !inputs.semantics.value.enableLockfile ==> LockFileKey !in Requests(inputs)
    ensures ComputeOf(inputs, canonicalRepo, convert) ==
      DepGraphValueOf(inputs.resolution.value.resolvedDepGraph, canonicalRepo, convert)
  {
  }

  /**
   * The write discipline: at most one write, and one exactly on the
   * fresh-resolution path with the lockfile enabled, whether or not the rest
   * of the stage then fails.
   */
  lemma WriteDiscipline(inputs: SkyframeInputs)
    ensures |LockfileWrites(inputs)| <= 1
    ensures |LockfileWrites(inputs)| == 1 <==>
      SelectDepGraph(inputs).FromResolution? && inputs.semantics.Some? && inputs.semantics.value.enableLockfile
    ensures |LockfileWrites(inputs)| == 1 ==>
      inputs.root.Some? && LockfileWrites(inputs)[0] == LockfileWrite(inputs.root.value.moduleHash, SelectDepGraph(inputs).graph)
  {
  }

  /**
   * The published value: the graph itself; a lookup with one entry per module
   * key under its canonical name; the usage table of the graph; and a name for
   * exactly the table's row ids, no two ids sharing a name, none starting with
   * '~', each beginning with its id's best name.
   */
  lemma PublishedValue(g: DepGraph, canonicalRepo: CanonicalRepoNameFn, convert: ConvertFn)
    requires DepGraphValueOf(g, canonicalRepo, convert).Done?
    ensures var v := DepGraphValueOf(g, canonicalRepo, convert).value;
      && v.depGraph == g
      && |v.canonicalRepoNameLookup| == |g|
      && (forall i :: 0 <= i < |g| ==>
            canonicalRepo(g[i].key) in v.canonicalRepoNameLookup &&
            v.canonicalRepoNameLookup[canonicalRepo(g[i].key)] == g[i].key)
      && UsageTableOf(g, canonicalRepo, convert) == Success(v.extensionUsagesTable)
      && (forall id :: id in v.extensionUniqueNames <==> id in v.extensionUsagesTable.rowKeys)
      && |v.extensionUniqueNames| == |v.extensionUsagesTable.rowKeys|
      && (forall a, b :: a in v.extensionUniqueNames && b in v.extensionUniqueNames && a != b ==>
            v.extensionUniqueNames[a] != v.extensionUniqueNames[b])
      && (forall id :: id in v.extensionUniqueNames ==>
            var name := v.extensionUniqueNames[id];
            |name| >= |BestName(id)| && name[..|BestName(id)|] == BestName(id) && name[0] != '~')
  {
    var v := DepGraphValueOf(g, canonicalRepo, convert).value;
    var keys := Keys(g);
    LookupSize(keys, canonicalRepo);
    assert forall i :: 0 <= i < |g| ==> keys[i] == g[i].key;
    UsageTableRowKeys(g, canonicalRepo, convert);
    var rows := v.extensionUsagesTable.rowKeys;
    AllocateNamesBijection(rows);
    AllocatedNamesWellFormed(rows);
    var names := AllocateNames(rows);
    forall a, b | a in names.byId && b in names.byId && a != b
      ensures names.byId[a] != names.byId[b]
    {
      assert names.byName[names.byId[a]] == a;
      assert names.byName[names.byId[b]] == b;
    }
  }
}
