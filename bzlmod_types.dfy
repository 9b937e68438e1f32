/**
 * The values the dependency-graph stage works on: module keys, modules,
 * extension usages, labels and extension ids, and the ways the stage fails.
 */
module BzlmodTypes {
  import opened Wrappers

  /**
   * The name of a repository other than the main one. Bazel validates
   * repository names before this stage: they are never empty (the empty name
   * is the main repository) and never begin with the separator '~'.
   */
  type RepoName = s: string | |s| > 0 && s[0] != '~' witness "r"

  /** RepositoryName: the main repository, or a named one. */
  datatype RepositoryName = Main | Named(name: RepoName)
  {
    predicate IsMain() { Main? }
  }

  /** ModuleKey: the root module, or a (name, version) pair. */
  datatype ModuleKey = Root | Key(name: string, version: string)

  /** Apparent repository name -> canonical repository name. */
  type RepositoryMapping = map<string, RepositoryName>

  /** Where a usage was declared in a MODULE.bazel file. */
  datatype Location = Location(file: string, line: int, column: int)

  /** A canonical label; only its repository matters to this stage. */
  datatype Label = Label(repository: RepositoryName, pkg: string, target: string)

  /** One `use_extension` declaration: the .bzl file as written, the extension's name, and where. */
  datatype ModuleExtensionUsage =
    ModuleExtensionUsage(extensionBzlFile: string, extensionName: string, location: Location)

  /** A resolved module: its key, its repo mapping restricted to bazel_dep repos, its usages in source order. */
  datatype Module = Module(
    key: ModuleKey,
    repoMappingWithBazelDepsOnly: RepositoryMapping,
    extensionUsages: seq<ModuleExtensionUsage>)

  /** The dependency graph, an ImmutableMap<ModuleKey, Module>, as its entries in map order. */
  type DepGraph = seq<Module>

  /** ModuleExtensionId: the canonical label of the .bzl file plus the extension's name. */
  datatype ModuleExtensionId = ModuleExtensionId(bzlFileLabel: Label, extensionName: string)

  /** The label converter a module's usages are resolved through. */
  datatype LabelConverter = LabelConverter(baseRepository: RepositoryName, repoMapping: RepositoryMapping)

  /** ModuleKey.getCanonicalRepoName, which lives outside this stage. */
  type CanonicalRepoNameFn = ModuleKey -> RepositoryName

  /** LabelConverter.convert: a canonical label, or the message of a label syntax error. */
  type ConvertFn = (LabelConverter, string) -> Result<Label, string>

  /** The ways the stage fails once every input is available. */
  datatype Failure =
      /** A usage's .bzl label did not convert: a persistent BAD_MODULE error. */
    | InvalidExtensionLabel(location: Location, cause: string)
      /** ImmutableTable.Builder.buildOrThrow met a second cell for (row, column). */
    | DuplicateTableCell(row: ModuleExtensionId, column: ModuleKey)
      /** toImmutableMap met a second key with this canonical repository name. */
    | DuplicateCanonicalRepoName(repo: RepositoryName)

  /** The keys of the dependency graph, in map order. */
  function Keys(g: DepGraph): seq<ModuleKey>
  {
    seq(|g|, i requires 0 <= i < |g| => g[i].key)
  }
}
