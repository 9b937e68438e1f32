/**
 * getExtensionUsagesById: every extension usage of every module, in graph
 * order and then in the module's own order, is resolved to the id of the
 * extension it uses (its .bzl file label converted against the module's own
 * repository and bazel_dep mapping, plus the extension's name) and put into a
 * table under (that id, the module's key). A label that does not convert stops
 * the stage with the usage's location; a (id, module) pair put twice makes
 * buildOrThrow reject the table.
 */
module ExtensionUsages {
  import opened Wrappers
  import opened BzlmodTypes
  import opened TableBuilder

  /** One usage together with the module that declares it. */
  datatype Occurrence = Occurrence(owner: Module, usage: ModuleExtensionUsage)

  /** The usages of one module, in the order it declares them. */
  function UsagesOf(m: Module): seq<Occurrence>
  {
    seq(|m.extensionUsages|, j requires 0 <= j < |m.extensionUsages| => Occurrence(m, m.extensionUsages[j]))
  }

  /** All usages of the graph in the order the nested loops visit them. */
  function Occurrences(g: DepGraph): seq<Occurrence>
    decreases |g|
  {
    if g == [] then [] else Occurrences(g[..|g| - 1]) + UsagesOf(g[|g| - 1])
  }

  /** The converter for a module's usages: its canonical repository as base, its bazel_dep repo mapping. */
  function ConverterFor(m: Module, canonicalRepo: CanonicalRepoNameFn): LabelConverter
  {
    LabelConverter(canonicalRepo(m.key), m.repoMappingWithBazelDepsOnly)
  }

  /** The cell one usage puts, or the error its label conversion raises. */
  function CellFor(o: Occurrence, canonicalRepo: CanonicalRepoNameFn, convert: ConvertFn): Result<Cell, Failure>
  {
    match convert(ConverterFor(o.owner, canonicalRepo), o.usage.extensionBzlFile)
    case Failure(cause) => Failure(InvalidExtensionLabel(o.usage.location, cause))
    case Success(bzlLabel) => Success(Cell(ModuleExtensionId(bzlLabel, o.usage.extensionName), o.owner.key, o.usage))
  }

  /** The cells put for `os`, stopping at the first usage whose label does not convert. */
  function CellsOf(os: seq<Occurrence>, canonicalRepo: CanonicalRepoNameFn, convert: ConvertFn)
    : Result<seq<Cell>, Failure>
    decreases |os|
  {
    if os == [] then Success([])
    else
      match CellsOf(os[..|os| - 1], canonicalRepo, convert)
      case Failure(e) => Failure(e)
      case Success(cs) =>
        match CellFor(os[|os| - 1], canonicalRepo, convert)
        case Failure(e) => Failure(e)
        case Success(c) => Success(cs + [c])
  }

  /** The table getExtensionUsagesById returns for `g`, or the error it throws. */
  function UsageTableOf(g: DepGraph, canonicalRepo: CanonicalRepoNameFn, convert: ConvertFn)
    : Result<UsageTable, Failure>
  {
    match CellsOf(Occurrences(g), canonicalRepo, convert)
    case Failure(e) => Failure(e)
    case Success(cs) => BuildOrThrow(cs)
  }

  /**
   * getExtensionUsagesById: one builder, an outer loop over
   * the modules and an inner loop over each module's usages; a conversion
   * failure ends the stage at once.
   */
  method GetExtensionUsagesById(depGraph: DepGraph, canonicalRepo: CanonicalRepoNameFn, convert: ConvertFn)
    returns (r: Result<UsageTable, Failure>)
    ensures r == UsageTableOf(depGraph, canonicalRepo, convert)
  {
    var builder: seq<Cell> := [];
    for i := 0 to |depGraph|
      invariant CellsOf(Occurrences(depGraph[..i]), canonicalRepo, convert) == Success(builder)
    {
      var m := depGraph[i];
      ghost var visited := Occurrences(depGraph[..i]);
      assert visited + UsagesOf(m)[..0] == visited;
      var labelConverter := LabelConverter(canonicalRepo(m.key), m.repoMappingWithBazelDepsOnly);
      for j := 0 to |m.extensionUsages|
        invariant CellsOf(visited + UsagesOf(m)[..j], canonicalRepo, convert) == Success(builder)
      {
        var usage := m.extensionUsages[j];
        match convert(labelConverter, usage.extensionBzlFile) {
          case Failure(cause) =>
            r := Failure(InvalidExtensionLabel(usage.location, cause));
            EarlyFailure(depGraph, i, j, canonicalRepo, convert);
            return;
          case Success(bzlLabel) =>
            var cell := Cell(ModuleExtensionId(bzlLabel, usage.extensionName), m.key, usage);
            CellsOfStep(visited, UsagesOf(m), j, builder, cell, canonicalRepo, convert);
            builder := builder + [cell];
        }
      }
      assert UsagesOf(m)[..|m.extensionUsages|] == UsagesOf(m);
      OccurrencesStep(depGraph, i);
    }
    assert depGraph[..|depGraph|] == depGraph;
    r := BuildOrThrow(builder);
  }

  lemma CellsOfStep(xs: seq<Occurrence>, ys: seq<Occurrence>, j: nat, cs: seq<Cell>, c: Cell,
                    canonicalRepo: CanonicalRepoNameFn, convert: ConvertFn)
    requires j < |ys|
    requires CellsOf(xs + ys[..j], canonicalRepo, convert) == Success(cs)
    requires CellFor(ys[j], canonicalRepo, convert) == Success(c)
    ensures CellsOf(xs + ys[..j + 1], canonicalRepo, convert) == Success(cs + [c])
  {
    PrefixStep(xs, ys, j);
  }

  lemma PrefixStep(xs: seq<Occurrence>, ys: seq<Occurrence>, j: nat)
    requires j < |ys|
    ensures (xs + ys[..j + 1])[..|xs + ys[..j + 1]| - 1] == xs + ys[..j]
    ensures (xs + ys[..j + 1])[|xs + ys[..j + 1]| - 1] == ys[j]
  {
    assert xs + ys[..j + 1] == (xs + ys[..j]) + [ys[j]];
  }

  lemma OccurrencesStep(g: DepGraph, i: nat)
    requires i < |g|
    ensures Occurrences(g[..i + 1]) == Occurrences(g[..i]) + UsagesOf(g[i])
  {
    assert g[..i + 1][..i] == g[..i];
  }

  /** Occurrences of a prefix of the graph are a prefix of its occurrences. */
  lemma {:induction false} OccurrencesPrefix(g: DepGraph, i: nat)
    requires i <= |g|
    ensures |Occurrences(g[..i])| <= |Occurrences(g)|
    ensures Occurrences(g)[..|Occurrences(g[..i])|] == Occurrences(g[..i])
    decreases |g| - i
  {
    if i == |g| {
      assert g[..i] == g;
    } else {
      OccurrencesPrefix(g, i + 1);
      OccurrencesStep(g, i);
      var a := Occurrences(g[..i]);
      var b := Occurrences(g[..i + 1]);
      assert b[..|a|] == a;
    }
  }

  /** Once a prefix fails, the whole sequence fails with the same error. */
  lemma {:induction false} CellsOfPrefixFailure(os: seq<Occurrence>, n: nat, canonicalRepo: CanonicalRepoNameFn, convert: ConvertFn)
    requires n <= |os| && CellsOf(os[..n], canonicalRepo, convert).Failure?
    ensures CellsOf(os, canonicalRepo, convert) == CellsOf(os[..n], canonicalRepo, convert)
    decreases |os| - n
  {
    if n < |os| {
      assert os[..n + 1][..n] == os[..n];
      CellsOfPrefixFailure(os, n + 1, canonicalRepo, convert);
    } else {
      assert os[..n] == os;
    }
  }

  lemma EarlyFailure(g: DepGraph, i: nat, j: nat, canonicalRepo: CanonicalRepoNameFn, convert: ConvertFn)
    requires i < |g| && j < |g[i].extensionUsages|
    requires CellsOf(Occurrences(g[..i]) + UsagesOf(g[i])[..j], canonicalRepo, convert).Success?
    requires convert(ConverterFor(g[i], canonicalRepo), g[i].extensionUsages[j].extensionBzlFile).Failure?
    ensures UsageTableOf(g, canonicalRepo, convert) ==
      Failure(InvalidExtensionLabel(
        g[i].extensionUsages[j].location,
        convert(ConverterFor(g[i], canonicalRepo), g[i].extensionUsages[j].extensionBzlFile).error))
  {
    var a := Occurrences(g[..i]);
    var u := UsagesOf(g[i]);
    var p := a + u[..j + 1];
    PrefixStep(a, u, j);
    assert CellsOf(p, canonicalRepo, convert).Failure?;
    OccurrencesStep(g, i);
    OccurrencesPrefix(g, i + 1);
    var all := Occurrences(g);
    var b := Occurrences(g[..i + 1]);
    assert all[..|p|] == b[..|p|] == p;
    CellsOfPrefixFailure(all, |p|, canonicalRepo, convert);
  }

  /** The cells are put one per usage, in order, exactly when every label converts. */
  lemma {:induction false} CellsOfElementwise(os: seq<Occurrence>, canonicalRepo: CanonicalRepoNameFn, convert: ConvertFn)
    ensures CellsOf(os, canonicalRepo, convert).Success? <==>
      forall k :: 0 <= k < |os| ==> CellFor(os[k], canonicalRepo, convert).Success?
    ensures CellsOf(os, canonicalRepo, convert).Success? ==>
      && |CellsOf(os, canonicalRepo, convert).value| == |os|
      && forall k :: 0 <= k < |os| ==>
           CellFor(os[k], canonicalRepo, convert) == Success(CellsOf(os, canonicalRepo, convert).value[k])
    decreases |os|
  {
    if os != [] {
      var init := os[..|os| - 1];
      CellsOfElementwise(init, canonicalRepo, convert);
      var r := CellsOf(init, canonicalRepo, convert);
      if r.Failure? {
        var k :| 0 <= k < |init| && CellFor(init[k], canonicalRepo, convert).Failure?;
        assert os[k] == init[k];
      } else if CellFor(os[|os| - 1], canonicalRepo, convert).Success? {
        forall k | 0 <= k < |os| - 1
          ensures CellFor(os[k], canonicalRepo, convert) == Success(r.value[k])
        {
          assert os[k] == init[k];
        }
      }
    }
  }

  /** A failure is the error of the first usage whose label does not convert. */
  lemma {:induction false} CellsOfFirstFailure(os: seq<Occurrence>, canonicalRepo: CanonicalRepoNameFn, convert: ConvertFn)
    requires CellsOf(os, canonicalRepo, convert).Failure?
    ensures exists k ::
      && 0 <= k < |os|
      && CellFor(os[k], canonicalRepo, convert).Failure?
      && CellsOf(os, canonicalRepo, convert).error == CellFor(os[k], canonicalRepo, convert).error
      && forall k' :: 0 <= k' < k ==> CellFor(os[k'], canonicalRepo, convert).Success?
    decreases |os|
  {
    var init := os[..|os| - 1];
    var r := CellsOf(init, canonicalRepo, convert);
    if r.Failure? {
      CellsOfFirstFailure(init, canonicalRepo, convert);
      var k :| 0 <= k < |init| && CellFor(init[k], canonicalRepo, convert).Failure?
        && r.error == CellFor(init[k], canonicalRepo, convert).error
        && forall k' :: 0 <= k' < k ==> CellFor(init[k'], canonicalRepo, convert).Success?;
      assert os[k] == init[k];
      forall k' | 0 <= k' < k
        ensures CellFor(os[k'], canonicalRepo, convert).Success?
      {
        assert os[k'] == init[k'];
      }
    } else {
      CellsOfElementwise(init, canonicalRepo, convert);
      forall k' | 0 <= k' < |os| - 1
        ensures CellFor(os[k'], canonicalRepo, convert).Success?
      {
        assert os[k'] == init[k'];
      }
    }
  }

  /** The j-th usage of the i-th module is visited at position |usages of the first i modules| + j. */
  lemma OccurrenceAt(g: DepGraph, i: nat, j: nat)
    requires i < |g| && j < |g[i].extensionUsages|
    ensures |Occurrences(g[..i])| + j < |Occurrences(g)|
    ensures Occurrences(g)[|Occurrences(g[..i])| + j] == Occurrence(g[i], g[i].extensionUsages[j])
  {
    OccurrencesStep(g, i);
    OccurrencesPrefix(g, i + 1);
    var b := Occurrences(g[..i + 1]);
    assert Occurrences(g)[|Occurrences(g[..i])| + j] == b[|Occurrences(g[..i])| + j];
  }

  /** Every visited usage is a usage of some module of the graph. */
  lemma {:induction false} OccurrenceOrigin(g: DepGraph, k: nat)
    requires k < |Occurrences(g)|
    ensures exists i, j ::
      && 0 <= i < |g| && 0 <= j < |g[i].extensionUsages|
      && Occurrences(g)[k] == Occurrence(g[i], g[i].extensionUsages[j])
    decreases |g|
  {
    var init := g[..|g| - 1];
    var before := Occurrences(init);
    if k < |before| {
      OccurrenceOrigin(init, k);
      var i, j :| 0 <= i < |init| && 0 <= j < |init[i].extensionUsages| &&
        before[k] == Occurrence(init[i], init[i].extensionUsages[j]);
      assert g[i] == init[i];
    } else {
      var j := k - |before|;
      assert Occurrences(g)[k] == UsagesOf(g[|g| - 1])[j];
    }
  }

  /**
   * Every usage of every module is in the table: its label converts, and the
   * cell (extension id, module key) holds it.
   */
  lemma UsageTableContents(g: DepGraph, canonicalRepo: CanonicalRepoNameFn, convert: ConvertFn, i: nat, j: nat)
    requires UsageTableOf(g, canonicalRepo, convert).Success?
    requires i < |g| && j < |g[i].extensionUsages|
    ensures convert(ConverterFor(g[i], canonicalRepo), g[i].extensionUsages[j].extensionBzlFile).Success?
    ensures
      var id := ModuleExtensionId(
        convert(ConverterFor(g[i], canonicalRepo), g[i].extensionUsages[j].extensionBzlFile).value,
        g[i].extensionUsages[j].extensionName);
      var t := UsageTableOf(g, canonicalRepo, convert).value;
      (id, g[i].key) in t.cells && t.cells[(id, g[i].key)] == g[i].extensionUsages[j]
  {
    var os := Occurrences(g);
    OccurrenceAt(g, i, j);
    CellsOfElementwise(os, canonicalRepo, convert);
    var cs := CellsOf(os, canonicalRepo, convert).value;
    BuildHoldsEveryCell(cs);
    var k := |Occurrences(g[..i])| + j;
    assert CellFor(os[k], canonicalRepo, convert) == Success(cs[k]);
  }

  /** The table holds nothing else: each cell is the cell of some usage. */
  lemma UsageTableOnlyUsages(g: DepGraph, canonicalRepo: CanonicalRepoNameFn, convert: ConvertFn)
    requires UsageTableOf(g, canonicalRepo, convert).Success?
    ensures forall key :: key in UsageTableOf(g, canonicalRepo, convert).value.cells ==>
      exists i, j ::
        && 0 <= i < |g| && 0 <= j < |g[i].extensionUsages|
        && convert(ConverterFor(g[i], canonicalRepo), g[i].extensionUsages[j].extensionBzlFile).Success?
        && key == (ModuleExtensionId(
                     convert(ConverterFor(g[i], canonicalRepo), g[i].extensionUsages[j].extensionBzlFile).value,
                     g[i].extensionUsages[j].extensionName), g[i].key)
        && UsageTableOf(g, canonicalRepo, convert).value.cells[key] == g[i].extensionUsages[j]
  {
    var os := Occurrences(g);
    CellsOfElementwise(os, canonicalRepo, convert);
    var cs := CellsOf(os, canonicalRepo, convert).value;
    var t := UsageTableOf(g, canonicalRepo, convert).value;
    BuildHoldsOnlyPuts(cs);
    BuildHoldsEveryCell(cs);
    forall key | key in t.cells
      ensures exists i, j ::
        && 0 <= i < |g| && 0 <= j < |g[i].extensionUsages|
        && convert(ConverterFor(g[i], canonicalRepo), g[i].extensionUsages[j].extensionBzlFile).Success?
        && key == (ModuleExtensionId(
                     convert(ConverterFor(g[i], canonicalRepo), g[i].extensionUsages[j].extensionBzlFile).value,
                     g[i].extensionUsages[j].extensionName), g[i].key)
        && t.cells[key] == g[i].extensionUsages[j]
    {
      var k :| 0 <= k < |cs| && key == (cs[k].row, cs[k].column);
      OccurrenceOrigin(g, k);
      var i, j :| 0 <= i < |g| && 0 <= j < |g[i].extensionUsages| &&
        os[k] == Occurrence(g[i], g[i].extensionUsages[j]);
      assert CellFor(os[k], canonicalRepo, convert) == Success(cs[k]);
    }
  }

  /**
   * The stage stops on a label exactly when some usage's label does not
   * convert, and then with the location and cause of the first such usage.
   */
  lemma UsageTableLabelFailure(g: DepGraph, canonicalRepo: CanonicalRepoNameFn, convert: ConvertFn)
    ensures
      (UsageTableOf(g, canonicalRepo, convert).Failure? &&
       UsageTableOf(g, canonicalRepo, convert).error.InvalidExtensionLabel?) <==>
      exists k :: 0 <= k < |Occurrences(g)| && CellFor(Occurrences(g)[k], canonicalRepo, convert).Failure?
    ensures CellsOf(Occurrences(g), canonicalRepo, convert).Failure? ==>
      exists k ::
        && 0 <= k < |Occurrences(g)|
        && (forall k' :: 0 <= k' < k ==> CellFor(Occurrences(g)[k'], canonicalRepo, convert).Success?)
        && convert(ConverterFor(Occurrences(g)[k].owner, canonicalRepo), Occurrences(g)[k].usage.extensionBzlFile).Failure?
        && UsageTableOf(g, canonicalRepo, convert) == Failure(InvalidExtensionLabel(
             Occurrences(g)[k].usage.location,
             convert(ConverterFor(Occurrences(g)[k].owner, canonicalRepo), Occurrences(g)[k].usage.extensionBzlFile).error))
  {
    var os := Occurrences(g);
    CellsOfElementwise(os, canonicalRepo, convert);
    if CellsOf(os, canonicalRepo, convert).Failure? {
      CellsOfFirstFailure(os, canonicalRepo, convert);
      var k :| 0 <= k < |os| && CellFor(os[k], canonicalRepo, convert).Failure?
        && CellsOf(os, canonicalRepo, convert).error == CellFor(os[k], canonicalRepo, convert).error;
      assert CellFor(os[k], canonicalRepo, convert).error.InvalidExtensionLabel?;
    }
  }

  /**
   * Once every label converts, the table is built exactly when no two usages
   * put the same (extension id, module key) cell.
   */
  lemma UsageTableDuplicate(g: DepGraph, canonicalRepo: CanonicalRepoNameFn, convert: ConvertFn)
    requires CellsOf(Occurrences(g), canonicalRepo, convert).Success?
    ensures UsageTableOf(g, canonicalRepo, convert).Success? <==>
      forall a, b ::
        0 <= a < b < |Occurrences(g)| &&
        CellFor(Occurrences(g)[a], canonicalRepo, convert).Success? &&
        CellFor(Occurrences(g)[b], canonicalRepo, convert).Success? ==>
          var ca := CellFor(Occurrences(g)[a], canonicalRepo, convert).value;
          var cb := CellFor(Occurrences(g)[b], canonicalRepo, convert).value;
          (ca.row, ca.column) != (cb.row, cb.column)
    ensures UsageTableOf(g, canonicalRepo, convert).Failure? ==>
      UsageTableOf(g, canonicalRepo, convert).error.DuplicateTableCell?
  {
    var os := Occurrences(g);
    CellsOfElementwise(os, canonicalRepo, convert);
    BuildSucceedsIff(CellsOf(os, canonicalRepo, convert).value);
  }

  /**
   * The table's row keys are the extension ids it holds, each once, in the
   * order their first usage was visited.
   */
  lemma UsageTableRowKeys(g: DepGraph, canonicalRepo: CanonicalRepoNameFn, convert: ConvertFn)
    requires UsageTableOf(g, canonicalRepo, convert).Success?
    ensures FirstAppearanceOrder(UsageTableOf(g, canonicalRepo, convert).value.rowKeys,
                                 CellsOf(Occurrences(g), canonicalRepo, convert).value)
    ensures Distinct(UsageTableOf(g, canonicalRepo, convert).value.rowKeys)
    ensures forall key :: key in UsageTableOf(g, canonicalRepo, convert).value.cells ==>
      key.0 in UsageTableOf(g, canonicalRepo, convert).value.rowKeys
    ensures forall a :: 0 <= a < |UsageTableOf(g, canonicalRepo, convert).value.rowKeys| ==>
      exists key :: key in UsageTableOf(g, canonicalRepo, convert).value.cells &&
        key.0 == UsageTableOf(g, canonicalRepo, convert).value.rowKeys[a]
  {
    var cs := CellsOf(Occurrences(g), canonicalRepo, convert).value;
    var t := UsageTableOf(g, canonicalRepo, convert).value;
    BuildRowOrder(cs);
    BuildHoldsEveryCell(cs);
    BuildHoldsOnlyPuts(cs);
    forall a | 0 <= a < |t.rowKeys|
      ensures exists key :: key in t.cells && key.0 == t.rowKeys[a]
    {
      var k :| 0 <= k < |cs| && cs[k].row == t.rowKeys[a];
      assert (cs[k].row, cs[k].column) in t.cells;
    }
  }
}
