/**
 * Unique names for the extension ids of the usage table
 * (calculateUniqueNameForUsedExtensionId). Each row id, in row order, gets
 * "<repo part>~<extension name>" if no earlier id holds that name, and
 * otherwise that name followed by the smallest suffix 2, 3, ... still free.
 * The HashBiMap the source fills is modelled as two paired maps.
 */
module UniqueNames {
  import opened Wrappers
  import opened BzlmodTypes
  import opened Decimal

  /** "_main" for the main repository, the repository's own name otherwise. */
  function RepoPart(id: ModuleExtensionId): (part: string)
    ensures |part| > 0 && part[0] != '~'
  {
    var repository := id.bzlFileLabel.repository;
    if repository.IsMain() then "_main" else repository.name
  }

  /** The name an id asks for first. */
  function BestName(id: ModuleExtensionId): (best: string)
    ensures |best| > |RepoPart(id)| && best[0] != '~' && best[|RepoPart(id)|] == '~'
    ensures best[..|RepoPart(id)|] == RepoPart(id) && best[|RepoPart(id)| + 1..] == id.extensionName
  {
    RepoPart(id) + "~" + id.extensionName
  }

  /** The k-th probe for `base`: base followed by k in decimal. */
  function Candidate(base: string, k: nat): string
  {
    base + NatToString(k)
  }

  /** Every probe base2, ..., base(k-1) is already taken. */
  predicate ProbedUpTo(base: string, taken: set<string>, k: nat)
  {
    forall j :: 2 <= j < k ==> Candidate(base, j) in taken
  }

  lemma ProbeStep(base: string, taken: set<string>, k: nat)
    requires ProbedUpTo(base, taken, k) && Candidate(base, k) in taken
    ensures ProbedUpTo(base, taken, k + 1)
  {
  }

  lemma CandidateInjective(base: string, a: nat, b: nat)
    requires Candidate(base, a) == Candidate(base, b)
    ensures a == b
  {
    assert Candidate(base, a)[|base|..] == NatToString(a);
    assert Candidate(base, b)[|base|..] == NatToString(b);
    NatToStringInjective(a, b);
  }

  /** The probes base2, ..., base(k-1). */
  function CandidateSet(base: string, k: nat): set<string>
    requires 2 <= k
    decreases k
  {
    if k == 2 then {} else CandidateSet(base, k - 1) + {Candidate(base, k - 1)}
  }

  lemma {:induction false} CandidateSetExcludes(base: string, k: nat, m: nat)
    requires 2 <= k <= m
    ensures Candidate(base, m) !in CandidateSet(base, k)
    decreases k
  {
    if k > 2 {
      CandidateSetExcludes(base, k - 1, m);
      if Candidate(base, m) == Candidate(base, k - 1) {
        CandidateInjective(base, m, k - 1);
      }
    }
  }

  lemma {:induction false} CandidateSetSize(base: string, k: nat)
    requires 2 <= k
    ensures |CandidateSet(base, k)| == k - 2
    ensures forall j :: 2 <= j < k ==> Candidate(base, j) in CandidateSet(base, k)
    decreases k
  {
    if k > 2 {
      CandidateSetSize(base, k - 1);
      CandidateSetExcludes(base, k - 1, k - 1);
    }
  }

  /** Probing cannot go on past |taken| + 2: the probes are pairwise distinct. */
  lemma ProbeBound(base: string, taken: set<string>, k: nat)
    requires 2 <= k && ProbedUpTo(base, taken, k)
    ensures k - 2 <= |taken|
  {
    CandidateSetSize(base, k);
    CandidateSetWithin(base, taken, k);
    SubsetSize(CandidateSet(base, k), taken);
  }

  lemma {:induction false} CandidateSetWithin(base: string, taken: set<string>, k: nat)
    requires 2 <= k && ProbedUpTo(base, taken, k)
    ensures CandidateSet(base, k) <= taken
    decreases k
  {
    if k > 2 {
      CandidateSetWithin(base, taken, k - 1);
    }
  }

  lemma {:induction false} SubsetSize<T>(a: set<T>, b: set<T>)
    requires a <= b
    ensures |a| <= |b|
    decreases |a|
  {
    if a != {} {
      var x :| x in a;
      SubsetSize(a - {x}, b - {x});
    }
  }

  /** The first probe at or after base<k> that is not taken. */
  function FirstFree(base: string, taken: set<string>, k: nat): (name: string)
    requires 2 <= k && ProbedUpTo(base, taken, k)
    ensures name !in taken
    ensures exists s :: k <= s && name == Candidate(base, s) && ProbedUpTo(base, taken, s)
    decreases |taken| + 2 - k
  {
    ProbeBound(base, taken, k);
    if Candidate(base, k) !in taken then Candidate(base, k) else FirstFree(base, taken, k + 1)
  }

  /**
   * The name `id` receives when the names in `taken` are in use: its best name
   * if that is free, otherwise best name + s for the least s >= 2 that is free.
   */
  function UniqueName(id: ModuleExtensionId, taken: set<string>): (name: string)
    ensures name !in taken
    ensures BestName(id) !in taken ==> name == BestName(id)
    ensures BestName(id) in taken ==>
      exists s :: 2 <= s && name == Candidate(BestName(id), s) && ProbedUpTo(BestName(id), taken, s)
    ensures |name| >= |BestName(id)| && name[..|BestName(id)|] == BestName(id) && name[0] != '~'
  {
    var best := BestName(id);
    if best !in taken then best else FirstFree(best, taken, 2)
  }

  /** The BiMap of names and ids, kept as the map and its inverse. */
  datatype ExtensionNames = ExtensionNames(byName: map<string, ModuleExtensionId>, byId: map<ModuleExtensionId, string>)

  /** Names given to `rows` one after the other, each seeing the names given before it. */
  function AllocateNames(rows: seq<ModuleExtensionId>): ExtensionNames
    decreases |rows|
  {
    if rows == [] then ExtensionNames(map[], map[])
    else
      var prev := AllocateNames(rows[..|rows| - 1]);
      var id := rows[|rows| - 1];
      Put(prev, UniqueName(id, prev.byName.Keys), id)
  }

  /** BiMap.put of a pair on both maps. */
  function Put(names: ExtensionNames, name: string, id: ModuleExtensionId): ExtensionNames
  {
    ExtensionNames(names.byName[name := id], names.byId[id := name])
  }

  /** The two maps are inverse to each other: a name's id has that name, and an id's name has that id. */
  predicate IsBijection(names: ExtensionNames)
  {
    && (forall n :: n in names.byName ==> names.byName[n] in names.byId && names.byId[names.byName[n]] == n)
    && (forall id :: id in names.byId ==> names.byId[id] in names.byName && names.byName[names.byId[id]] == id)
  }

  /** Putting a fresh name for a fresh id keeps the two maps inverse and adds one entry to each. */
  lemma PutKeepsBijection(prev: ExtensionNames, name: string, id: ModuleExtensionId)
    requires IsBijection(prev) && name !in prev.byName && id !in prev.byId
    ensures IsBijection(Put(prev, name, id))
    ensures Put(prev, name, id).byId.Keys == prev.byId.Keys + {id}
    ensures |Put(prev, name, id).byId| == |prev.byId| + 1
    ensures |Put(prev, name, id).byName| == |prev.byName| + 1
  {
    PutInverse(prev, name, id);
  }

  lemma PutInverse(prev: ExtensionNames, name: string, id: ModuleExtensionId)
    requires IsBijection(prev) && name !in prev.byName && id !in prev.byId
    ensures IsBijection(Put(prev, name, id))
  {
    var next := Put(prev, name, id);
    forall n | n in next.byName
      ensures next.byName[n] in next.byId && next.byId[next.byName[n]] == n
    {
      if n != name {
        assert prev.byName[n] in prev.byId;
      }
    }
    forall i | i in next.byId
      ensures next.byId[i] in next.byName && next.byName[next.byId[i]] == i
    {
      if i != id {
        assert prev.byId[i] in prev.byName;
      }
    }
  }

  /** Every name begins with its id's best name, so never with '~'. */
  lemma {:induction false} AllocatedNamesWellFormed(rows: seq<ModuleExtensionId>)
    ensures forall id :: id in AllocateNames(rows).byId ==>
      var name := AllocateNames(rows).byId[id];
      |name| >= |BestName(id)| && name[..|BestName(id)|] == BestName(id) && name[0] != '~'
    decreases |rows|
  {
    if rows != [] {
      AllocatedNamesWellFormed(rows[..|rows| - 1]);
    }
  }

  /**
   * Coverage and uniqueness: every row id gets exactly one name, the two maps
   * are mutually inverse (so no two ids share a name), and there are no other
   * entries.
   */
  lemma {:induction false} AllocateNamesBijection(rows: seq<ModuleExtensionId>)
    requires Distinct(rows)
    ensures IsBijection(AllocateNames(rows))
    ensures forall id :: id in AllocateNames(rows).byId <==> id in rows
    ensures |AllocateNames(rows).byId| == |AllocateNames(rows).byName| == |rows|
    decreases |rows|
  {
    if rows != [] {
      var init := rows[..|rows| - 1];
      var id := rows[|rows| - 1];
      assert rows == init + [id];
      assert Distinct(init);
      AllocateNamesBijection(init);
      var prev := AllocateNames(init);
      assert id !in prev.byId;
      PutKeepsBijection(prev, UniqueName(id, prev.byName.Keys), id);
    }
  }

  /** Later rows never change the names already given: allocation only adds entries. */
  lemma {:induction false} AllocateNamesPrefix(rows: seq<ModuleExtensionId>, i: nat)
    requires Distinct(rows) && i <= |rows|
    ensures forall n :: n in AllocateNames(rows[..i]).byName ==>
      n in AllocateNames(rows).byName && AllocateNames(rows).byName[n] == AllocateNames(rows[..i]).byName[n]
    ensures forall id :: id in AllocateNames(rows[..i]).byId ==>
      id in AllocateNames(rows).byId && AllocateNames(rows).byId[id] == AllocateNames(rows[..i]).byId[id]
    decreases |rows| - i
  {
    if i < |rows| {
      var init := rows[..|rows| - 1];
      assert Distinct(init);
      assert init[..i] == rows[..i];
      AllocateNamesPrefix(init, i);
      AllocateNamesBijection(init);
      var prev := AllocateNames(init);
      var id := rows[|rows| - 1];
      assert id !in init;
      assert id !in prev.byId;
    } else {
      assert rows[..i] == rows;
    }
  }

  /** Row i's name is UniqueName of its id against the names taken by rows 0..i-1. */
  lemma NamingRule(rows: seq<ModuleExtensionId>, i: nat)
    requires Distinct(rows) && i < |rows|
    ensures rows[i] in AllocateNames(rows).byId
    ensures AllocateNames(rows).byId[rows[i]] == UniqueName(rows[i], AllocateNames(rows[..i]).byName.Keys)
  {
    assert rows[..i + 1][..i] == rows[..i];
    AllocateNamesPrefix(rows, i + 1);
  }

  /** The names taken before row i are exactly the names of rows 0..i-1. */
  lemma TakenBefore(rows: seq<ModuleExtensionId>, i: nat)
    requires Distinct(rows) && i <= |rows|
    ensures forall n :: n in AllocateNames(rows[..i]).byName <==>
      exists j :: 0 <= j < i && rows[j] in AllocateNames(rows).byId && AllocateNames(rows).byId[rows[j]] == n
  {
    assert Distinct(rows[..i]);
    AllocateNamesPrefix(rows, i);
    AllocateNamesBijection(rows[..i]);
    NamesOfPrefix(AllocateNames(rows[..i]), AllocateNames(rows), rows, i);
  }

  lemma NamesOfPrefix(before: ExtensionNames, all: ExtensionNames, rows: seq<ModuleExtensionId>, i: nat)
    requires i <= |rows| && IsBijection(before)
    requires forall id :: id in before.byId <==> id in rows[..i]
    requires forall id :: id in before.byId ==> id in all.byId && all.byId[id] == before.byId[id]
    ensures forall n :: n in before.byName <==>
      exists j :: 0 <= j < i && rows[j] in all.byId && all.byId[rows[j]] == n
  {
    forall n | n in before.byName
      ensures exists j :: 0 <= j < i && rows[j] in all.byId && all.byId[rows[j]] == n
    {
      var id := before.byName[n];
      assert id in rows[..i];
      var j :| 0 <= j < i && rows[..i][j] == id;
      assert rows[j] == id;
    }
    forall n | exists j :: 0 <= j < i && rows[j] in all.byId && all.byId[rows[j]] == n
      ensures n in before.byName
    {
      var j :| 0 <= j < i && rows[j] in all.byId && all.byId[rows[j]] == n;
      assert rows[j] == rows[..i][j];
      assert rows[j] in before.byId;
    }
  }

  lemma {:induction false} FirstFreeSkip(base: string, taken: set<string>, k: nat, s: nat)
    requires 2 <= k <= s && ProbedUpTo(base, taken, s)
    ensures FirstFree(base, taken, k) == FirstFree(base, taken, s)
    decreases s - k
  {
    if k < s {
      FirstFreeSkip(base, taken, k + 1, s);
    }
  }

  /** A probe loop that stops at the first free base<s> yields UniqueName. */
  lemma UniqueNameByProbing(id: ModuleExtensionId, taken: set<string>, s: nat)
    requires BestName(id) in taken && 2 <= s && ProbedUpTo(BestName(id), taken, s)
    requires Candidate(BestName(id), s) !in taken
    ensures UniqueName(id, taken) == Candidate(BestName(id), s)
  {
    FirstFreeSkip(BestName(id), taken, 2, s);
  }

  /** Row keys are distinct, so the id put at step i has no name yet. */
  lemma NextIdIsFresh(rows: seq<ModuleExtensionId>, i: nat)
    requires Distinct(rows) && i < |rows|
    ensures rows[i] !in AllocateNames(rows[..i]).byId
  {
    assert Distinct(rows[..i]);
    AllocateNamesBijection(rows[..i]);
    assert rows[i] !in rows[..i];
  }

  lemma AllocateNext(rows: seq<ModuleExtensionId>, i: nat)
    requires i < |rows|
    ensures AllocateNames(rows[..i + 1]) ==
      Put(AllocateNames(rows[..i]), UniqueName(rows[i], AllocateNames(rows[..i]).byName.Keys), rows[i])
  {
    assert rows[..i + 1][..i] == rows[..i];
  }

  /**
   * The loop of calculateUniqueNameForUsedExtensionId: putIfAbsent of the best
   * name, then of best2, best3, ... until one is accepted. Row keys form a set,
   * so each id is put once and the BiMap's value check never fires.
   */
  method CalculateUniqueNameForUsedExtensionId(rowKeys: seq<ModuleExtensionId>) returns (names: ExtensionNames)
    requires Distinct(rowKeys)
    ensures names == AllocateNames(rowKeys)
    ensures IsBijection(names) && forall id :: id in names.byId <==> id in rowKeys
  {
    var byName: map<string, ModuleExtensionId> := map[];
    var byId: map<ModuleExtensionId, string> := map[];
    for i := 0 to |rowKeys|
      invariant ExtensionNames(byName, byId) == AllocateNames(rowKeys[..i])
    {
      var id := rowKeys[i];
      ghost var taken := byName.Keys;
      AllocateNext(rowKeys, i);
      NextIdIsFresh(rowKeys, i);
      assert id !in byId;
      var repository := id.bzlFileLabel.repository;
      var nonEmptyRepoPart := if repository.IsMain() then "_main" else repository.name;
      var bestName := nonEmptyRepoPart + "~" + id.extensionName;
      assert bestName == BestName(id);
      if bestName !in byName {
        byName, byId := byName[bestName := id], byId[id := bestName];
        continue;
      }
      var suffix := 2;
      while Candidate(bestName, suffix) in byName
        invariant 2 <= suffix && ProbedUpTo(bestName, taken, suffix)
        decreases |taken| + 2 - suffix
      {
        assert Candidate(bestName, suffix) in taken;
        ProbeStep(bestName, taken, suffix);
        ProbeBound(bestName, taken, suffix + 1);
        suffix := suffix + 1;
      }
      var name := bestName + NatToString(suffix);
      UniqueNameByProbing(id, taken, suffix);
      byName, byId := byName[name := id], byId[id := name];
    }
    assert rowKeys[..|rowKeys|] == rowKeys;
    names := ExtensionNames(byName, byId);
    AllocateNamesBijection(rowKeys);
  }

  /**
   * A root-module extension `foo` is named "_main~foo"; two extensions `ext`
   * from different .bzl files of the repository `shared` are named
   * "shared~ext" and "shared~ext2", the first-visited one taking the best name.
   */
  lemma CollisionExample()
    ensures
      var root := ModuleExtensionId(Label(Main, "", "extensions.bzl"), "foo");
      var alpha := ModuleExtensionId(Label(Named("shared"), "", "alpha.bzl"), "ext");
      var beta := ModuleExtensionId(Label(Named("shared"), "", "beta.bzl"), "ext");
      AllocateNames([root, alpha, beta]).byId == map[root := "_main~foo", alpha := "shared~ext", beta := "shared~ext2"]
  {
    var root := ModuleExtensionId(Label(Main, "", "extensions.bzl"), "foo");
    var alpha := ModuleExtensionId(Label(Named("shared"), "", "alpha.bzl"), "ext");
    var beta := ModuleExtensionId(Label(Named("shared"), "", "beta.bzl"), "ext");
    assert [root, alpha, beta][..2] == [root, alpha];
    ExampleFirstTwo(root, alpha);
    var two := AllocateNames([root, alpha]);
    assert two.byName.Keys == {"_main~foo", "shared~ext"};
    ExampleProbe(beta, two.byName.Keys);
  }

  lemma ExampleFirstTwo(root: ModuleExtensionId, alpha: ModuleExtensionId)
    requires root == ModuleExtensionId(Label(Main, "", "extensions.bzl"), "foo")
    requires alpha == ModuleExtensionId(Label(Named("shared"), "", "alpha.bzl"), "ext")
    ensures AllocateNames([root, alpha]) ==
      ExtensionNames(map["_main~foo" := root, "shared~ext" := alpha], map[root := "_main~foo", alpha := "shared~ext"])
  {
    assert [root, alpha][..1] == [root] && [root][..0] == [];
    assert BestName(root) == "_main~foo" && BestName(alpha) == "shared~ext";
    var none := AllocateNames([]);
    assert none.byName.Keys == {};
    assert UniqueName(root, none.byName.Keys) == "_main~foo";
    var one := AllocateNames([root]);
    assert one == ExtensionNames(map["_main~foo" := root], map[root := "_main~foo"]);
    assert UniqueName(alpha, one.byName.Keys) == "shared~ext";
  }

  lemma ExampleProbe(beta: ModuleExtensionId, taken: set<string>)
    requires beta == ModuleExtensionId(Label(Named("shared"), "", "beta.bzl"), "ext")
    requires taken == {"_main~foo", "shared~ext"}
    ensures UniqueName(beta, taken) == "shared~ext2"
  {
    assert BestName(beta) == "shared~ext";
    assert NatToString(2) == "2";
    assert Candidate("shared~ext", 2) == "shared~ext2";
    assert FirstFree("shared~ext", taken, 2) == "shared~ext2";
  }
}
