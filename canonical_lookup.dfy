/**
 * The canonical repo name lookup, the first thing compute builds once the
 * graph is settled: every key of the dependency graph projected to its canonical repository name, collected with
 * toImmutableMap, which rejects a second entry for the same name instead of
 * overwriting the first.
 */
module CanonicalLookup {
  import opened Wrappers
  import opened BzlmodTypes

  /** Two keys of `keys` share a canonical repository name. */
  predicate SharedName(keys: seq<ModuleKey>, canonicalRepo: CanonicalRepoNameFn)
  {
    exists i, j :: 0 <= i < j < |keys| && canonicalRepo(keys[i]) == canonicalRepo(keys[j])
  }

  /**
   * The lookup built from `keys` in order. On success each key is found under
   * its canonical name, every entry is of that form, and there is one entry
   * per key; on failure the error names a canonical name two keys share.
   */
  function CanonicalRepoNameLookup(keys: seq<ModuleKey>, canonicalRepo: CanonicalRepoNameFn)
    : (r: Result<map<RepositoryName, ModuleKey>, Failure>)
    ensures r.Success? ==>
      forall i :: 0 <= i < |keys| ==> canonicalRepo(keys[i]) in r.value && r.value[canonicalRepo(keys[i])] == keys[i]
    ensures r.Success? ==>
      forall name :: name in r.value ==> r.value[name] in keys && canonicalRepo(r.value[name]) == name
    ensures r.Failure? ==> r.error.DuplicateCanonicalRepoName?
    decreases |keys|
  {
    if keys == [] then Success(map[])
    else
      var init := keys[..|keys| - 1];
      var key := keys[|keys| - 1];
      match CanonicalRepoNameLookup(init, canonicalRepo)
      case Failure(e) => Failure(e)
      case Success(lookup) =>
        var name := canonicalRepo(key);
        if name in lookup then
          Failure(DuplicateCanonicalRepoName(name))
        else
          Success(lookup[name := key])
  }

  /** The lookup is built exactly when no two keys share a canonical name. */
  lemma LookupSucceedsIff(keys: seq<ModuleKey>, canonicalRepo: CanonicalRepoNameFn)
    ensures CanonicalRepoNameLookup(keys, canonicalRepo).Success? <==> !SharedName(keys, canonicalRepo)
  {
    if SharedName(keys, canonicalRepo) {
      var i, j :| 0 <= i < j < |keys| && canonicalRepo(keys[i]) == canonicalRepo(keys[j]);
      LookupRejectsShared(keys, canonicalRepo, i, j);
    } else {
      LookupAcceptsDistinct(keys, canonicalRepo);
    }
  }

  lemma {:induction false} LookupRejectsShared(keys: seq<ModuleKey>, canonicalRepo: CanonicalRepoNameFn, i: nat, j: nat)
    requires i < j < |keys| && canonicalRepo(keys[i]) == canonicalRepo(keys[j])
    ensures CanonicalRepoNameLookup(keys, canonicalRepo).Failure?
    decreases |keys|
  {
    var init := keys[..|keys| - 1];
    assert keys[i] == init[i];
    if j < |keys| - 1 {
      assert keys[j] == init[j];
      LookupRejectsShared(init, canonicalRepo, i, j);
    } else if CanonicalRepoNameLookup(init, canonicalRepo).Success? {
      assert canonicalRepo(init[i]) in CanonicalRepoNameLookup(init, canonicalRepo).value;
    }
  }

  lemma {:induction false} LookupAcceptsDistinct(keys: seq<ModuleKey>, canonicalRepo: CanonicalRepoNameFn)
    requires !SharedName(keys, canonicalRepo)
    ensures CanonicalRepoNameLookup(keys, canonicalRepo).Success?
    decreases |keys|
  {
    if keys != [] {
      var init := keys[..|keys| - 1];
      var key := keys[|keys| - 1];
      assert !SharedName(init, canonicalRepo) by {
        forall i, j | 0 <= i < j < |init|
          ensures canonicalRepo(init[i]) != canonicalRepo(init[j])
        {
          assert init[i] == keys[i] && init[j] == keys[j];
        }
      }
      LookupAcceptsDistinct(init, canonicalRepo);
      var lookup := CanonicalRepoNameLookup(init, canonicalRepo).value;
      forall name | name in lookup
        ensures name != canonicalRepo(key)
      {
        var i :| 0 <= i < |init| && init[i] == lookup[name];
        assert keys[i] == init[i];
      }
    }
  }

  /** A failed lookup names a canonical repository name that two keys share. */
  lemma {:induction false} LookupFailureNamesSharedRepo(keys: seq<ModuleKey>, canonicalRepo: CanonicalRepoNameFn)
    requires CanonicalRepoNameLookup(keys, canonicalRepo).Failure?
    ensures exists i, j ::
      && 0 <= i < j < |keys|
      && canonicalRepo(keys[i]) == CanonicalRepoNameLookup(keys, canonicalRepo).error.repo == canonicalRepo(keys[j])
    decreases |keys|
  {
    var init := keys[..|keys| - 1];
    var key := keys[|keys| - 1];
    var r := CanonicalRepoNameLookup(init, canonicalRepo);
    if r.Failure? {
      LookupFailureNamesSharedRepo(init, canonicalRepo);
      var i, j :| 0 <= i < j < |init| && canonicalRepo(init[i]) == r.error.repo == canonicalRepo(init[j]);
      assert keys[i] == init[i] && keys[j] == init[j];
    } else {
      var k := r.value[canonicalRepo(key)];
      var i :| 0 <= i < |init| && init[i] == k;
      assert keys[i] == k;
    }
  }

  /** One entry per key. */
  lemma {:induction false} LookupSize(keys: seq<ModuleKey>, canonicalRepo: CanonicalRepoNameFn)
    requires CanonicalRepoNameLookup(keys, canonicalRepo).Success?
    ensures |CanonicalRepoNameLookup(keys, canonicalRepo).value| == |keys|
    decreases |keys|
  {
    if keys != [] {
      LookupSize(keys[..|keys| - 1], canonicalRepo);
    }
  }

  /** Distinct canonical names map to distinct keys: the lookup is injective. */
  lemma LookupInjective(keys: seq<ModuleKey>, canonicalRepo: CanonicalRepoNameFn, a: RepositoryName, b: RepositoryName)
    requires CanonicalRepoNameLookup(keys, canonicalRepo).Success?
    requires a in CanonicalRepoNameLookup(keys, canonicalRepo).value
    requires b in CanonicalRepoNameLookup(keys, canonicalRepo).value
    requires a != b
    ensures CanonicalRepoNameLookup(keys, canonicalRepo).value[a] != CanonicalRepoNameLookup(keys, canonicalRepo).value[b]
  {
  }
}
