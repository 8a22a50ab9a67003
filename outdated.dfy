/**
 * The first phase of `groupDependenciesByScopeAndVersion` (index.js): look
 * up the latest metadata of every dependency and keep those whose declared
 * range, stripped of its operator, differs from the latest version.
 *
 * The registry lookup (`npm view`) is a parameter: a map from package
 * name to the metadata it would return.
 */
module Outdated {
  import opened Wrappers
  import opened OrderedMaps
  import opened Versions
  import opened GitUrls
  import opened Packages

  /** What `getLatestPackageMetadata` returns, per package name. */
  type Registry = map<string, Metadata>

  /** A dependency is bumped unless its range and the latest version strip to the same string. */
  predicate IsOutdated(version: string, latest: Metadata) {
    !IsSameVersion(version, latest.version)
  }

  /** The record pushed onto `allPackagesWithMetadata` for one dependency. */
  function InfoOf(packageName: string, version: string, latest: Metadata): PackageInfo {
    PackageInfo(packageName, version, latest.version, GetGitURL(latest.repository))
  }

  /** Every listed name is a dependency and has registry metadata. */
  predicate Known(names: seq<string>, deps: map<string, string>, registry: Registry) {
    forall i | 0 <= i < |names| :: names[i] in deps && names[i] in registry
  }

  /** The outdated dependencies among `names`, as records, in the order of `names`. */
  function OutdatedOf(names: seq<string>, deps: map<string, string>, registry: Registry): (r: seq<PackageInfo>)
    requires Known(names, deps, registry)
    ensures |r| <= |names|
  {
    if names == [] then []
    else
      var init, n := names[..|names| - 1], names[|names| - 1];
      assert forall i | 0 <= i < |init| :: init[i] == names[i];
      var kept := OutdatedOf(init, deps, registry);
      if IsOutdated(deps[n], registry[n]) then kept + [InfoOf(n, deps[n], registry[n])] else kept
  }

  /** Lines 100-117 of index.js: the loop over `Object.entries(allDependencies)`. */
  method CollectOutdated(allDependencies: OrderedMap<string>, registry: Registry) returns (allPackagesWithMetadata: seq<PackageInfo>)
    requires allDependencies.Valid()
    requires forall k | k in allDependencies.entries :: k in registry
    ensures Known(allDependencies.keys, allDependencies.entries, registry)
    ensures allPackagesWithMetadata == OutdatedOf(allDependencies.keys, allDependencies.entries, registry)
  {
    var names := allDependencies.keys;
    assert Known(names, allDependencies.entries, registry) by {
      forall i | 0 <= i < |names| ensures names[i] in allDependencies.entries {
        assert names[i] in names;
      }
    }
    allPackagesWithMetadata := [];
    for i := 0 to |names|
      invariant Known(names[..i], allDependencies.entries, registry)
      invariant allPackagesWithMetadata == OutdatedOf(names[..i], allDependencies.entries, registry)
    {
      OutdatedSnoc(names, allDependencies.entries, registry, i);
      var packageName := names[i];
      var version := allDependencies.entries[packageName];
      var latestPackageMetadata := registry[packageName];
      if IsSameVersion(version, latestPackageMetadata.version) {
        continue;
      }
      allPackagesWithMetadata := allPackagesWithMetadata + [PackageInfo(
        packageName,
        version,
        latestPackageMetadata.version,
        GetGitURL(latestPackageMetadata.repository))];
    }
    assert names[..|names|] == names;
  }

  /** One more name considered: its record is appended when it is outdated. */
  lemma OutdatedSnoc(names: seq<string>, deps: map<string, string>, registry: Registry, i: nat)
    requires Known(names, deps, registry) && i < |names|
    ensures Known(names[..i], deps, registry) && Known(names[..i + 1], deps, registry)
    ensures var n := names[i];
      OutdatedOf(names[..i + 1], deps, registry) ==
        OutdatedOf(names[..i], deps, registry) + if IsOutdated(deps[n], registry[n]) then [InfoOf(n, deps[n], registry[n])] else []
  {
    assert names[..i + 1][..i] == names[..i];
  }

  /** `p` is the record kept for the outdated dependency `names[j]`. */
  predicate IsRecordOf(names: seq<string>, deps: map<string, string>, registry: Registry, j: nat, p: PackageInfo)
    requires Known(names, deps, registry) && j < |names|
  {
    IsOutdated(deps[names[j]], registry[names[j]]) && p == InfoOf(names[j], deps[names[j]], registry[names[j]])
  }

  /**
   * A record is kept exactly when it describes a listed dependency that is
   * outdated.
   */
  lemma OutdatedMembers(names: seq<string>, deps: map<string, string>, registry: Registry, p: PackageInfo)
    requires Known(names, deps, registry)
    ensures p in OutdatedOf(names, deps, registry) <==> exists j | 0 <= j < |names| :: IsRecordOf(names, deps, registry, j, p)
  {
    if p in OutdatedOf(names, deps, registry) {
      var j := KeptIsRecord(names, deps, registry, p);
    }
    if j :| 0 <= j < |names| && IsRecordOf(names, deps, registry, j, p) {
      RecordIsKept(names, deps, registry, j, p);
    }
  }

  lemma {:induction false} KeptIsRecord(names: seq<string>, deps: map<string, string>, registry: Registry, p: PackageInfo)
    returns (j: nat)
    requires Known(names, deps, registry) && p in OutdatedOf(names, deps, registry)
    ensures j < |names| && IsRecordOf(names, deps, registry, j, p)
  {
    var init := names[..|names| - 1];
    OutdatedSnoc(names, deps, registry, |names| - 1);
    assert names[..|names|] == names;
    if p in OutdatedOf(init, deps, registry) {
      j := KeptIsRecord(init, deps, registry, p);
      assert init[j] == names[j];
    } else {
      j := |names| - 1;
    }
  }

  lemma {:induction false} RecordIsKept(names: seq<string>, deps: map<string, string>, registry: Registry, j: nat, p: PackageInfo)
    requires Known(names, deps, registry) && j < |names| && IsRecordOf(names, deps, registry, j, p)
    ensures p in OutdatedOf(names, deps, registry)
  {
    var init := names[..|names| - 1];
    OutdatedSnoc(names, deps, registry, |names| - 1);
    assert names[..|names|] == names;
    if j < |init| {
      assert init[j] == names[j];
      assert IsRecordOf(init, deps, registry, j, p);
      RecordIsKept(init, deps, registry, j, p);
    }
  }

  /** A kept record is outdated: its declared range and latest version strip to different strings. */
  lemma OutdatedKept(names: seq<string>, deps: map<string, string>, registry: Registry, p: PackageInfo)
    requires Known(names, deps, registry)
    requires p in OutdatedOf(names, deps, registry)
    ensures p.name in names && p.name in deps && p.name in registry
    ensures p.currentVersion == deps[p.name] && p.latestVersion == registry[p.name].version
    ensures p.url == GetGitURL(registry[p.name].repository)
    ensures !IsSameVersion(p.currentVersion, p.latestVersion)
  {
    OutdatedMembers(names, deps, registry, p);
  }

  /** The names of a sequence of records. */
  function NamesOf(ps: seq<PackageInfo>): (r: seq<string>)
    ensures |r| == |ps|
    ensures forall i | 0 <= i < |ps| :: r[i] == ps[i].name
  {
    if ps == [] then [] else NamesOf(ps[..|ps| - 1]) + [ps[|ps| - 1].name]
  }

  /** No package is kept twice: the names of the kept records are distinct when the dependency names are. */
  lemma {:induction false} OutdatedDistinct(names: seq<string>, deps: map<string, string>, registry: Registry)
    requires Known(names, deps, registry) && Distinct(names)
    ensures Distinct(NamesOf(OutdatedOf(names, deps, registry)))
  {
    if names != [] {
      var init, n := names[..|names| - 1], names[|names| - 1];
      OutdatedSnoc(names, deps, registry, |names| - 1);
      assert names[..|names|] == names;
      var kept := OutdatedOf(init, deps, registry);
      OutdatedDistinct(init, deps, registry);
      if IsOutdated(deps[n], registry[n]) {
        NamesSnoc(kept, InfoOf(n, deps[n], registry[n]));
        NotYetKept(init, deps, registry, n);
        DistinctSnoc(NamesOf(kept), n);
      }
    }
  }

  lemma NamesSnoc(ps: seq<PackageInfo>, p: PackageInfo)
    ensures NamesOf(ps + [p]) == NamesOf(ps) + [p.name]
  {
    assert (ps + [p])[..|ps|] == ps;
  }

  /** A name that is not listed has no kept record. */
  lemma NotYetKept(names: seq<string>, deps: map<string, string>, registry: Registry, n: string)
    requires Known(names, deps, registry) && n !in names
    ensures n !in NamesOf(OutdatedOf(names, deps, registry))
  {
    var kept := OutdatedOf(names, deps, registry);
    forall i | 0 <= i < |kept| ensures kept[i].name != n {
      assert kept[i] in kept;
      OutdatedKept(names, deps, registry, kept[i]);
    }
  }

  /** Records with distinct names are distinct records. */
  lemma {:induction false} DistinctByName(ps: seq<PackageInfo>)
    requires Distinct(NamesOf(ps))
    ensures Distinct(ps)
  {
    if ps != [] {
      var init := ps[..|ps| - 1];
      assert NamesOf(ps)[..|ps| - 1] == NamesOf(init);
      DistinctByName(init);
    }
  }
}
