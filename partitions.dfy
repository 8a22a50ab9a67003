/**
 * The second phase of `groupDependenciesByScopeAndVersion` (index.js):
 * the outdated packages are sorted into buckets keyed by scope and latest
 * version, `@types/<name>` packages keyed by `<name>`, and unscoped
 * packages kept in order.
 */
module Partitions {
  import opened Wrappers
  import opened OrderedMaps
  import opened Packages

  /** `packagesKeyedByScopeAndVersion`: scope, then latest version, then the members in order. */
  type Buckets = OrderedMap<OrderedMap<seq<PackageInfo>>>

  /** The outer object and every inner object are valid ordered maps. */
  predicate BucketsValid(b: Buckets) {
    b.Valid() && forall s | s in b.entries :: b.entries[s].Valid()
  }

  /** The three collections the loop at lines 123-147 builds. */
  datatype Partition = Partition(buckets: Buckets, types: map<string, PackageInfo>, unscoped: seq<PackageInfo>)

  /** A name of the form `@types/<name>`. */
  predicate IsTypesName(packageName: string) {
    IsScoped(packageName) && ScopeName(packageName) == "@types"
  }

  /** A package that goes into bucket `(scope, version)`. */
  predicate InBucket(p: PackageInfo, scope: string, version: string) {
    IsScoped(p.name) && !IsTypesName(p.name) && ScopeName(p.name) == scope && p.latestVersion == version
  }

  /** A package that shadows the unscoped package `name`. */
  predicate IsTypesOf(p: PackageInfo, name: string) {
    IsTypesName(p.name) && NameWithoutScope(p.name) == name
  }

  /** `packagesKeyedByScopeAndVersion[scope][version].push(p)`, creating the objects as needed. */
  function AddScoped(b: Buckets, scope: string, version: string, p: PackageInfo): (r: Buckets)
    requires BucketsValid(b)
    ensures BucketsValid(r)
  {
    var inner := if scope in b.entries then b.entries[scope] else Empty();
    var bucket := if version in inner.entries then inner.entries[version] else [];
    b.Put(scope, inner.Put(version, bucket + [p]))
  }

  /** One turn of the loop at lines 123-147. */
  function Step(part: Partition, p: PackageInfo): (r: Partition)
    requires BucketsValid(part.buckets)
    ensures BucketsValid(r.buckets)
  {
    if !IsScoped(p.name) then part.(unscoped := part.unscoped + [p])
    else if ScopeName(p.name) == "@types" then part.(types := part.types[NameWithoutScope(p.name) := p])
    else part.(buckets := AddScoped(part.buckets, ScopeName(p.name), p.latestVersion, p))
  }

  /** The partition of `ps`: its members folded in order. */
  function PartitionOf(ps: seq<PackageInfo>): (r: Partition)
    ensures BucketsValid(r.buckets)
  {
    if ps == [] then Partition(Empty(), map[], [])
    else Step(PartitionOf(ps[..|ps| - 1]), ps[|ps| - 1])
  }

  /** Lines 119-147 of index.js. */
  method PartitionPackages(allPackagesWithMetadata: seq<PackageInfo>)
    returns (packagesKeyedByScopeAndVersion: Buckets, typesPackages: map<string, PackageInfo>, unscopedPackages: seq<PackageInfo>)
    ensures Partition(packagesKeyedByScopeAndVersion, typesPackages, unscopedPackages) == PartitionOf(allPackagesWithMetadata)
  {
    packagesKeyedByScopeAndVersion, typesPackages, unscopedPackages := Empty(), map[], [];
    for i := 0 to |allPackagesWithMetadata|
      invariant Partition(packagesKeyedByScopeAndVersion, typesPackages, unscopedPackages) == PartitionOf(allPackagesWithMetadata[..i])
    {
      assert allPackagesWithMetadata[..i + 1][..i] == allPackagesWithMetadata[..i];
      var packageMetadata := allPackagesWithMetadata[i];
      var packageName := packageMetadata.name;
      var isScoped := IsScoped(packageName);
      if !isScoped {
        unscopedPackages := unscopedPackages + [packageMetadata];
      } else if ScopeName(packageName) == "@types" {
        typesPackages := typesPackages[NameWithoutScope(packageName) := packageMetadata];
      } else {
        var scopeName, latestVersion := ScopeName(packageName), packageMetadata.latestVersion;
        ghost var before := packagesKeyedByScopeAndVersion;
        if scopeName !in packagesKeyedByScopeAndVersion.entries {
          packagesKeyedByScopeAndVersion := packagesKeyedByScopeAndVersion.Put(scopeName, Empty());
        }
        var inner := packagesKeyedByScopeAndVersion.entries[scopeName];
        if latestVersion !in inner.entries {
          inner := inner.Put(latestVersion, []);
          packagesKeyedByScopeAndVersion := packagesKeyedByScopeAndVersion.Put(scopeName, inner);
        }
        inner := inner.Put(latestVersion, inner.entries[latestVersion] + [packageMetadata]);
        packagesKeyedByScopeAndVersion := packagesKeyedByScopeAndVersion.Put(scopeName, inner);
        AddScopedInSteps(before, scopeName, latestVersion, packageMetadata);
      }
    }
    assert allPackagesWithMetadata[..|allPackagesWithMetadata|] == allPackagesWithMetadata;
  }

  /**
   * Creating the scope's object, then the version's array, then pushing,
   * as the source does, gives the same buckets as `AddScoped`.
   */
  lemma AddScopedInSteps(b: Buckets, scope: string, version: string, p: PackageInfo)
    requires BucketsValid(b)
    ensures var b1 := if scope !in b.entries then b.Put(scope, Empty()) else b;
      var inner1 := b1.entries[scope];
      var inner2 := if version !in inner1.entries then inner1.Put(version, []) else inner1;
      var b2 := if version !in inner1.entries then b1.Put(scope, inner2) else b1;
      b2.Put(scope, inner2.Put(version, inner2.entries[version] + [p])) == AddScoped(b, scope, version, p)
  {
    var inner1 := if scope in b.entries then b.entries[scope] else Empty();
    if version !in inner1.entries {
      var inner2 := inner1.Put(version, []);
      assert [] + [p] == [p];
      PutTwice(inner1, version, [], [p]);
      if scope in b.entries {
        PutTwice(b, scope, inner2, inner1.Put(version, [p]));
      } else {
        var b1 := b.Put(scope, Empty());
        PutTwice(b1, scope, inner2, inner1.Put(version, [p]));
        PutTwice(b, scope, Empty(), inner1.Put(version, [p]));
      }
    }
  }

  /**
   * Bucket `(scope, version)` of `r` is that of `b` after pushing `p` into
   * bucket `(s1, v1)`: it exists exactly when it existed or is the one
   * pushed into, and it gained `p` at its end exactly when it is that one.
   */
  predicate PushedInto(b: Buckets, r: Buckets, s1: string, v1: string, p: PackageInfo, scope: string, version: string) {
    var had := scope in b.entries && version in b.entries[scope].entries;
    var old_ := if had then b.entries[scope].entries[version] else [];
    && (scope in r.entries && version in r.entries[scope].entries <==> had || (scope == s1 && version == v1))
    && (scope in r.entries && version in r.entries[scope].entries ==>
          r.entries[scope].entries[version] == if scope == s1 && version == v1 then old_ + [p] else old_)
  }

  /** What bucket `(scope, version)` holds after one push: the push only touches its own bucket. */
  lemma AddScopedAt(b: Buckets, s1: string, v1: string, p: PackageInfo, scope: string, version: string)
    requires BucketsValid(b)
    ensures PushedInto(b, AddScoped(b, s1, v1, p), s1, v1, p, scope, version)
  {
    if scope == s1 {
      AddScopedAtSame(b, s1, v1, p, version);
    } else {
      AddScopedOther(b, s1, v1, p, scope);
    }
  }

  /** The buckets of the scope pushed into. */
  lemma AddScopedAtSame(b: Buckets, s1: string, v1: string, p: PackageInfo, version: string)
    requires BucketsValid(b)
    ensures PushedInto(b, AddScoped(b, s1, v1, p), s1, v1, p, s1, version)
  {
    AddScopedSame(b, s1, v1, p);
  }

  /** A push into scope `s1` only changes that scope's object. */
  lemma AddScopedOther(b: Buckets, s1: string, v1: string, p: PackageInfo, scope: string)
    requires BucketsValid(b) && scope != s1
    ensures var r := AddScoped(b, s1, v1, p);
      && (scope in r.entries <==> scope in b.entries)
      && (scope in b.entries ==> r.entries[scope] == b.entries[scope])
  {
  }

  /** A push into scope `s1` appends to bucket `v1` of that scope, creating it if needed. */
  lemma AddScopedSame(b: Buckets, s1: string, v1: string, p: PackageInfo)
    requires BucketsValid(b)
    ensures var r := AddScoped(b, s1, v1, p);
      var inner := if s1 in b.entries then b.entries[s1].entries else map[];
      var bucket := if v1 in inner then inner[v1] else [];
      s1 in r.entries && r.entries[s1].entries == inner[v1 := bucket + [p]]
  {
    var inner := if s1 in b.entries then b.entries[s1] else Empty();
    var bucket := if v1 in inner.entries then inner.entries[v1] else [];
    assert AddScoped(b, s1, v1, p).entries[s1] == inner.Put(v1, bucket + [p]);
  }

  /** The members of `ps` that go into bucket `(scope, version)`, in order. */
  function Bucket(ps: seq<PackageInfo>, scope: string, version: string): (r: seq<PackageInfo>)
    ensures forall p :: p in r <==> p in ps && InBucket(p, scope, version)
  {
    if ps == [] then []
    else
      var init, last := ps[..|ps| - 1], ps[|ps| - 1];
      assert ps == init + [last];
      var kept := Bucket(init, scope, version);
      if InBucket(last, scope, version) then kept + [last] else kept
  }

  /** The members of `ps` whose name has no `/`, in order. */
  function Unscoped(ps: seq<PackageInfo>): (r: seq<PackageInfo>)
    ensures forall p :: p in r <==> p in ps && !IsScoped(p.name)
  {
    if ps == [] then []
    else
      var init, last := ps[..|ps| - 1], ps[|ps| - 1];
      assert ps == init + [last];
      var kept := Unscoped(init);
      if !IsScoped(last.name) then kept + [last] else kept
  }

  /** Filtering a sequence without repeats yields one without repeats. */
  lemma {:induction false} UnscopedDistinct(ps: seq<PackageInfo>)
    requires Distinct(ps)
    ensures Distinct(Unscoped(ps))
  {
    if ps != [] {
      var init, last := ps[..|ps| - 1], ps[|ps| - 1];
      UnscopedDistinct(init);
      var kept := Unscoped(init);
      if !IsScoped(last.name) {
        DistinctSnoc(kept, last);
      }
    }
  }

  /** Index of the last member of `ps[..hi]` that is `@types/<name>`, or -1. */
  function LastTypesAt(ps: seq<PackageInfo>, name: string, hi: nat): (k: int)
    requires hi <= |ps|
    ensures -1 <= k < hi
    ensures k >= 0 ==> IsTypesOf(ps[k], name)
    ensures forall j | k < j < hi :: !IsTypesOf(ps[j], name)
    decreases hi
  {
    if hi == 0 then -1
    else if IsTypesOf(ps[hi - 1], name) then hi - 1
    else LastTypesAt(ps, name, hi - 1)
  }

  /** The scan from `hi` down sees only `ps[..hi]`. */
  lemma {:induction false} LastTypesPrefix(ps: seq<PackageInfo>, name: string, n: nat, hi: nat)
    requires hi <= n <= |ps|
    ensures LastTypesAt(ps[..n], name, hi) == LastTypesAt(ps, name, hi)
    decreases hi
  {
    if hi > 0 {
      assert ps[..n][hi - 1] == ps[hi - 1];
      LastTypesPrefix(ps, name, n, hi - 1);
    }
  }

  /**
   * Bucket `(scope, version)` exists exactly when some package goes into
   * it, and then holds those packages in their order.
   */
  lemma {:induction false} PartitionBucket(ps: seq<PackageInfo>, scope: string, version: string)
    ensures var b := PartitionOf(ps).buckets;
      scope in b.entries && version in b.entries[scope].entries <==> Bucket(ps, scope, version) != []
    ensures var b := PartitionOf(ps).buckets;
      scope in b.entries && version in b.entries[scope].entries ==> b.entries[scope].entries[version] == Bucket(ps, scope, version)
  {
    if ps != [] {
      var init, last := ps[..|ps| - 1], ps[|ps| - 1];
      PartitionBucket(init, scope, version);
      var part := PartitionOf(init);
      if IsScoped(last.name) && ScopeName(last.name) != "@types" {
        AddScopedAt(part.buckets, ScopeName(last.name), last.latestVersion, last, scope, version);
      }
    }
  }

  /**
   * Every scoped package other than an `@types` one lands in exactly one
   * bucket: the one keyed by its scope and its latest version.
   */
  lemma PackageInOneBucket(ps: seq<PackageInfo>, p: PackageInfo)
    requires p in ps && IsScoped(p.name) && !IsTypesName(p.name)
    ensures var b, scope, version := PartitionOf(ps).buckets, ScopeName(p.name), p.latestVersion;
      scope in b.entries && version in b.entries[scope].entries && p in b.entries[scope].entries[version]
    ensures var b := PartitionOf(ps).buckets;
      forall scope, version | scope in b.entries && version in b.entries[scope].entries && p in b.entries[scope].entries[version] ::
        scope == ScopeName(p.name) && version == p.latestVersion
  {
    var b := PartitionOf(ps).buckets;
    PartitionBucket(ps, ScopeName(p.name), p.latestVersion);
    forall scope, version | scope in b.entries && version in b.entries[scope].entries && p in b.entries[scope].entries[version]
      ensures scope == ScopeName(p.name) && version == p.latestVersion
    {
      PartitionBucket(ps, scope, version);
    }
  }

  /** The unscoped packages are the members of `ps` without a `/`, in order. */
  lemma {:induction false} PartitionUnscoped(ps: seq<PackageInfo>)
    ensures PartitionOf(ps).unscoped == Unscoped(ps)
  {
    if ps != [] {
      PartitionUnscoped(ps[..|ps| - 1]);
    }
  }

  /**
   * `typesPackages[name]` is set exactly when some member is
   * `@types/<name>`, and then holds the last such member.
   */
  lemma {:induction false} PartitionTypes(ps: seq<PackageInfo>, name: string)
    ensures var types, k := PartitionOf(ps).types, LastTypesAt(ps, name, |ps|);
      && (name in types <==> 0 <= k)
      && (name in types ==> types[name] == ps[k])
  {
    if ps != [] {
      var n := |ps| - 1;
      var init := ps[..n];
      PartitionTypes(init, name);
      LastTypesPrefix(ps, name, n, n);
      var before, after := PartitionOf(init).types, PartitionOf(ps).types;
      assert PartitionOf(ps) == Step(PartitionOf(init), ps[n]);
      if IsTypesOf(ps[n], name) {
        assert after == before[name := ps[n]];
      } else {
        assert name in after <==> name in before;
        assert name in after ==> after[name] == before[name];
      }
    }
  }
}
