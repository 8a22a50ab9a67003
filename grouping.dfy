/**
 * `groupDependenciesByScopeAndVersion` of index.js: the outdated
 * dependencies grouped into one pull request per scope and latest
 * version, and one per unscoped package together with its `@types`
 * package.
 */
module Grouping {
  import opened Wrappers
  import opened OrderedMaps
  import opened Versions
  import opened Packages
  import opened Outdated
  import opened Lowest
  import opened Partitions
  import opened Groups
  import opened Sequences

  /** The dependencies form a valid object and the registry knows each of them. */
  predicate Covered(allDependencies: OrderedMap<string>, registry: Registry) {
    allDependencies.Valid() && forall k | k in allDependencies.entries :: k in registry
  }

  /** `allPackagesWithMetadata`: the outdated dependencies as records, in the order of `allDependencies`. */
  function Kept(allDependencies: OrderedMap<string>, registry: Registry): seq<PackageInfo>
    requires Covered(allDependencies, registry)
  {
    OutdatedOf(allDependencies.keys, allDependencies.entries, registry)
  }

  /** The three collections the second loop builds from the kept records. */
  function PartOf(allDependencies: OrderedMap<string>, registry: Registry): Partition
    requires Covered(allDependencies, registry)
  {
    PartitionOf(Kept(allDependencies, registry))
  }

  /**
   * The source runs to completion: every bucket can be emitted and every
   * unscoped package compared with its latest version.
   */
  predicate Groupable(allDependencies: OrderedMap<string>, registry: Registry) {
    && Covered(allDependencies, registry)
    && AllEmittable(PartOf(allDependencies, registry).buckets)
    && AllComparable(PartOf(allDependencies, registry).unscoped)
  }

  /** The groups of the scoped buckets, in visiting order. */
  function ScopedPart(allDependencies: OrderedMap<string>, registry: Registry): seq<Group>
    requires Groupable(allDependencies, registry)
  {
    ScopedGroupsOf(PartOf(allDependencies, registry).buckets)
  }

  /** The groups of the unscoped packages, in their order. */
  function UnscopedPart(allDependencies: OrderedMap<string>, registry: Registry): seq<Group>
    requires Groupable(allDependencies, registry)
  {
    var part := PartOf(allDependencies, registry);
    UnscopedGroupsOf(part.unscoped, part.types)
  }

  /** What `groupDependenciesByScopeAndVersion` resolves to. */
  function Grouped(allDependencies: OrderedMap<string>, registry: Registry): seq<Group>
    requires Groupable(allDependencies, registry)
  {
    ScopedPart(allDependencies, registry) + UnscopedPart(allDependencies, registry)
  }

  /**
   * `groupDependenciesByScopeAndVersion` (index.js), with the registry
   * lookups of `getLatestPackageMetadata` answered by `registry`.
   */
  method GroupDependenciesByScopeAndVersion(allDependencies: OrderedMap<string>, registry: Registry)
    returns (result: seq<Group>)
    requires Groupable(allDependencies, registry)
    ensures result == Grouped(allDependencies, registry)
  {
    var allPackagesWithMetadata := CollectOutdated(allDependencies, registry);
    var packagesKeyedByScopeAndVersion, typesPackages, unscopedPackages := PartitionPackages(allPackagesWithMetadata);
    var scoped := EmitScopedGroups(packagesKeyedByScopeAndVersion);
    var unscoped := EmitUnscopedGroups(unscopedPackages, typesPackages);
    result := scoped + unscoped;
  }

  /**
   * The source runs to completion when every outdated dependency other
   * than an `@types` one declares a range with a digit and has a latest
   * version with one.
   */
  lemma GroupableWhen(allDependencies: OrderedMap<string>, registry: Registry)
    requires Covered(allDependencies, registry)
    requires forall name | name in allDependencies.entries && !IsTypesName(name) &&
               !IsSameVersion(allDependencies.entries[name], registry[name].version) ::
               HasDigit(allDependencies.entries[name]) && HasDigit(registry[name].version)
    ensures Groupable(allDependencies, registry)
  {
    var ps := Kept(allDependencies, registry);
    var part := PartOf(allDependencies, registry);
    forall p | p in ps && !IsTypesName(p.name) ensures HasDigit(p.currentVersion) && HasDigit(p.latestVersion) {
      OutdatedKept(allDependencies.keys, allDependencies.entries, registry, p);
    }
    forall scope, version | scope in part.buckets.entries && version in part.buckets.entries[scope].entries
      ensures Emittable(version, part.buckets.entries[scope].entries[version])
    {
      PartitionBucket(ps, scope, version);
      var bucket := part.buckets.entries[scope].entries[version];
      forall i | 0 <= i < |bucket| ensures HasDigit(bucket[i].currentVersion) && bucket[i].latestVersion == version {
        assert bucket[i] in bucket;
      }
      assert bucket[0] in bucket;
      BucketEmittable(bucket, version);
    }
    PartitionUnscoped(ps);
    forall i | 0 <= i < |part.unscoped| ensures HasDigit(part.unscoped[i].currentVersion) && HasDigit(part.unscoped[i].latestVersion) {
      assert part.unscoped[i] in Unscoped(ps);
    }
  }

  /** A non-empty bucket whose ranges all hold a digit, keyed by a version with one, can be emitted. */
  lemma BucketEmittable(bucket: seq<PackageInfo>, version: string)
    requires bucket != [] && AllVersioned(bucket) && HasDigit(version)
    ensures Emittable(version, bucket)
  {
    AllVersionedFoldable(bucket);
    assert bucket[0].currentVersion != "";
  }

  /** Every member of a bucket of kept packages goes into that bucket and is outdated. */
  lemma KeptBucketSound(allDependencies: OrderedMap<string>, registry: Registry, scope: string, version: string)
    requires Covered(allDependencies, registry)
    ensures BucketSound(scope, version, Bucket(Kept(allDependencies, registry), scope, version))
  {
    var bucket := Bucket(Kept(allDependencies, registry), scope, version);
    forall i | 0 <= i < |bucket|
      ensures InBucket(bucket[i], scope, version) && !IsSameVersion(bucket[i].currentVersion, bucket[i].latestVersion)
    {
      assert bucket[i] in bucket;
      OutdatedKept(allDependencies.keys, allDependencies.entries, registry, bucket[i]);
    }
  }

  /**
   * The `k`th scoped group is the group of the `k`th bucket visited, which
   * holds the kept packages of its scope and latest version, in order.
   */
  lemma ScopedAt(allDependencies: OrderedMap<string>, registry: Registry, k: nat)
    requires Groupable(allDependencies, registry) && k < |ScopedPart(allDependencies, registry)|
    ensures var ps, b := Kept(allDependencies, registry), PartOf(allDependencies, registry).buckets;
      var key := BucketKeys(b, |b.keys|)[k];
      && KeyIn(b, key)
      && b.entries[key.scope].entries[key.version] == Bucket(ps, key.scope, key.version) != []
      && BucketSound(key.scope, key.version, Bucket(ps, key.scope, key.version))
      && ScopedPart(allDependencies, registry)[k] == ScopedGroup(key.scope, key.version, b.entries[key.scope].entries[key.version])
  {
    var ps, b := Kept(allDependencies, registry), PartOf(allDependencies, registry).buckets;
    var key := BucketKeys(b, |b.keys|)[k];
    ScopedGroupsAt(b, k);
    PartitionBucket(ps, key.scope, key.version);
    KeptBucketSound(allDependencies, registry, key.scope, key.version);
  }

  /** The `i`th unscoped group is the group of the `i`th kept unscoped package. */
  lemma UnscopedAt(allDependencies: OrderedMap<string>, registry: Registry, i: nat)
    requires Groupable(allDependencies, registry) && i < |Unscoped(Kept(allDependencies, registry))|
    ensures var ps, part := Kept(allDependencies, registry), PartOf(allDependencies, registry);
      var p := Unscoped(ps)[i];
      && part.unscoped == Unscoped(ps)
      && !IsScoped(p.name) && !IsSameVersion(p.currentVersion, p.latestVersion)
      && HasDigit(p.currentVersion) && HasDigit(p.latestVersion)
      && |UnscopedPart(allDependencies, registry)| == |Unscoped(ps)|
      && UnscopedPart(allDependencies, registry)[i] == UnscopedGroup(p, part.types)
  {
    var ps, part := Kept(allDependencies, registry), PartOf(allDependencies, registry);
    PartitionUnscoped(ps);
    var p := Unscoped(ps)[i];
    assert p in Unscoped(ps);
    OutdatedKept(allDependencies.keys, allDependencies.entries, registry, p);
    UnscopedGroupsAt(part.unscoped, part.types, i);
  }

  /** The result has a group per visited bucket, then one per kept unscoped package. */
  lemma PartsLength(allDependencies: OrderedMap<string>, registry: Registry)
    requires Groupable(allDependencies, registry)
    ensures var b := PartOf(allDependencies, registry).buckets;
      && |ScopedPart(allDependencies, registry)| == |BucketKeys(b, |b.keys|)|
      && |UnscopedPart(allDependencies, registry)| == |Unscoped(Kept(allDependencies, registry))|
  {
    PartitionUnscoped(Kept(allDependencies, registry));
  }

  /** A scoped group is labelled. */
  lemma ScopedLabel(allDependencies: OrderedMap<string>, registry: Registry, k: nat)
    requires Groupable(allDependencies, registry) && k < |ScopedPart(allDependencies, registry)|
    ensures ScopedPart(allDependencies, registry)[k].semverLabel.Some?
  {
    var ps, b := Kept(allDependencies, registry), PartOf(allDependencies, registry).buckets;
    var key := BucketKeys(b, |b.keys|)[k];
    ScopedAt(allDependencies, registry, k);
    ScopedGroupLabel(key.scope, key.version, Bucket(ps, key.scope, key.version));
  }

  /** An unscoped group is labelled. */
  lemma UnscopedLabel(allDependencies: OrderedMap<string>, registry: Registry, i: nat)
    requires Groupable(allDependencies, registry) && i < |UnscopedPart(allDependencies, registry)|
    ensures UnscopedPart(allDependencies, registry)[i].semverLabel.Some?
  {
    PartsLength(allDependencies, registry);
    UnscopedAt(allDependencies, registry, i);
    var part := PartOf(allDependencies, registry);
    UnscopedGroupShape(Unscoped(Kept(allDependencies, registry))[i], part.types);
  }

  /**
   * No group carries a null label: every kept package is outdated, so the
   * lowest version of a bucket, and the version of an unscoped package,
   * differs from the latest version once stripped.
   */
  lemma NoNullLabels(allDependencies: OrderedMap<string>, registry: Registry)
    requires Groupable(allDependencies, registry)
    ensures forall g | g in Grouped(allDependencies, registry) :: g.semverLabel.Some?
  {
    ScopedLabelled(allDependencies, registry);
    UnscopedLabelled(allDependencies, registry);
  }

  lemma ScopedLabelled(allDependencies: OrderedMap<string>, registry: Registry)
    requires Groupable(allDependencies, registry)
    ensures forall g | g in ScopedPart(allDependencies, registry) :: g.semverLabel.Some?
  {
    forall g | g in ScopedPart(allDependencies, registry) ensures g.semverLabel.Some? {
      var k :| 0 <= k < |ScopedPart(allDependencies, registry)| && ScopedPart(allDependencies, registry)[k] == g;
      ScopedLabel(allDependencies, registry, k);
    }
  }

  lemma UnscopedLabelled(allDependencies: OrderedMap<string>, registry: Registry)
    requires Groupable(allDependencies, registry)
    ensures forall g | g in UnscopedPart(allDependencies, registry) :: g.semverLabel.Some?
  {
    forall g | g in UnscopedPart(allDependencies, registry) ensures g.semverLabel.Some? {
      var i :| 0 <= i < |UnscopedPart(allDependencies, registry)| && UnscopedPart(allDependencies, registry)[i] == g;
      UnscopedLabel(allDependencies, registry, i);
    }
  }

  /** The first member of a scoped group is scoped. */
  lemma ScopedLead(allDependencies: OrderedMap<string>, registry: Registry, k: nat)
    requires Groupable(allDependencies, registry) && k < |ScopedPart(allDependencies, registry)|
    ensures ScopedPart(allDependencies, registry)[k].packages != []
    ensures IsScoped(ScopedPart(allDependencies, registry)[k].packages[0].name)
  {
    var ps, b := Kept(allDependencies, registry), PartOf(allDependencies, registry).buckets;
    var key := BucketKeys(b, |b.keys|)[k];
    ScopedAt(allDependencies, registry, k);
    assert InBucket(Bucket(ps, key.scope, key.version)[0], key.scope, key.version);
  }

  /** The first member of the `i`th unscoped group is the `i`th kept unscoped package. */
  lemma UnscopedLead(allDependencies: OrderedMap<string>, registry: Registry, i: nat)
    requires Groupable(allDependencies, registry) && i < |Unscoped(Kept(allDependencies, registry))|
    ensures |UnscopedPart(allDependencies, registry)| == |Unscoped(Kept(allDependencies, registry))|
    ensures UnscopedPart(allDependencies, registry)[i].packages != []
    ensures UnscopedPart(allDependencies, registry)[i].packages[0] == Unscoped(Kept(allDependencies, registry))[i]
    ensures !IsScoped(UnscopedPart(allDependencies, registry)[i].packages[0].name)
  {
    UnscopedAt(allDependencies, registry, i);
    var part := PartOf(allDependencies, registry);
    UnscopedGroupShape(Unscoped(Kept(allDependencies, registry))[i], part.types);
  }

  /**
   * Scoped groups come first: the result is the scoped groups, each led
   * by a scoped package, followed by the unscoped groups, the `i`th led
   * by the `i`th kept unscoped package.
   */
  lemma ScopedFirst(allDependencies: OrderedMap<string>, registry: Registry)
    requires Groupable(allDependencies, registry)
    ensures Grouped(allDependencies, registry) == ScopedPart(allDependencies, registry) + UnscopedPart(allDependencies, registry)
    ensures |UnscopedPart(allDependencies, registry)| == |Unscoped(Kept(allDependencies, registry))|
    ensures forall k | 0 <= k < |ScopedPart(allDependencies, registry)| ::
      ScopedPart(allDependencies, registry)[k].packages != [] && IsScoped(ScopedPart(allDependencies, registry)[k].packages[0].name)
    ensures forall i | 0 <= i < |Unscoped(Kept(allDependencies, registry))| ::
      && UnscopedPart(allDependencies, registry)[i].packages != []
      && UnscopedPart(allDependencies, registry)[i].packages[0] == Unscoped(Kept(allDependencies, registry))[i]
      && !IsScoped(UnscopedPart(allDependencies, registry)[i].packages[0].name)
  {
    PartsLength(allDependencies, registry);
    forall k | 0 <= k < |ScopedPart(allDependencies, registry)|
      ensures ScopedPart(allDependencies, registry)[k].packages != [] && IsScoped(ScopedPart(allDependencies, registry)[k].packages[0].name)
    {
      ScopedLead(allDependencies, registry, k);
    }
    forall i | 0 <= i < |Unscoped(Kept(allDependencies, registry))|
      ensures && UnscopedPart(allDependencies, registry)[i].packages != []
              && UnscopedPart(allDependencies, registry)[i].packages[0] == Unscoped(Kept(allDependencies, registry))[i]
              && !IsScoped(UnscopedPart(allDependencies, registry)[i].packages[0].name)
    {
      UnscopedLead(allDependencies, registry, i);
    }
  }

  /** A record is in a scoped group exactly when it is kept and goes into that group's bucket. */
  lemma ScopedMembers(allDependencies: OrderedMap<string>, registry: Registry, k: nat, p: PackageInfo)
    requires Groupable(allDependencies, registry) && k < |ScopedPart(allDependencies, registry)|
    ensures var b := PartOf(allDependencies, registry).buckets;
      var key := BucketKeys(b, |b.keys|)[k];
      p in ScopedPart(allDependencies, registry)[k].packages <==> p in Kept(allDependencies, registry) && InBucket(p, key.scope, key.version)
  {
    ScopedAt(allDependencies, registry, k);
  }

  /**
   * The members of an unscoped group: its package, followed by the last
   * kept `@types/<name>` record when there is one.
   */
  lemma UnscopedMembers(allDependencies: OrderedMap<string>, registry: Registry, i: nat)
    requires Groupable(allDependencies, registry) && i < |Unscoped(Kept(allDependencies, registry))|
    ensures |UnscopedPart(allDependencies, registry)| == |Unscoped(Kept(allDependencies, registry))|
    ensures var ps := Kept(allDependencies, registry);
      var q := Unscoped(ps)[i];
      var t := LastTypesAt(ps, q.name, |ps|);
      && !IsScoped(q.name)
      && UnscopedPart(allDependencies, registry)[i].packages == (if 0 <= t then [q, ps[t]] else [q])
      && UnscopedPart(allDependencies, registry)[i].displayName == q.name
  {
    var ps, part := Kept(allDependencies, registry), PartOf(allDependencies, registry);
    UnscopedAt(allDependencies, registry, i);
    var q := Unscoped(ps)[i];
    UnscopedGroupShape(q, part.types);
    PartitionTypes(ps, q.name);
  }

  /** The group of `q` holds no record other than `q` that is not an `@types/<q.name>` record. */
  lemma CompanionsExclude(ps: seq<PackageInfo>, q: PackageInfo, p: PackageInfo)
    requires p != q && !IsTypesOf(p, q.name)
    ensures var t := LastTypesAt(ps, q.name, |ps|);
      p !in (if 0 <= t then [q, ps[t]] else [q])
  {
  }

  /** An unscoped group holds no scoped record other than an `@types` one. */
  lemma UnscopedExcludes(allDependencies: OrderedMap<string>, registry: Registry, i: nat, p: PackageInfo)
    requires Groupable(allDependencies, registry) && i < |UnscopedPart(allDependencies, registry)|
    requires IsScoped(p.name) && !IsTypesName(p.name)
    ensures p !in UnscopedPart(allDependencies, registry)[i].packages
  {
    var ps := Kept(allDependencies, registry);
    PartsLength(allDependencies, registry);
    UnscopedMembers(allDependencies, registry, i);
    CompanionsExclude(ps, Unscoped(ps)[i], p);
  }

  /** Every key of the partition is visited. */
  lemma KeyVisited(allDependencies: OrderedMap<string>, registry: Registry, key: BucketKey) returns (k: nat)
    requires Groupable(allDependencies, registry)
    requires KeyIn(PartOf(allDependencies, registry).buckets, key)
    ensures var b := PartOf(allDependencies, registry).buckets;
      k < |ScopedPart(allDependencies, registry)| && BucketKeys(b, |b.keys|)[k] == key
  {
    var b := PartOf(allDependencies, registry).buckets;
    var s :| 0 <= s < |b.keys| && b.keys[s] == key.scope;
    BucketKeysComplete(b, |b.keys|, key, s);
    var keys := BucketKeys(b, |b.keys|);
    k :| 0 <= k < |keys| && keys[k] == key;
  }

  /** Different positions of the scoped part belong to different buckets. */
  lemma KeysApart(allDependencies: OrderedMap<string>, registry: Registry, j: nat, k: nat)
    requires Groupable(allDependencies, registry)
    requires j < |ScopedPart(allDependencies, registry)| && k < |ScopedPart(allDependencies, registry)| && j != k
    ensures var b := PartOf(allDependencies, registry).buckets;
      BucketKeys(b, |b.keys|)[j] != BucketKeys(b, |b.keys|)[k]
  {
    var b := PartOf(allDependencies, registry).buckets;
    BucketKeysDistinct(b, |b.keys|);
    if j < k {
      DistinctIndices(BucketKeys(b, |b.keys|), j, k);
    } else {
      DistinctIndices(BucketKeys(b, |b.keys|), k, j);
    }
  }

  /**
   * Every kept scoped package other than an `@types` one lands in exactly
   * one group: the scoped group of the bucket keyed by its scope and its
   * latest version, which holds that bucket's members in order. No
   * unscoped group holds it.
   */
  lemma ScopedPlacement(allDependencies: OrderedMap<string>, registry: Registry, p: PackageInfo)
    requires Groupable(allDependencies, registry)
    requires p in Kept(allDependencies, registry) && IsScoped(p.name) && !IsTypesName(p.name)
    ensures exists k | 0 <= k < |ScopedPart(allDependencies, registry)| ::
      && ScopedPart(allDependencies, registry)[k].packages == Bucket(Kept(allDependencies, registry), ScopeName(p.name), p.latestVersion)
      && forall j | 0 <= j < |ScopedPart(allDependencies, registry)| :: p in ScopedPart(allDependencies, registry)[j].packages <==> j == k
    ensures forall i | 0 <= i < |UnscopedPart(allDependencies, registry)| :: p !in UnscopedPart(allDependencies, registry)[i].packages
  {
    ScopedHome(allDependencies, registry, p);
    forall i | 0 <= i < |UnscopedPart(allDependencies, registry)| ensures p !in UnscopedPart(allDependencies, registry)[i].packages {
      UnscopedExcludes(allDependencies, registry, i, p);
    }
  }

  lemma ScopedHome(allDependencies: OrderedMap<string>, registry: Registry, p: PackageInfo)
    requires Groupable(allDependencies, registry)
    requires p in Kept(allDependencies, registry) && IsScoped(p.name) && !IsTypesName(p.name)
    ensures exists k | 0 <= k < |ScopedPart(allDependencies, registry)| ::
      && ScopedPart(allDependencies, registry)[k].packages == Bucket(Kept(allDependencies, registry), ScopeName(p.name), p.latestVersion)
      && forall j | 0 <= j < |ScopedPart(allDependencies, registry)| :: p in ScopedPart(allDependencies, registry)[j].packages <==> j == k
  {
    var ps := Kept(allDependencies, registry);
    var key := BucketKey(ScopeName(p.name), p.latestVersion);
    PackageInOneBucket(ps, p);
    var k := KeyVisited(allDependencies, registry, key);
    ScopedAt(allDependencies, registry, k);
    forall j | 0 <= j < |ScopedPart(allDependencies, registry)|
      ensures p in ScopedPart(allDependencies, registry)[j].packages <==> j == k
    {
      if j != k {
        KeysApart(allDependencies, registry, j, k);
      }
      ScopedMembers(allDependencies, registry, j, p);
    }
  }

  /** No two unscoped groups are built for the same record: the dependency names are distinct. */
  lemma UnscopedApart(allDependencies: OrderedMap<string>, registry: Registry, i: nat, j: nat)
    requires Covered(allDependencies, registry)
    requires i < |Unscoped(Kept(allDependencies, registry))| && j < |Unscoped(Kept(allDependencies, registry))| && i != j
    ensures Unscoped(Kept(allDependencies, registry))[i] != Unscoped(Kept(allDependencies, registry))[j]
  {
    var ps := Kept(allDependencies, registry);
    OutdatedDistinct(allDependencies.keys, allDependencies.entries, registry);
    DistinctByName(ps);
    UnscopedDistinct(ps);
    if i < j {
      DistinctIndices(Unscoped(ps), i, j);
    } else {
      DistinctIndices(Unscoped(ps), j, i);
    }
  }

  /** The group of another unscoped package does not hold this one. */
  lemma UnscopedElsewhere(allDependencies: OrderedMap<string>, registry: Registry, i: nat, j: nat)
    requires Groupable(allDependencies, registry)
    requires i < |Unscoped(Kept(allDependencies, registry))| && j < |Unscoped(Kept(allDependencies, registry))| && i != j
    ensures |UnscopedPart(allDependencies, registry)| == |Unscoped(Kept(allDependencies, registry))|
    ensures Unscoped(Kept(allDependencies, registry))[i] !in UnscopedPart(allDependencies, registry)[j].packages
  {
    var ps := Kept(allDependencies, registry);
    UnscopedMembers(allDependencies, registry, j);
    UnscopedApart(allDependencies, registry, i, j);
    assert Unscoped(ps)[i] in Unscoped(ps);
    CompanionsExclude(ps, Unscoped(ps)[j], Unscoped(ps)[i]);
  }

  /**
   * Every kept unscoped package gets exactly one group, and it is that
   * group's first member; a second member is present exactly when an
   * `@types/<name>` record was kept, and it is the last such record.
   */
  lemma UnscopedPlacement(allDependencies: OrderedMap<string>, registry: Registry, i: nat)
    requires Groupable(allDependencies, registry) && i < |Unscoped(Kept(allDependencies, registry))|
    ensures |UnscopedPart(allDependencies, registry)| == |Unscoped(Kept(allDependencies, registry))|
    ensures var ps := Kept(allDependencies, registry);
      var p := Unscoped(ps)[i];
      var t := LastTypesAt(ps, p.name, |ps|);
      UnscopedPart(allDependencies, registry)[i].packages == (if 0 <= t then [p, ps[t]] else [p])
    ensures forall k | 0 <= k < |ScopedPart(allDependencies, registry)| ::
      Unscoped(Kept(allDependencies, registry))[i] !in ScopedPart(allDependencies, registry)[k].packages
    ensures forall j | 0 <= j < |Unscoped(Kept(allDependencies, registry))| ::
      Unscoped(Kept(allDependencies, registry))[i] in UnscopedPart(allDependencies, registry)[j].packages <==> j == i
  {
    UnscopedMembers(allDependencies, registry, i);
    UnscopedNotScoped(allDependencies, registry, i);
    UnscopedOnce(allDependencies, registry, i);
  }

  lemma UnscopedNotScoped(allDependencies: OrderedMap<string>, registry: Registry, i: nat)
    requires Groupable(allDependencies, registry) && i < |Unscoped(Kept(allDependencies, registry))|
    ensures forall k | 0 <= k < |ScopedPart(allDependencies, registry)| ::
      Unscoped(Kept(allDependencies, registry))[i] !in ScopedPart(allDependencies, registry)[k].packages
  {
    assert Unscoped(Kept(allDependencies, registry))[i] in Unscoped(Kept(allDependencies, registry));
    forall k | 0 <= k < |ScopedPart(allDependencies, registry)|
      ensures Unscoped(Kept(allDependencies, registry))[i] !in ScopedPart(allDependencies, registry)[k].packages
    {
      ScopedMembers(allDependencies, registry, k, Unscoped(Kept(allDependencies, registry))[i]);
    }
  }

  lemma UnscopedOnce(allDependencies: OrderedMap<string>, registry: Registry, i: nat)
    requires Groupable(allDependencies, registry) && i < |Unscoped(Kept(allDependencies, registry))|
    ensures |UnscopedPart(allDependencies, registry)| == |Unscoped(Kept(allDependencies, registry))|
    ensures forall j | 0 <= j < |Unscoped(Kept(allDependencies, registry))| ::
      Unscoped(Kept(allDependencies, registry))[i] in UnscopedPart(allDependencies, registry)[j].packages <==> j == i
  {
    PartsLength(allDependencies, registry);
    forall j | 0 <= j < |Unscoped(Kept(allDependencies, registry))|
      ensures Unscoped(Kept(allDependencies, registry))[i] in UnscopedPart(allDependencies, registry)[j].packages <==> j == i
    {
      if j == i {
        UnscopedMembers(allDependencies, registry, i);
      } else {
        UnscopedElsewhere(allDependencies, registry, i, j);
      }
    }
  }

  /** `p` is the last kept `@types/<name>` record for the unscoped package `q`. */
  predicate TypesFor(ps: seq<PackageInfo>, q: PackageInfo, p: PackageInfo) {
    var t := LastTypesAt(ps, q.name, |ps|);
    0 <= t && p == ps[t] && NameWithoutScope(p.name) == q.name
  }

  /** An `@types` record is among an unscoped package's members exactly when it is the one attached to it. */
  lemma TypesAmong(ps: seq<PackageInfo>, q: PackageInfo, p: PackageInfo)
    requires !IsScoped(q.name) && IsTypesName(p.name)
    ensures var t := LastTypesAt(ps, q.name, |ps|);
      p in (if 0 <= t then [q, ps[t]] else [q]) <==> TypesFor(ps, q, p)
  {
  }

  /** The members of an unscoped group that are `@types` records. */
  lemma TypesAt(allDependencies: OrderedMap<string>, registry: Registry, i: nat, p: PackageInfo)
    requires Groupable(allDependencies, registry) && IsTypesName(p.name)
    requires i < |Unscoped(Kept(allDependencies, registry))|
    ensures |UnscopedPart(allDependencies, registry)| == |Unscoped(Kept(allDependencies, registry))|
    ensures p in UnscopedPart(allDependencies, registry)[i].packages <==>
      TypesFor(Kept(allDependencies, registry), Unscoped(Kept(allDependencies, registry))[i], p)
  {
    var ps := Kept(allDependencies, registry);
    UnscopedMembers(allDependencies, registry, i);
    TypesAmong(ps, Unscoped(ps)[i], p);
  }

  /**
   * An `@types/<name>` record is in no scoped group, and is the second
   * member of the group of the unscoped package `<name>` exactly when it
   * is the last kept `@types/<name>` record.
   */
  lemma TypesPlacement(allDependencies: OrderedMap<string>, registry: Registry, p: PackageInfo)
    requires Groupable(allDependencies, registry) && IsTypesName(p.name)
    ensures |UnscopedPart(allDependencies, registry)| == |Unscoped(Kept(allDependencies, registry))|
    ensures forall k | 0 <= k < |ScopedPart(allDependencies, registry)| :: p !in ScopedPart(allDependencies, registry)[k].packages
    ensures forall i | 0 <= i < |Unscoped(Kept(allDependencies, registry))| ::
      p in UnscopedPart(allDependencies, registry)[i].packages <==>
        TypesFor(Kept(allDependencies, registry), Unscoped(Kept(allDependencies, registry))[i], p)
  {
    PartsLength(allDependencies, registry);
    TypesNotScoped(allDependencies, registry, p);
    TypesInUnscoped(allDependencies, registry, p);
  }

  lemma TypesNotScoped(allDependencies: OrderedMap<string>, registry: Registry, p: PackageInfo)
    requires Groupable(allDependencies, registry) && IsTypesName(p.name)
    ensures forall k | 0 <= k < |ScopedPart(allDependencies, registry)| :: p !in ScopedPart(allDependencies, registry)[k].packages
  {
    forall k | 0 <= k < |ScopedPart(allDependencies, registry)| ensures p !in ScopedPart(allDependencies, registry)[k].packages {
      ScopedMembers(allDependencies, registry, k, p);
    }
  }

  lemma TypesInUnscoped(allDependencies: OrderedMap<string>, registry: Registry, p: PackageInfo)
    requires Groupable(allDependencies, registry) && IsTypesName(p.name)
    ensures |UnscopedPart(allDependencies, registry)| == |Unscoped(Kept(allDependencies, registry))|
    ensures forall i | 0 <= i < |Unscoped(Kept(allDependencies, registry))| ::
      p in UnscopedPart(allDependencies, registry)[i].packages <==>
        TypesFor(Kept(allDependencies, registry), Unscoped(Kept(allDependencies, registry))[i], p)
  {
    PartsLength(allDependencies, registry);
    forall i | 0 <= i < |Unscoped(Kept(allDependencies, registry))|
      ensures p in UnscopedPart(allDependencies, registry)[i].packages <==>
        TypesFor(Kept(allDependencies, registry), Unscoped(Kept(allDependencies, registry))[i], p)
    {
      TypesAt(allDependencies, registry, i, p);
    }
  }

  /**
   * An `@types/<name>` record that no kept unscoped package `<name>`
   * matches is in no group.
   */
  lemma UnmatchedTypes(allDependencies: OrderedMap<string>, registry: Registry, p: PackageInfo)
    requires Groupable(allDependencies, registry) && IsTypesName(p.name)
    requires forall q | q in Kept(allDependencies, registry) && !IsScoped(q.name) :: q.name != NameWithoutScope(p.name)
    ensures forall g | g in Grouped(allDependencies, registry) :: p !in g.packages
  {
    TypesNotScoped(allDependencies, registry, p);
    PartsLength(allDependencies, registry);
    forall i | 0 <= i < |UnscopedPart(allDependencies, registry)| ensures p !in UnscopedPart(allDependencies, registry)[i].packages {
      TypesAt(allDependencies, registry, i, p);
      assert Unscoped(Kept(allDependencies, registry))[i] in Unscoped(Kept(allDependencies, registry));
    }
    ExcludedFromParts(ScopedPart(allDependencies, registry), UnscopedPart(allDependencies, registry), p);
  }

  /** A record in no group of either part is in no group of their concatenation. */
  lemma ExcludedFromParts(xs: seq<Group>, ys: seq<Group>, p: PackageInfo)
    requires forall k | 0 <= k < |xs| :: p !in xs[k].packages
    requires forall i | 0 <= i < |ys| :: p !in ys[i].packages
    ensures forall g | g in xs + ys :: p !in g.packages
  {
    forall g | g in xs + ys ensures p !in g.packages {
      if g in xs {
        var k :| 0 <= k < |xs| && xs[k] == g;
      } else {
        var i :| 0 <= i < |ys| && ys[i] == g;
      }
    }
  }

  /**
   * A scoped group is titled `<scope> packages` exactly when it has more
   * than one member.
   */
  lemma ScopedTitle(allDependencies: OrderedMap<string>, registry: Registry, k: nat)
    requires Groupable(allDependencies, registry) && k < |ScopedPart(allDependencies, registry)|
    ensures var g := ScopedPart(allDependencies, registry)[k];
      g.displayName == g.scope + " packages" <==> |g.packages| > 1
  {
    var ps, b := Kept(allDependencies, registry), PartOf(allDependencies, registry).buckets;
    var key := BucketKeys(b, |b.keys|)[k];
    ScopedAt(allDependencies, registry, k);
    ScopedDisplayName(key.scope, key.version, Bucket(ps, key.scope, key.version));
  }

  /**
   * The current version of a scoped group is the stripped range of one of
   * its members, and its numbers are no greater than any member's.
   */
  lemma ScopedCurrent(allDependencies: OrderedMap<string>, registry: Registry, k: nat)
    requires Groupable(allDependencies, registry) && k < |ScopedPart(allDependencies, registry)|
    ensures var g := ScopedPart(allDependencies, registry)[k];
      && HasDigit(g.groupCurrentVersion)
      && (exists i | 0 <= i < |g.packages| :: Some(g.groupCurrentVersion) == Bare(g.packages[i].currentVersion))
      && forall i | 0 <= i < |g.packages| && HasDigit(g.packages[i].currentVersion) ::
           LessOrEqual(Numeric(g.groupCurrentVersion), Numeric(g.packages[i].currentVersion))
  {
    var ps, b := Kept(allDependencies, registry), PartOf(allDependencies, registry).buckets;
    var key := BucketKeys(b, |b.keys|)[k];
    ScopedAt(allDependencies, registry, k);
    var bucket := Bucket(ps, key.scope, key.version);
    ScopedGroupCurrent(key.scope, key.version, bucket);
    assert ScopedPart(allDependencies, registry)[k].packages == bucket;
  }
}
