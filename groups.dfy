/**
 * The third and fourth phases of `groupDependenciesByScopeAndVersion`
 * (index.js): one group per scoped bucket, then one group per unscoped
 * package, each carrying its label, names, slug and pull-request text.
 */
module Groups {
  import opened Wrappers
  import opened OrderedMaps
  import opened Versions
  import opened Packages
  import opened Slugs
  import opened PullRequests
  import opened Lowest
  import opened Partitions
  import opened Sequences

  /** An element of the result: `{ packages, scope, groupCurrentVersion, … }`; a None label is `null`. */
  datatype Group = Group(
    packages: seq<PackageInfo>,
    scope: string,
    groupCurrentVersion: string,
    groupLatestVersion: string,
    semverLabel: Option<Semver>,
    displayName: string,
    slug: string,
    prBody: string)

  /**
   * A bucket the source turns into a group without throwing: the fold
   * over its members succeeds, the first non-empty range it meets holds a
   * digit (so the fold ends on one), and the key holds a digit, so that
   * `compareCurrentAndLatestVersions` can read both.
   */
  predicate Emittable(version: string, packages: seq<PackageInfo>) {
    && Foldable(packages)
    && FirstDeclared(packages, 0) < |packages|
    && HasDigit(packages[FirstDeclared(packages, 0)].currentVersion)
    && HasDigit(version)
  }

  /** The lowest version of an emittable bucket holds a digit. */
  lemma EmittableLowest(version: string, packages: seq<PackageInfo>)
    requires Emittable(version, packages)
    ensures packages != [] && HasDigit(LowestOf(packages))
  {
    LowestBelow(packages, FirstDeclared(packages, 0));
  }

  /** The group pushed for bucket `(scope, version)` at lines 151-169. */
  function ScopedGroup(scope: string, version: string, packages: seq<PackageInfo>): Group
    requires Emittable(version, packages)
  {
    EmittableLowest(version, packages);
    var cmp := CompareCurrentAndLatestVersions(LowestOf(packages), version);
    var many := |packages| > 1;
    Group(
      packages,
      scope,
      cmp.current,
      cmp.latest,
      cmp.semver,
      if many then scope + " packages" else packages[0].name,
      GetSlug(if many then scope else packages[0].name, cmp.latest),
      Body(packages))
  }

  /** The members of the group of an unscoped package: it, then its `@types` package if one was kept. */
  function UnscopedMembers(p: PackageInfo, types: map<string, PackageInfo>): seq<PackageInfo> {
    if p.name in types then [p, types[p.name]] else [p]
  }

  /** The group pushed for an unscoped package at lines 173-193. */
  function UnscopedGroup(p: PackageInfo, types: map<string, PackageInfo>): Group
    requires HasDigit(p.currentVersion) && HasDigit(p.latestVersion)
  {
    var packages := UnscopedMembers(p, types);
    var cmp := CompareCurrentAndLatestVersions(p.currentVersion, p.latestVersion);
    Group(packages, "", cmp.current, cmp.latest, cmp.semver, p.name, GetSlug(p.name, cmp.latest), Body(packages))
  }

  /** Every bucket of one scope can be emitted. */
  predicate ScopeEmittable(inner: OrderedMap<seq<PackageInfo>>) {
    forall version | version in inner.entries :: Emittable(version, inner.entries[version])
  }

  /** Every bucket can be emitted. */
  predicate AllEmittable(b: Buckets) {
    forall scope | scope in b.entries :: ScopeEmittable(b.entries[scope])
  }

  /** The key of one bucket: `packagesKeyedByScopeAndVersion[scope][version]`. */
  datatype BucketKey = BucketKey(scope: string, version: string)

  /** `key` names a bucket of `b`. */
  predicate KeyIn(b: Buckets, key: BucketKey) {
    key.scope in b.entries && key.version in b.entries[key.scope].entries
  }

  predicate KeysIn(b: Buckets, keys: seq<BucketKey>) {
    forall k | 0 <= k < |keys| :: KeyIn(b, keys[k])
  }

  function KeyOf(scope: string): string -> BucketKey {
    (version: string) => BucketKey(scope, version)
  }

  /** The keys of the buckets of `scope`, given its versions in order. */
  function ScopeKeys(scope: string, versions: seq<string>): (r: seq<BucketKey>)
    ensures |r| == |versions|
    ensures forall j | 0 <= j < |versions| :: r[j] == BucketKey(scope, versions[j])
  {
    Map(KeyOf(scope), versions)
  }

  /** Every scope in the order of `b` has its versions. */
  predicate ScopesListed(b: Buckets) {
    forall i | 0 <= i < |b.keys| :: b.keys[i] in b.entries
  }

  /** What of `BucketsValid` the visiting order needs: every scope and every version of one is listed. */
  predicate Listed(b: Buckets) {
    && ScopesListed(b)
    && forall scope, version | scope in b.entries && version in b.entries[scope].entries :: version in b.entries[scope].keys
  }

  /**
   * The order in which lines 149-170 visit the buckets of the first `n`
   * scopes: scopes in insertion order, each scope's versions in theirs.
   */
  function BucketKeys(b: Buckets, n: nat): seq<BucketKey>
    requires ScopesListed(b) && n <= |b.keys|
  {
    if n == 0 then []
    else
      var scope := b.keys[n - 1];
      BucketKeys(b, n - 1) + ScopeKeys(scope, b.entries[scope].keys)
  }

  /** Every key of `keys` names a bucket of `b`, of a scope among `scopes`. */
  predicate KeysWithin(b: Buckets, keys: seq<BucketKey>, scopes: seq<string>) {
    forall k | 0 <= k < |keys| :: KeyIn(b, keys[k]) && keys[k].scope in scopes
  }

  lemma KeysWithinConcat(b: Buckets, xs: seq<BucketKey>, ys: seq<BucketKey>, scopes: seq<string>)
    requires KeysWithin(b, xs, scopes) && KeysWithin(b, ys, scopes)
    ensures KeysWithin(b, xs + ys, scopes)
  {
    forall k | |xs| <= k < |xs + ys| ensures (xs + ys)[k] == ys[k - |xs|] { }
  }

  lemma KeysWithinWider(b: Buckets, keys: seq<BucketKey>, scopes: seq<string>, wider: seq<string>)
    requires KeysWithin(b, keys, scopes) && scopes <= wider
    ensures KeysWithin(b, keys, wider)
  {
    forall k | 0 <= k < |keys| ensures keys[k].scope in wider {
      var i :| 0 <= i < |scopes| && scopes[i] == keys[k].scope;
      assert wider[i] == scopes[i];
    }
  }

  /** The keys of a scope of `b` name its buckets. */
  lemma ScopeKeysWithin(b: Buckets, scope: string, scopes: seq<string>)
    requires BucketsValid(b) && scope in b.entries && scope in scopes
    ensures KeysWithin(b, ScopeKeys(scope, b.entries[scope].keys), scopes)
  {
  }

  /** Every visited key names a bucket, of one of the first `n` scopes. */
  lemma {:induction false} BucketKeysIn(b: Buckets, n: nat)
    requires BucketsValid(b) && n <= |b.keys|
    ensures KeysWithin(b, BucketKeys(b, n), b.keys[..n])
  {
    if n > 0 {
      var scope := b.keys[n - 1];
      var before, keys := BucketKeys(b, n - 1), ScopeKeys(scope, b.entries[scope].keys);
      BucketKeysIn(b, n - 1);
      KeysWithinWider(b, before, b.keys[..n - 1], b.keys[..n]);
      assert b.keys[..n][n - 1] == scope;
      ScopeKeysWithin(b, scope, b.keys[..n]);
      KeysWithinConcat(b, before, keys, b.keys[..n]);
    }
  }

  /** Every bucket of the `s`th scope is visited once the first `n` scopes, `s < n`, are. */
  lemma {:induction false} BucketKeysComplete(b: Buckets, n: nat, key: BucketKey, s: nat)
    requires Listed(b) && s < n <= |b.keys| && KeyIn(b, key) && b.keys[s] == key.scope
    ensures key in BucketKeys(b, n)
  {
    if s == n - 1 {
      BucketKeysLast(b, n, key);
    } else {
      BucketKeysComplete(b, n - 1, key, s);
      BucketKeysGrow(b, n, key);
    }
  }

  /** The buckets of the `n`th scope are visited among the first `n` scopes'. */
  lemma BucketKeysLast(b: Buckets, n: nat, key: BucketKey)
    requires Listed(b) && 0 < n <= |b.keys| && KeyIn(b, key) && key.scope == b.keys[n - 1]
    ensures key in BucketKeys(b, n)
  {
    var scope := b.keys[n - 1];
    ScopeKeysComplete(scope, b.entries[scope].keys, key.version);
    InConcat(BucketKeys(b, n - 1), ScopeKeys(scope, b.entries[scope].keys), key);
  }

  /** A key visited among the first `n - 1` scopes is visited among the first `n`. */
  lemma BucketKeysGrow(b: Buckets, n: nat, key: BucketKey)
    requires ScopesListed(b) && 0 < n <= |b.keys| && key in BucketKeys(b, n - 1)
    ensures key in BucketKeys(b, n)
  {
    var scope := b.keys[n - 1];
    InConcat(BucketKeys(b, n - 1), ScopeKeys(scope, b.entries[scope].keys), key);
  }

  lemma ScopeKeysComplete(scope: string, versions: seq<string>, version: string)
    requires version in versions
    ensures BucketKey(scope, version) in ScopeKeys(scope, versions)
  {
    var j :| 0 <= j < |versions| && versions[j] == version;
    assert ScopeKeys(scope, versions)[j] == BucketKey(scope, version);
  }

  /** The keys of one scope are distinct, as its versions are. */
  lemma {:induction false} ScopeKeysDistinct(scope: string, versions: seq<string>)
    requires Distinct(versions)
    ensures Distinct(ScopeKeys(scope, versions))
  {
    var r := ScopeKeys(scope, versions);
    if versions != [] {
      var n := |versions| - 1;
      ScopeKeysDistinct(scope, versions[..n]);
      assert r[..n] == ScopeKeys(scope, versions[..n]);
    }
  }

  /** No bucket is visited twice. */
  lemma {:induction false} BucketKeysDistinct(b: Buckets, n: nat)
    requires BucketsValid(b) && n <= |b.keys|
    ensures Distinct(BucketKeys(b, n))
  {
    if n > 0 {
      BucketKeysDistinct(b, n - 1);
      var scope := b.keys[n - 1];
      var before, keys := BucketKeys(b, n - 1), ScopeKeys(scope, b.entries[scope].keys);
      ScopeKeysDistinct(scope, b.entries[scope].keys);
      ScopeKeysFresh(b, n);
      DistinctConcat(before, keys);
    }
  }

  /** The keys of the `n`th scope are not among the keys of the scopes before it. */
  lemma ScopeKeysFresh(b: Buckets, n: nat)
    requires BucketsValid(b) && 0 < n <= |b.keys|
    ensures var scope := b.keys[n - 1];
      forall k | 0 <= k < |b.entries[scope].keys| :: ScopeKeys(scope, b.entries[scope].keys)[k] !in BucketKeys(b, n - 1)
  {
    var scope := b.keys[n - 1];
    var keys := ScopeKeys(scope, b.entries[scope].keys);
    BucketKeysIn(b, n - 1);
    DistinctPrefix(b.keys, n - 1);
    forall k | 0 <= k < |keys| ensures keys[k] !in BucketKeys(b, n - 1) {
      NotInByScope(BucketKeys(b, n - 1), b.keys[..n - 1], keys[k]);
    }
  }

  lemma NotInByScope(keys: seq<BucketKey>, scopes: seq<string>, key: BucketKey)
    requires forall i | 0 <= i < |keys| :: keys[i].scope in scopes
    requires key.scope !in scopes
    ensures key !in keys
  {
  }

  /** `key => group`: the group lines 151-169 push for one bucket. */
  function BucketGroup(b: Buckets): BucketKey --> Group
    requires BucketsValid(b) && AllEmittable(b)
  {
    (key: BucketKey) requires KeyIn(b, key) =>
      ScopedGroup(key.scope, key.version, b.entries[key.scope].entries[key.version])
  }

  /** The groups lines 149-170 push: one per bucket, in visiting order. */
  function ScopedGroupsOf(b: Buckets): (r: seq<Group>)
    requires BucketsValid(b) && AllEmittable(b)
    ensures |r| == |BucketKeys(b, |b.keys|)|
  {
    BucketKeysIn(b, |b.keys|);
    Map(BucketGroup(b), BucketKeys(b, |b.keys|))
  }

  /** The `k`th scoped group is the group of the `k`th bucket visited. */
  lemma ScopedGroupsAt(b: Buckets, k: nat)
    requires BucketsValid(b) && AllEmittable(b) && k < |BucketKeys(b, |b.keys|)|
    ensures var key := BucketKeys(b, |b.keys|)[k];
      && KeyIn(b, key)
      && ScopedGroupsOf(b)[k] == ScopedGroup(key.scope, key.version, b.entries[key.scope].entries[key.version])
  {
    var keys := BucketKeys(b, |b.keys|);
    BucketKeysIn(b, |b.keys|);
    assert ScopedGroupsOf(b) == Map(BucketGroup(b), keys);
    MapAt(BucketGroup(b), keys, k);
    BucketGroupAt(b, keys[k]);
  }

  lemma BucketGroupAt(b: Buckets, key: BucketKey)
    requires BucketsValid(b) && AllEmittable(b) && KeyIn(b, key)
    ensures BucketGroup(b)(key) == ScopedGroup(key.scope, key.version, b.entries[key.scope].entries[key.version])
  {
  }

  /** `groups` are the groups of the buckets `visited`, in order. */
  predicate Pushed(b: Buckets, visited: seq<BucketKey>, groups: seq<Group>)
    requires BucketsValid(b) && AllEmittable(b)
  {
    KeysIn(b, visited) && groups == Map(BucketGroup(b), visited)
  }

  /** Lines 149-170 of index.js: a group per bucket, scopes and versions in insertion order. */
  method EmitScopedGroups(packagesKeyedByScopeAndVersion: Buckets) returns (result: seq<Group>)
    requires BucketsValid(packagesKeyedByScopeAndVersion) && AllEmittable(packagesKeyedByScopeAndVersion)
    ensures result == ScopedGroupsOf(packagesKeyedByScopeAndVersion)
  {
    var b := packagesKeyedByScopeAndVersion;
    result := [];
    for i := 0 to |b.keys|
      invariant Pushed(b, BucketKeys(b, i), result)
    {
      result := EmitScope(b, i, result);
    }
  }

  /** The inner loop of lines 150-169: the groups of the `i`th scope's buckets pushed, versions in insertion order. */
  method EmitScope(b: Buckets, i: nat, result: seq<Group>) returns (pushed: seq<Group>)
    requires BucketsValid(b) && AllEmittable(b) && i < |b.keys|
    requires Pushed(b, BucketKeys(b, i), result)
    ensures Pushed(b, BucketKeys(b, i + 1), pushed)
  {
    var scope := b.keys[i];
    var versions := b.entries[scope].keys;
    assert BucketKeys(b, i) + ScopeKeys(scope, versions[..0]) == BucketKeys(b, i);
    pushed := result;
    for j := 0 to |versions|
      invariant Pushed(b, BucketKeys(b, i) + ScopeKeys(scope, versions[..j]), pushed)
    {
      VisitNext(b, i, j);
      pushed := PushScopedGroup(b, BucketKeys(b, i) + ScopeKeys(scope, versions[..j]), pushed, scope, versions[j]);
    }
    assert versions[..|versions|] == versions;
  }

  /** The inner loop visits the `j`th version of the `i`th scope next. */
  lemma VisitNext(b: Buckets, i: nat, j: nat)
    requires BucketsValid(b) && i < |b.keys| && j < |b.entries[b.keys[i]].keys|
    ensures var scope := b.keys[i];
      var versions := b.entries[scope].keys;
      && KeyIn(b, BucketKey(scope, versions[j]))
      && BucketKeys(b, i) + ScopeKeys(scope, versions[..j + 1])
         == BucketKeys(b, i) + ScopeKeys(scope, versions[..j]) + [BucketKey(scope, versions[j])]
  {
    var scope := b.keys[i];
    MapPrefix(KeyOf(scope), b.entries[scope].keys, j);
  }

  /** One turn of the inner loop: the group of bucket `(scope, version)` pushed. */
  method PushScopedGroup(b: Buckets, ghost visited: seq<BucketKey>, result: seq<Group>, scope: string, version: string)
    returns (pushed: seq<Group>)
    requires BucketsValid(b) && AllEmittable(b) && KeyIn(b, BucketKey(scope, version))
    requires Pushed(b, visited, result)
    ensures Pushed(b, visited + [BucketKey(scope, version)], pushed)
  {
    MapSnoc(BucketGroup(b), visited, BucketKey(scope, version));
    var group := BuildScopedGroup(scope, version, b.entries[scope].entries[version]);
    pushed := result + [group];
  }

  /** The object literal pushed at lines 155-168, built as the source builds it. */
  method BuildScopedGroup(scope: string, version: string, packages: seq<PackageInfo>) returns (group: Group)
    requires Emittable(version, packages)
    ensures group == ScopedGroup(scope, version, packages)
  {
    var lowestVersion := GetLowestVersionInPackageGroup(packages);
    EmittableLowest(version, packages);
    var cmp := CompareCurrentAndLatestVersions(lowestVersion, version);
    var prBody := GeneratePullRequestBody(packages);
    group := Group(
      packages,
      scope,
      cmp.current,
      cmp.latest,
      cmp.semver,
      if |packages| > 1 then scope + " packages" else packages[0].name,
      GetSlug(if |packages| > 1 then scope else packages[0].name, cmp.latest),
      prBody);
  }

  /** Every unscoped package can be compared with its latest version. */
  predicate AllComparable(ps: seq<PackageInfo>) {
    forall i | 0 <= i < |ps| :: HasDigit(ps[i].currentVersion) && HasDigit(ps[i].latestVersion)
  }

  /** `packageData => group`: the group of one unscoped package (lines 173-193). */
  function UnscopedBuilder(types: map<string, PackageInfo>): PackageInfo --> Group {
    (p: PackageInfo) requires HasDigit(p.currentVersion) && HasDigit(p.latestVersion) => UnscopedGroup(p, types)
  }

  /** The groups of the unscoped packages, in their order. */
  function UnscopedGroupsOf(ps: seq<PackageInfo>, types: map<string, PackageInfo>): (r: seq<Group>)
    requires AllComparable(ps)
    ensures |r| == |ps|
  {
    Map(UnscopedBuilder(types), ps)
  }

  /** Lines 172-194 of index.js: a group per unscoped package, in order. */
  method EmitUnscopedGroups(unscopedPackages: seq<PackageInfo>, typesPackages: map<string, PackageInfo>) returns (result: seq<Group>)
    requires AllComparable(unscopedPackages)
    ensures result == UnscopedGroupsOf(unscopedPackages, typesPackages)
  {
    var ps := unscopedPackages;
    result := [];
    for i := 0 to |ps|
      invariant result == Map(UnscopedBuilder(typesPackages), ps[..i])
    {
      MapPrefix(UnscopedBuilder(typesPackages), ps, i);
      var group := BuildUnscopedGroup(ps[i], typesPackages);
      result := result + [group];
    }
    assert ps[..|ps|] == ps;
  }

  /** The members and the object literal of lines 173-193, built as the source builds them. */
  method BuildUnscopedGroup(packageData: PackageInfo, typesPackages: map<string, PackageInfo>) returns (group: Group)
    requires HasDigit(packageData.currentVersion) && HasDigit(packageData.latestVersion)
    ensures group == UnscopedGroup(packageData, typesPackages)
  {
    var packages := [packageData];
    if packageData.name in typesPackages {
      packages := packages + [typesPackages[packageData.name]];
    }
    var cmp := CompareCurrentAndLatestVersions(packageData.currentVersion, packageData.latestVersion);
    var prBody := GeneratePullRequestBody(packages);
    assert packages == UnscopedMembers(packageData, typesPackages);
    group := Group(packages, "", cmp.current, cmp.latest, cmp.semver, packageData.name, GetSlug(packageData.name, cmp.latest), prBody);
  }

  /** Every member of a bucket belongs in it and is outdated. */
  predicate BucketSound(scope: string, version: string, packages: seq<PackageInfo>) {
    forall i | 0 <= i < |packages| ::
      InBucket(packages[i], scope, version) && !IsSameVersion(packages[i].currentVersion, packages[i].latestVersion)
  }

  /**
   * The display name of a bucket's group is "<scope> packages" exactly
   * when the bucket has more than one member: a lone member's own name
   * holds a `/`, which "<scope> packages" does not.
   */
  lemma ScopedDisplayName(scope: string, version: string, packages: seq<PackageInfo>)
    requires Emittable(version, packages) && BucketSound(scope, version, packages)
    ensures ScopedGroup(scope, version, packages).displayName == scope + " packages" <==> |packages| > 1
  {
    if |packages| == 1 {
      assert InBucket(packages[0], scope, version);
      ScopePlural(scope, packages[0].name);
    }
  }

  /** A scope name plus " packages" is not a scoped package name. */
  lemma ScopePlural(scope: string, name: string)
    requires IsScoped(name) && scope == ScopeName(name)
    ensures scope + " packages" != name
  {
    var plural := scope + " packages";
    assert plural[|scope|] == ' ' && name[|scope|] == '/';
  }

  /**
   * A bucket's group carries the range-stripped lowest version: the
   * stripped range of one member, and numerically no greater than the
   * range of any member that has a digit.
   */
  lemma ScopedGroupCurrent(scope: string, version: string, packages: seq<PackageInfo>)
    requires Emittable(version, packages)
    ensures var g := ScopedGroup(scope, version, packages);
      && HasDigit(g.groupCurrentVersion)
      && (exists i | 0 <= i < |packages| :: Some(g.groupCurrentVersion) == Bare(packages[i].currentVersion))
      && forall i | 0 <= i < |packages| && HasDigit(packages[i].currentVersion) ::
           LessOrEqual(Numeric(g.groupCurrentVersion), Numeric(packages[i].currentVersion))
  {
    EmittableLowest(version, packages);
    var lowest := LowestOf(packages);
    var g := ScopedGroup(scope, version, packages);
    assert Some(g.groupCurrentVersion) == Bare(lowest);
    NumericOfBare(lowest);
    LowestIsMember(packages);
    forall i | 0 <= i < |packages| && HasDigit(packages[i].currentVersion)
      ensures LessOrEqual(Numeric(g.groupCurrentVersion), Numeric(packages[i].currentVersion))
    {
      LowestBelow(packages, i);
    }
  }

  /**
   * A bucket's group is labelled: its lowest version strips to some
   * member's range, which differs from the bucket's latest version.
   */
  lemma ScopedGroupLabel(scope: string, version: string, packages: seq<PackageInfo>)
    requires Emittable(version, packages) && BucketSound(scope, version, packages)
    ensures ScopedGroup(scope, version, packages).semverLabel.Some?
  {
    EmittableLowest(version, packages);
    LowestIsMember(packages);
    var i :| 0 <= i < |packages| && Bare(LowestOf(packages)) == Bare(packages[i].currentVersion);
    assert InBucket(packages[i], scope, version);
  }

  /**
   * The group of an unscoped package starts with it, has a second member
   * exactly when a `@types` package is recorded under its name, and is
   * labelled exactly when the package is outdated.
   */
  lemma UnscopedGroupShape(p: PackageInfo, types: map<string, PackageInfo>)
    requires HasDigit(p.currentVersion) && HasDigit(p.latestVersion)
    ensures var g := UnscopedGroup(p, types);
      && 1 <= |g.packages| <= 2 && g.packages[0] == p
      && (|g.packages| == 2 <==> p.name in types)
      && (p.name in types ==> g.packages[1] == types[p.name])
      && g.displayName == p.name && g.scope == ""
      && (g.semverLabel.Some? <==> !IsSameVersion(p.currentVersion, p.latestVersion))
  {
  }

  /** The `k`th unscoped group is the group of the `k`th unscoped package. */
  lemma UnscopedGroupsAt(ps: seq<PackageInfo>, types: map<string, PackageInfo>, k: nat)
    requires AllComparable(ps) && k < |ps|
    ensures UnscopedGroupsOf(ps, types)[k] == UnscopedGroup(ps[k], types)
  {
    MapAt(UnscopedBuilder(types), ps, k);
  }
}
