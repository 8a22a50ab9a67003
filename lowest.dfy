/**
 * `getLowestVersionInPackageGroup` of index.js: `getLowerVersion` folded
 * over the declared ranges of the members of a group.
 */
module Lowest {
  import opened Wrappers
  import opened Versions
  import opened Packages

  /** Index of the first member at or after `i` with a non-empty range, or `|ps|`. */
  function FirstDeclared(ps: seq<PackageInfo>, i: nat): (k: nat)
    requires i <= |ps|
    ensures i <= k <= |ps|
    ensures forall j | i <= j < k :: ps[j].currentVersion == ""
    ensures k < |ps| ==> ps[k].currentVersion != ""
    decreases |ps| - i
  {
    if i == |ps| || ps[i].currentVersion != "" then i else FirstDeclared(ps, i + 1)
  }

  /**
   * The rest of the fold, from member `i` on with running value `lowest`,
   * never throws: every range passed to `getLowerVersion`, the running
   * value included, holds a digit. While the running value is `""` a
   * member's range replaces it unchecked, so only the members after the
   * first declared one are constrained, and that one too if another
   * follows it.
   */
  predicate Resumable(ps: seq<PackageInfo>, i: nat, lowest: string)
    requires i <= |ps|
  {
    if lowest == "" then
      var k := FirstDeclared(ps, i);
      && (k + 1 < |ps| ==> HasDigit(ps[k].currentVersion))
      && forall j | k < j < |ps| :: HasDigit(ps[j].currentVersion)
    else
      && (i < |ps| ==> HasDigit(lowest))
      && forall j | i <= j < |ps| :: HasDigit(ps[j].currentVersion)
  }

  /** The fold over a whole group never throws. */
  predicate Foldable(ps: seq<PackageInfo>) {
    Resumable(ps, 0, "")
  }

  /**
   * The value of `lowestVersion` once the members from `i` on have been
   * visited, starting from `lowest`: `""` stands for the initial
   * `undefined`, and a falsy running value is replaced rather than
   * compared.
   */
  function LowestFrom(ps: seq<PackageInfo>, i: nat, lowest: string): string
    requires i <= |ps| && Resumable(ps, i, lowest)
    decreases |ps| - i
  {
    if i == |ps| then lowest
    else
      var current := ps[i].currentVersion;
      if lowest == "" then LowestFrom(ps, i + 1, current)
      else
        LowerHasDigit(lowest, current);
        LowestFrom(ps, i + 1, GetLowerVersion(lowest, current))
  }

  /** The value `getLowestVersionInPackageGroup` returns, with `""` for `undefined`. */
  function LowestOf(ps: seq<PackageInfo>): string
    requires Foldable(ps)
  {
    LowestFrom(ps, 0, "")
  }

  /** `getLowestVersionInPackageGroup` (index.js). */
  method GetLowestVersionInPackageGroup(packagesWithMetadata: seq<PackageInfo>) returns (lowestVersion: string)
    requires Foldable(packagesWithMetadata)
    ensures lowestVersion == LowestOf(packagesWithMetadata)
  {
    lowestVersion := "";
    for i := 0 to |packagesWithMetadata|
      invariant Resumable(packagesWithMetadata, i, lowestVersion)
      invariant LowestFrom(packagesWithMetadata, i, lowestVersion) == LowestOf(packagesWithMetadata)
    {
      var currentVersion := packagesWithMetadata[i].currentVersion;
      if lowestVersion == "" {
        lowestVersion := currentVersion;
      } else {
        LowerHasDigit(lowestVersion, currentVersion);
        lowestVersion := GetLowerVersion(lowestVersion, currentVersion);
      }
    }
  }

  /** Every member declares a range with a digit. */
  predicate AllVersioned(ps: seq<PackageInfo>) {
    forall i | 0 <= i < |ps| :: HasDigit(ps[i].currentVersion)
  }

  lemma AllVersionedFoldable(ps: seq<PackageInfo>)
    requires AllVersioned(ps)
    ensures Foldable(ps)
  {
    if ps != [] {
      assert ps[0].currentVersion != "";
    }
  }

  /** The fold yields `""` exactly when it starts from `""` and no member declares a range. */
  lemma {:induction false} LowestFromEmpty(ps: seq<PackageInfo>, i: nat, lowest: string)
    requires i <= |ps| && Resumable(ps, i, lowest)
    ensures LowestFrom(ps, i, lowest) == "" <==> lowest == "" && FirstDeclared(ps, i) == |ps|
    decreases |ps| - i
  {
    if i < |ps| {
      var current := ps[i].currentVersion;
      if lowest == "" {
        LowestFromEmpty(ps, i + 1, current);
      } else {
        LowerHasDigit(lowest, current);
        LowestFromEmpty(ps, i + 1, GetLowerVersion(lowest, current));
      }
    }
  }

  /** `getLowestVersionInPackageGroup` returns `undefined` exactly when no member declares a range. */
  lemma LowestEmpty(ps: seq<PackageInfo>)
    requires Foldable(ps)
    ensures LowestOf(ps) == "" <==> FirstDeclared(ps, 0) == |ps|
  {
    LowestFromEmpty(ps, 0, "");
  }

  /** A non-empty result is, up to its range operator, the running value it started from or one member's range. */
  lemma {:induction false} LowestFromMember(ps: seq<PackageInfo>, i: nat, lowest: string)
    requires i <= |ps| && Resumable(ps, i, lowest) && LowestFrom(ps, i, lowest) != ""
    ensures var r := LowestFrom(ps, i, lowest);
      || (lowest != "" && Bare(r) == Bare(lowest))
      || exists j | i <= j < |ps| :: Bare(r) == Bare(ps[j].currentVersion)
    decreases |ps| - i
  {
    if i < |ps| {
      var r := LowestFrom(ps, i, lowest);
      var current := ps[i].currentVersion;
      if lowest == "" {
        LowestFromMember(ps, i + 1, current);
      } else {
        var next := GetLowerVersion(lowest, current);
        LowerStep(lowest, current);
        LowestFromMember(ps, i + 1, next);
        if Bare(r) == Bare(next) && Bare(next) == Bare(current) {
          assert Bare(r) == Bare(ps[i].currentVersion);
        }
      }
    }
  }

  /**
   * Once set, the lowest version is, up to its range operator, the
   * declared range of one member.
   */
  lemma LowestIsMember(ps: seq<PackageInfo>)
    requires Foldable(ps) && LowestOf(ps) != ""
    ensures exists i | 0 <= i < |ps| :: Bare(LowestOf(ps)) == Bare(ps[i].currentVersion)
  {
    LowestFromMember(ps, 0, "");
  }

  /** Starting from a running value with a digit, the result holds one and its numbers are no greater. */
  lemma {:induction false} LowestFromAtMost(ps: seq<PackageInfo>, i: nat, lowest: string)
    requires i <= |ps| && Resumable(ps, i, lowest) && HasDigit(lowest)
    ensures HasDigit(LowestFrom(ps, i, lowest))
    ensures LessOrEqual(Numeric(LowestFrom(ps, i, lowest)), Numeric(lowest))
    decreases |ps| - i
  {
    if i < |ps| {
      var current := ps[i].currentVersion;
      var next := GetLowerVersion(lowest, current);
      LowerStep(lowest, current);
      LowestFromAtMost(ps, i + 1, next);
      LessOrEqualTransitive(Numeric(LowestFrom(ps, i, lowest)), Numeric(next), Numeric(lowest));
    }
  }

  /** The result holds a digit and its numbers are no greater than those of any later member whose range holds one. */
  lemma {:induction false} LowestFromBelow(ps: seq<PackageInfo>, i: nat, lowest: string, j: nat)
    requires i <= j < |ps| && Resumable(ps, i, lowest) && HasDigit(ps[j].currentVersion)
    ensures HasDigit(LowestFrom(ps, i, lowest))
    ensures LessOrEqual(Numeric(LowestFrom(ps, i, lowest)), Numeric(ps[j].currentVersion))
    decreases |ps| - i
  {
    var current := ps[i].currentVersion;
    var next := if lowest == "" then current else GetLowerVersion(lowest, current);
    if lowest != "" {
      LowerStep(lowest, current);
    }
    if i == j {
      LowestFromAtMost(ps, i + 1, next);
      LessOrEqualTransitive(Numeric(LowestFrom(ps, i, lowest)), Numeric(next), Numeric(current));
    } else {
      LowestFromBelow(ps, i + 1, next, j);
    }
  }

  /**
   * The lowest version holds a digit once a member's range does, and its
   * numbers are no greater than those of any member whose range holds one.
   */
  lemma LowestBelow(ps: seq<PackageInfo>, i: nat)
    requires Foldable(ps) && i < |ps| && HasDigit(ps[i].currentVersion)
    ensures HasDigit(LowestOf(ps))
    ensures LessOrEqual(Numeric(LowestOf(ps)), Numeric(ps[i].currentVersion))
  {
    LowestFromBelow(ps, 0, "", i);
  }

  /** The numbers of the lowest version of a group whose ranges all hold a digit are no greater than any member's. */
  lemma LowestIsLowerBound(ps: seq<PackageInfo>)
    requires ps != [] && AllVersioned(ps)
    ensures Foldable(ps) && HasDigit(LowestOf(ps))
    ensures forall i | 0 <= i < |ps| :: LessOrEqual(Numeric(LowestOf(ps)), Numeric(ps[i].currentVersion))
  {
    AllVersionedFoldable(ps);
    LowestBelow(ps, 0);
    forall i | 0 <= i < |ps| ensures LessOrEqual(Numeric(LowestOf(ps)), Numeric(ps[i].currentVersion)) {
      LowestBelow(ps, i);
    }
  }

  /** One step of the fold on versions with digits: what the lemmas above need of `getLowerVersion`. */
  lemma LowerStep(lowest: string, current: string)
    requires HasDigit(lowest) && HasDigit(current)
    ensures var r := GetLowerVersion(lowest, current);
      && HasDigit(r)
      && (Bare(r) == Bare(lowest) || Bare(r) == Bare(current))
      && LessOrEqual(Numeric(r), Numeric(lowest))
      && LessOrEqual(Numeric(r), Numeric(current))
  {
    var r := GetLowerVersion(lowest, current);
    LowerSelects(lowest, current);
    LowerIsMinimum(lowest, current);
    BareOfBare(r);
  }
}
