/**
 * The records the grouping works on: the registry metadata of a package,
 * the outdated package it describes, and the parts of a package name.
 */
module Packages {
  import opened Wrappers
  import opened Strings
  import opened GitUrls

  /** The fields `npm view <name> version repository` yields. */
  datatype Metadata = Metadata(version: string, repository: Repository)

  /**
   * `{ name, currentVersion, latestVersion, url }`: a package to bump, its
   * declared range, its latest version and its repository address.
   */
  datatype PackageInfo = PackageInfo(name: string, currentVersion: string, latestVersion: string, url: Option<string>)

  /** `packageName.indexOf("/") !== -1`. */
  predicate IsScoped(packageName: string) { '/' in packageName }

  /** `packageName.split("/")[0]`: up to the first `/`, or the whole name. */
  function ScopeName(packageName: string): (r: string)
    ensures r <= packageName && '/' !in r
    ensures IsScoped(packageName) ==> |r| < |packageName| && packageName[|r|] == '/'
    ensures !IsScoped(packageName) ==> r == packageName
  {
    IndexOfFirst(packageName, '/');
    packageName[..IndexOf(packageName, '/', 0)]
  }

  /** `packageName.split("/")[1]` of a scoped name: the segment after the first `/`. */
  function NameWithoutScope(packageName: string): (r: string)
    requires IsScoped(packageName)
    ensures '/' !in r
    ensures var start := |ScopeName(packageName)| + 1;
      && start + |r| <= |packageName|
      && packageName[start..start + |r|] == r
      && (start + |r| < |packageName| ==> packageName[start + |r|] == '/')
  {
    var start := IndexOf(packageName, '/', 0) + 1;
    var end := IndexOf(packageName, '/', start);
    assert '/' !in packageName[start..end] by {
      forall k | 0 <= k < end - start ensures packageName[start..end][k] != '/' { }
    }
    packageName[start..end]
  }

  /** A name split at its first two `/`s: `scope/name` yields `scope` and `name`. */
  lemma SplitScopedName(scope: string, name: string)
    requires '/' !in scope && '/' !in name
    ensures IsScoped(scope + "/" + name)
    ensures ScopeName(scope + "/" + name) == scope
    ensures NameWithoutScope(scope + "/" + name) == name
  {
    var full := scope + "/" + name;
    assert full[|scope|] == '/';
    assert full[..|scope|] == scope;
    var start := |scope| + 1;
    assert full[start..start + |name|] == name;
  }
}
