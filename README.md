# dependaction-group-by, modelled in Dafny

This project models the core of `index.js` of the GitHub Action
`dependaction-group-by`. The action collects the npm dependencies of a
repository, asks the registry for each one's latest version, and bundles
the outdated ones into update groups. A downstream workflow opens one pull
request per group. The modelled core covers:

- **Merging** two dependency objects (`mergeDependencies`). The result
  always keeps the lower of two declared ranges.
- **Version helpers** (`isSameVersion`, `compareCurrentAndLatestVersions`,
  `getLowerVersion`, `getLowestVersionInPackageGroup`). They strip the range
  operator with `/\d+.*/`, split the rest into `major.minor.patch` captures,
  and compare the captures as text or as numbers, as each function does.
- **Grouping** (`groupDependenciesByScopeAndVersion`), in four phases:
  - drop each dependency whose range strips to its latest version;
  - partition the rest into scoped buckets keyed by scope and latest
    version, `@types` companions keyed by the bare name, and unscoped
    packages;
  - emit one group per scoped bucket, in insertion order;
  - emit one group per unscoped package, with its `@types` companion when
    there is one.
- **Per-group text**: the slug (`getSlug`), the repository address
  (`getGitURL`) and the pull-request body (`generatePullRequestBody`).
- **Input lists**: reading a comma- or newline-separated input into a list
  (`getStringAsArray`).

## Modelling choices

- **JavaScript objects.** A plain object used as a dictionary is
  `OrderedMaps.OrderedMap`: a key sequence in insertion order plus a map.
  Assigning to a present key keeps its place; a new key is appended.
- **Imperative code stays imperative.** The loops of the source are Dafny
  methods with loop invariants:
  - merging: `Merge.MergeDependencies`;
  - the fold for the lowest version: `Lowest.GetLowestVersionInPackageGroup`;
  - the four grouping phases: `Outdated.CollectOutdated`,
    `Partitions.PartitionPackages`, `Groups.EmitScopedGroups`,
    `Groups.EmitUnscopedGroups`;
  - the pull-request body: `PullRequests.GeneratePullRequestBody`.

  Each method is proved equal to a specification function. The properties
  are lemmas about those functions.
- **The registry lookup is a parameter.** `npm view` becomes
  `Outdated.Registry`, a map from package name to `{ version, repository }`.
- **`undefined` and `null`.** `undefined` produced by `.match(...)?.[0]` is
  `None`. The `undefined` running value of `getLowestVersionInPackageGroup`
  is `""`, which behaves the same under its `!lowestVersion` test. A `null`
  semver label is `None`.
- **Numbers.** `Number(...)` of a digit string is an unbounded `nat`. The
  `isNaN` tests of `getLowerVersion` can never hold, because every capture
  is a digit string, so they are left out.
- **Where the source throws.** The source throws a `TypeError` when it reads
  a capture of a failed match, that is, on a version with no digit. Each
  such path is a precondition: `Versions.CompareCurrentAndLatestVersions`,
  `Versions.GetLowerVersion`, `Lowest.Foldable`, `Merge.Mergeable`,
  `Groups.Emittable` and `Grouping.Groupable`. `Grouping.GroupableWhen`
  gives a simple condition on the input under which no call throws.

In the following points `index.js` behaves differently from what a reader
of the action's purpose might expect. The model follows `index.js`:

- **Skipping current dependencies.** A dependency is skipped only when its
  range, stripped of the operator, is textually equal to the latest version
  (lines 107-109). A dependency that is ahead of the registry (say `4.0.0`
  with latest `3.9.0`) is not skipped. It is emitted with the label major.
- **Labels.** The label is `null` only when the two stripped versions are
  textually equal (line 274). Versions whose numbers agree but whose text
  differs, such as a pre-release suffix, get `"patch"`
  (`Versions.SuffixOnlyChangeIsPatch`). Major and minor captures are
  compared as text (lines 276-279), so `01` and `1` count as a change in
  the major version (`Versions.ZeroPaddedMajorIsMajor`).
- **Merging twice.** Merging the same object twice is not idempotent.
  A key that only B declares is copied with its range operator. The second
  merge calls `getLowerVersion` on that key, which strips the operator
  (`Merge.RemergeStripsRanges`). Idempotence holds when B's values are bare
  versions (`Merge.MergeIdempotent`).
- **Group identifiers.** A group's identifier is the slug of `getSlug`
  (lines 340-346), not a hash of the member names.
- **`@types` packages.** An `@types/<name>` package is keyed by `<name>`,
  and the last one with that key wins (line 132). It travels only with an
  unscoped package of that name. Otherwise it appears in no group
  (`Grouping.UnmatchedTypes`).

## Model

| member | source | states |
|---|---|---|
| OrderedMaps.OrderedMap.Put | index.js:77-84 | assigning to a present key replaces its value and keeps the key order; a new key is appended; the object stays well formed |
| OrderedMaps.PutTwice | index.js:135-145 | assigning to a key twice equals assigning the second value once |
| Versions.Bare | index.js:230-232 | the range-stripped form exists exactly when the string holds a digit, and then it starts with a digit and holds no line terminator |
| Versions.BareIsFromFirstDigit | index.js:230-232 | the stripped form is the stretch of the string from its first digit to the end of that line |
| Versions.BareOfBare | index.js:230-232 | stripping an already bare version gives it back |
| Versions.NumericOfBare | index.js:294-303 | a stripped version strips to itself and has the same numbers as the string it came from |
| Versions.RangeOperatorIsSame | index.js:229-235 | a range operator without digits in front of a version does not make it a different version |
| Versions.IsSameVersion | index.js:229-235 | same versions both hold a digit or neither does, and when they hold one their captures are equal |
| Versions.NoDigitsIsSame | index.js:229-235 | a range without digits (a URL, a path) is the same version as another string exactly when that one holds no digit either (`undefined === undefined`); against a published version with a digit it is not the same, so the dependency is kept |
| Versions.SplitPartsOfLayout | index.js:299-303 | on `M.m.p` followed by a suffix that does not start with a digit, the three captures are exactly `M`, `m` and `p` |
| Versions.ValueOfZeroPadded | index.js:308-326 | `Number` ignores a leading zero |
| Versions.CompareCurrentAndLatestVersions | index.js:263-285 | `current` and `latest` are the range-stripped forms; the label is `null` exactly when `isSameVersion` holds, major when the major captures differ as text, else minor when the minor captures differ, else patch |
| Versions.CompareSymmetric | index.js:263-285 | swapping the two versions does not change the label |
| Versions.NumericMajorChangeIsMajor | index.js:274-277 | numerically different majors are labelled major |
| Versions.NumericMinorChangeIsMinor | index.js:274-279 | textually equal majors with numerically different minors are labelled minor |
| Versions.NumericPatchChangeIsPatch | index.js:274-282 | equal major and minor captures with numerically different patches are labelled patch |
| Versions.ZeroPaddedMajorIsMajor | index.js:274-277 | `0M.m.p` and `M.m.p` have the same numbers but are labelled major |
| Versions.SuffixOnlyChangeIsPatch | index.js:274-282 | different versions with equal captures are labelled patch |
| Versions.LowerSelects | index.js:294-331 | the result is the stripped second argument when its numbers are strictly smaller, and the stripped first argument otherwise |
| Versions.LowerIsMinimum | index.js:294-331 | the numbers of the result are no greater than either argument's and equal one of them |
| Versions.LowerOfSame | index.js:305-306 | for the same version the stripped first argument is returned |
| Versions.LowerTieKeepsFirst | index.js:321-331 | on equal numbers the first argument wins, whichever order they come in |
| Versions.LowerCommutesNumerically | index.js:294-331 | swapping the arguments does not change the numbers of the result |
| Versions.LowerAssociative | index.js:294-331 | folding three versions in either grouping gives the same string |
| Versions.LowerAgainstBareAgain | index.js:294-331 | lowering again against the same bare version changes nothing |
| Strings.IndexOfFirst | index.js:125 | `indexOf` finds the first occurrence, and finds one exactly when the character occurs |
| Packages.ScopeName | index.js:126 | the scope is the prefix before the first `/`, or the whole name when there is none |
| Packages.NameWithoutScope | index.js:126 | the name without scope is the segment between the first and the second `/` |
| Packages.SplitScopedName | index.js:125-126 | `scope/name` splits back into `scope` and `name` |
| GitUrls.GetGitURL | index.js:353-359 | a repository that is not git has no address |
| GitUrls.GitURLDefined | index.js:353-359 | an address is found exactly when the repository is git and its URL contains `.git` |
| GitUrls.GitPlusURL | index.js:355 | `git+<u>.git` gives `u` for any one-line `u` |
| GitUrls.PlainURL | index.js:355 | `<u>.git` gives `u` when `u` does not start with `git+` |
| GitUrls.LastGitIsEnding | index.js:355 | the greedy match ends at a final `.git` |
| Slugs.GetSlug | index.js:340-346 | the function carries no contract of its own; its meaning is stated by `Slugs.SlugShape`, `Slugs.SlugNameLength`, `Slugs.SlugNameWithoutAt`, `Slugs.SlugNameOfScope` and `Slugs.SlugVersionChars` |
| Slugs.SlugShape | index.js:340-346 | a slug is the name part, one `-`, then the version with every non-digit replaced by `_`; the name part holds only lower-case or word characters and no `-` |
| Slugs.SlugNameLength | index.js:342 | the name part loses exactly one character when the name holds an `@` |
| Slugs.SlugNameWithoutAt | index.js:342 | without an `@`, each character is lower-cased if it is a word character and replaced by `_` if not |
| Slugs.SlugNameOfScope | index.js:342 | only the leading `@` of a scope is dropped |
| Slugs.SlugVersionChars | index.js:344 | the version part keeps digits and replaces every other character by `_` |
| PullRequests.GeneratePullRequestBody | index.js:367-384 | the text is one bullet per package, in order |
| PullRequests.BodyConcat | index.js:367-384 | the body of two lists joined is the two bodies joined |
| PullRequests.LineShape | index.js:376-380 | every bullet starts with `- Bumps ` and ends with a line break, and links the name exactly when an address is known |
| PullRequests.BodyLines | index.js:367-384 | a body has exactly one line break per package whose fields hold none |
| Inputs.Split | index.js:392 | the pieces hold no separator, and there is at least one |
| Inputs.SplitConcat | index.js:392 | two texts joined by a maximal run of separators split into the pieces of the first followed by the pieces of the second |
| Inputs.Trim | index.js:393 | the result is a stretch of the input with only white space before and after it, and does not itself start or end with white space; an already trimmed string is unchanged |
| Inputs.NonEmpty | index.js:394 | an element is in the result exactly when it is in the input and not empty; a list without empty elements is unchanged |
| Inputs.NonEmptyConcat | index.js:394 | the filter keeps order: filtering a concatenation filters each part, and a single element is kept exactly when it is not empty |
| Inputs.GetStringAsArray | index.js:390-395 | no element is empty, holds a comma or line break, or is surrounded by white space |
| Inputs.GetStringAsArrayConcat | index.js:390-395 | two lists joined by a maximal run of separators read as the items of the first followed by those of the second |
| Inputs.GetStringAsArrayOfPadded | index.js:390-395 | an item with white space around it reads as that item alone |
| Inputs.ReadsSpacedList | index.js:390-395 | `" a ,, b"` reads as `["a", "b"]` |
| Inputs.SplitJoin | index.js:392 | non-empty items without separators, joined with commas, split back into those items |
| Inputs.JoinRoundTrip | index.js:390-395 | such items joined with commas read back as the same list |
| Inputs.ReadBack | index.js:390-395 | reading a list, joining it with commas and reading it again gives the same list |
| Merge.NewKeys | index.js:76-78 | the keys B adds are exactly those it has and A lacks |
| Merge.Merged | index.js:73-88 | the merged keys are A's followed by the new ones of B, in B's order |
| Merge.MergeDependencies | index.js:73-88 | the loop computes the merged object |
| Merge.MergedKeys | index.js:73-88 | the merged keys are distinct and are exactly A's keys and B's |
| Merge.MergedEntry | index.js:76-85 | a key from one side keeps its value; a falsy value of A is replaced by B's; otherwise the value is `getLowerVersion` of both |
| Merge.MergeKeepsLower | index.js:80-83 | a key both sides declare holds the stripped form of one of them, numerically no greater than either |
| Merge.MergedNoOp | index.js:73-88 | merging values that are already lower changes nothing |
| Merge.MergeIdempotent | index.js:73-88 | merging B a second time changes nothing when B's values are bare versions |
| Merge.RemergeStripsRanges | index.js:73-88 | merging a ranged B into an empty object twice strips the ranges the first merge kept |
| Lowest.GetLowestVersionInPackageGroup | index.js:242-254 | the loop computes the fold of `getLowerVersion` over the members' ranges |
| Lowest.LowestEmpty | index.js:242-254 | the result is `undefined` exactly when no member declares a range |
| Lowest.LowestIsMember | index.js:242-254 | a defined result strips to the same version as some member's range |
| Lowest.LowestBelow | index.js:245-251 | the result's numbers are no greater than those of any member whose range holds a digit |
| Lowest.LowestIsLowerBound | index.js:242-254 | in a group whose ranges all hold a digit, the result holds one and is a numeric lower bound of every member |
| Outdated.CollectOutdated | index.js:100-117 | the loop keeps the outdated dependencies as records, in the order of `Object.entries` |
| Outdated.OutdatedMembers | index.js:100-117 | a record is kept exactly when it describes a listed dependency whose range does not strip to its latest version |
| Outdated.OutdatedKept | index.js:106-116 | a kept record carries the declared range, the latest version and the repository address of its dependency, and the two versions differ |
| Outdated.OutdatedDistinct | index.js:100-117 | no package name is kept twice |
| Partitions.PartitionPackages | index.js:119-147 | the loop computes the partition of the outdated records |
| Partitions.AddScopedInSteps | index.js:135-145 | creating the scope object, then the bucket, then pushing is one push into the bucket |
| Partitions.AddScopedAt | index.js:135-145 | a push changes only the bucket pushed into, which gains the record at its end |
| Partitions.Bucket | index.js:133-146 | the members of a bucket are exactly the records of that scope and latest version that are not `@types` |
| Partitions.Unscoped | index.js:128-129 | the unscoped list holds exactly the records whose name has no `/` |
| Partitions.PartitionBucket | index.js:123-147 | a bucket exists exactly when some record belongs to it, and then it holds those records in order |
| Partitions.PackageInOneBucket | index.js:123-147 | a scoped, non-`@types` record lies in its own bucket and in no other |
| Partitions.PartitionUnscoped | index.js:128-129 | the unscoped packages are the unscoped records, in order |
| Partitions.PartitionTypes | index.js:130-132 | a name has an `@types` companion exactly when one was kept, and it is the last such record |
| Groups.EmitScopedGroups | index.js:149-170 | the loops push one group per bucket, scopes in insertion order and each scope's versions in theirs |
| Groups.ScopedGroupsAt | index.js:149-170 | the k-th scoped group is the group of the k-th bucket visited |
| Groups.BucketKeysComplete | index.js:149-150 | every bucket is visited |
| Groups.BucketKeysDistinct | index.js:149-150 | no bucket is visited twice |
| Groups.BuildScopedGroup | index.js:151-168 | the group pushed for a bucket |
| Groups.ScopedDisplayName | index.js:164-165 | a bucket's display name is `<scope> packages` exactly when it has more than one member |
| Groups.ScopedGroupCurrent | index.js:151-161 | the group's current version is the stripped range of a member, and numerically no greater than any member's range with a digit |
| Groups.ScopedGroupLabel | index.js:153-163 | a bucket's label is not `null` |
| Groups.EmitUnscopedGroups | index.js:172-194 | the loop pushes one group per unscoped package, in order |
| Groups.BuildUnscopedGroup | index.js:173-193 | the group pushed for an unscoped package |
| Groups.UnscopedGroupShape | index.js:173-193 | an unscoped group holds the package, then its `@types` companion when there is one; it is titled by the package, has scope `""`, and has a label exactly when its versions differ |
| Groups.UnscopedGroupsAt | index.js:172-194 | the i-th unscoped group is the group of the i-th unscoped package |
| Grouping.GroupDependenciesByScopeAndVersion | index.js:94-198 | the four phases compute the scoped groups followed by the unscoped ones |
| Grouping.GroupableWhen | index.js:94-198 | no call throws when every outdated dependency that is not an `@types` package has digits in its range and its latest version |
| Grouping.NoNullLabels | index.js:94-198 | no group has a `null` label |
| Grouping.ScopedFirst | index.js:149-194 | every scoped group comes before every unscoped one; each scoped group begins with a scoped package; the i-th unscoped group begins with the i-th unscoped package |
| Grouping.ScopedMembers | index.js:123-170 | a package is in the k-th scoped group exactly when it was kept and belongs to that bucket |
| Grouping.ScopedPlacement | index.js:119-194 | a kept scoped package that is not `@types` is in exactly one scoped group, whose members are its bucket, and in no unscoped group |
| Grouping.UnscopedMembers | index.js:172-190 | the i-th unscoped group holds the i-th unscoped package, then the last kept `@types` record of its name when there is one, and is titled by the package |
| Grouping.UnscopedPlacement | index.js:119-194 | a kept unscoped package is in no scoped group and in exactly one unscoped group, its own |
| Grouping.TypesPlacement | index.js:119-194 | an `@types` record is in no scoped group, and in an unscoped group exactly when it is the last record of that group's name |
| Grouping.UnmatchedTypes | index.js:119-194 | an `@types` record with no unscoped package of its name is in no group |
| Grouping.ScopedTitle | index.js:164-165 | a scoped group is titled `<scope> packages` exactly when it has more than one member |
| Grouping.ScopedCurrent | index.js:151-161 | a scoped group's current version is the stripped range of one of its members, and numerically no greater than each member's range that holds a digit |

## Left out

- The self-invoking entry point (index.js:6-32) is not modelled. It reads
  the action's inputs, walks the file system, calls the registry and
  writes the output.
- `getAllDependencies` (index.js:39-64) is not modelled, because it reads
  `package.json` files from the file system. The merge it applies is
  modelled as `Merge.MergeDependencies`.
- `getLatestPackageMetadata` (index.js:206-220) runs `npm view`. It is
  replaced by the `Registry` map.
  - Every dependency is required to be in that map.
  - The `null` returned on a failed lookup, after which the source throws
    on `.version`, is not modelled.
- A `repository` field that is absent from the metadata, on which
  `getGitURL` throws, is not modelled. Metadata always carries a
  repository.
- `getInputAsArray` (index.js:386-388) is not modelled, because it reads
  an input of the action. It passes that input to `getStringAsArray`,
  which is modelled.
- The following are not modelled: `async`/`await`, `console` logging, and
  the `limit` and `exclude-packages` inputs, which are handled outside the
  core.
- Object keys that look like integers are enumerated in insertion order.
  JavaScript enumerates them first, in numeric order. Keys inherited from
  `Object.prototype` are not modelled either.
- `Number` is modelled for decimal digit strings of any length. IEEE-754
  rounding of very long numbers is not modelled.
- The character classes are ASCII:
  - `toLowerCase` maps only `A`-`Z`;
  - `\W` and `\D` are the ASCII word and digit classes;
  - `trim` removes the JavaScript white-space and line-terminator
    characters that the model lists.
- Grouping.ScopedCurrent: the numeric bound covers only members whose
  range holds a digit. The only other members a group can have are members
  with an empty range ahead of the first declared one. The fold skips
  those (its `!lowestVersion` test), so no bound applies to them.
- Versions.GetLowerVersion: the function itself carries no contract. Its
  behaviour is stated by `Versions.LowerSelects` and the lemmas after it.
