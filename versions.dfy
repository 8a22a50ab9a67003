/**
 * The version-string helpers of index.js: stripping a range operator
 * (`\d+.*`), splitting a bare version into its leading digit runs
 * (`(\d+)\.*(\d*)\.*(\d*)`), and the three comparisons built on them,
 * `isSameVersion`, `compareCurrentAndLatestVersions` and `getLowerVersion`.
 */
module Versions {
  import opened Wrappers

  predicate IsDigit(c: char) { '0' <= c <= '9' }

  /** The characters that JavaScript's regular-expression `.` does not match. */
  predicate IsLineTerminator(c: char) {
    c == '\n' || c == '\r' || c == '\U{2028}' || c == '\U{2029}'
  }

  predicate HasDigit(s: string) { exists i | 0 <= i < |s| :: IsDigit(s[i]) }

  predicate IsDigits(s: string) { forall j | 0 <= j < |s| :: IsDigit(s[j]) }

  predicate NoLineTerminator(s: string) { forall j | 0 <= j < |s| :: !IsLineTerminator(s[j]) }

  /** What `\d+.*` can match: a digit first, and no line terminator. */
  predicate IsBare(v: string) {
    |v| > 0 && IsDigit(v[0]) && NoLineTerminator(v)
  }

  lemma BareHasDigit(v: string)
    requires IsBare(v)
    ensures HasDigit(v)
  {
    assert IsDigit(v[0]);
  }

  /** Index of the first digit of `s` at or after `i`, or `|s|` when there is none. */
  function FirstDigitFrom(s: string, i: nat): (j: nat)
    requires i <= |s|
    ensures i <= j <= |s|
    ensures forall k | i <= k < j :: !IsDigit(s[k])
    ensures j < |s| ==> IsDigit(s[j])
    decreases |s| - i
  {
    if i == |s| || IsDigit(s[i]) then i else FirstDigitFrom(s, i + 1)
  }

  /** Index of the first line terminator of `s` at or after `i`, or `|s|`. */
  function LineEnd(s: string, i: nat): (j: nat)
    requires i <= |s|
    ensures i <= j <= |s|
    ensures forall k | i <= k < j :: !IsLineTerminator(s[k])
    ensures j < |s| ==> IsLineTerminator(s[j])
    decreases |s| - i
  {
    if i == |s| || IsLineTerminator(s[i]) then i else LineEnd(s, i + 1)
  }

  /** End of the run of digits of `s` that starts at `i`. */
  function DigitsEnd(s: string, i: nat): (j: nat)
    requires i <= |s|
    ensures i <= j <= |s|
    ensures forall k | i <= k < j :: IsDigit(s[k])
    ensures j < |s| ==> !IsDigit(s[j])
    decreases |s| - i
  {
    if i == |s| || !IsDigit(s[i]) then i else DigitsEnd(s, i + 1)
  }

  /** End of the run of dots of `s` that starts at `i`. */
  function DotsEnd(s: string, i: nat): (j: nat)
    requires i <= |s|
    ensures i <= j <= |s|
    ensures forall k | i <= k < j :: s[k] == '.'
    ensures j < |s| ==> s[j] != '.'
    decreases |s| - i
  {
    if i == |s| || s[i] != '.' then i else DotsEnd(s, i + 1)
  }

  /**
   * The first match of the global pattern `\d+.*` in `s`, or None
   * (`undefined`) when `s` holds no digit: the range-stripped form of `s`,
   * from its first digit to the end of that line.
   */
  function Bare(s: string): (r: Option<string>)
    ensures r.Some? <==> HasDigit(s)
    ensures r.Some? ==> IsBare(r.value)
  {
    var i := FirstDigitFrom(s, 0);
    if i == |s| then None
    else
      var j := LineEnd(s, i);
      assert j > i by { assert !IsLineTerminator(s[i]); }
      Some(s[i..j])
  }

  /**
   * The stripped form is the stretch of `s` that starts at its first digit
   * and runs to the end of that line: nothing before it holds a digit, and
   * it ends at the end of `s` or just before a line terminator.
   */
  lemma BareIsFromFirstDigit(s: string)
    requires HasDigit(s)
    ensures var v := Bare(s).value;
      exists i | 0 <= i && i + |v| <= |s| ::
        && !HasDigit(s[..i])
        && s[i..i + |v|] == v
        && (i + |v| == |s| || IsLineTerminator(s[i + |v|]))
  {
    var v := Bare(s).value;
    var i := FirstDigitFrom(s, 0);
    assert !HasDigit(s[..i]) by {
      forall k | 0 <= k < i ensures !IsDigit(s[..i][k]) {
        assert s[..i][k] == s[k];
      }
    }
    assert s[i..i + |v|] == v;
  }

  /** Stripping the range of an already bare version changes nothing. */
  lemma BareOfBare(v: string)
    requires IsBare(v)
    ensures Bare(v) == Some(v)
  {
    assert FirstDigitFrom(v, 0) == 0;
    assert LineEnd(v, 0) == |v|;
    assert v[0..|v|] == v;
  }

  /** The three captures of a version: major, minor and patch digit runs. */
  datatype Parts = Parts(major: string, minor: string, patch: string)

  /** The digits of `v` from `i` to the end of their run. */
  lemma RunIsDigits(v: string, i: nat)
    requires i <= |v|
    ensures IsDigits(v[i..DigitsEnd(v, i)])
  {
    var e := DigitsEnd(v, i);
    forall k | 0 <= k < e - i ensures IsDigit(v[i..e][k]) {
      assert v[i..e][k] == v[i + k];
    }
  }

  /**
   * The captures of `(\d+)\.*(\d*)\.*(\d*)` on a bare version. The match
   * starts at index 0 (the version starts with a digit) and every
   * quantifier is greedy with nothing after it that can fail, so each
   * capture is the longest run of digits at its place, the dots after it
   * skipped. The two-group pattern `(\d+)\.*(\d*)` yields the same first
   * two captures.
   */
  function SplitParts(v: string): (p: Parts)
    requires IsBare(v)
    ensures IsDigits(p.major) && IsDigits(p.minor) && IsDigits(p.patch)
    ensures p.major != [] && p.major <= v
  {
    var e1 := DigitsEnd(v, 0);
    var s2 := DotsEnd(v, e1);
    var e2 := DigitsEnd(v, s2);
    var s3 := DotsEnd(v, e2);
    var e3 := DigitsEnd(v, s3);
    RunIsDigits(v, 0);
    RunIsDigits(v, s2);
    RunIsDigits(v, s3);
    assert v[0..e1] == v[..e1];
    Parts(v[..e1], v[s2..e2], v[s3..e3])
  }

  /** The usual layout "M.m.p<suffix>" splits into M, m and p. */
  lemma SplitPartsOfLayout(major: string, minor: string, patch: string, suffix: string)
    requires major != [] && IsDigits(major) && IsDigits(minor) && IsDigits(patch)
    requires minor != [] && patch != []
    requires suffix != [] ==> !IsDigit(suffix[0])
    requires NoLineTerminator(suffix)
    ensures IsBare(major + "." + minor + "." + patch + suffix)
    ensures SplitParts(major + "." + minor + "." + patch + suffix) == Parts(major, minor, patch)
  {
    var v := major + "." + minor + "." + patch + suffix;
    LayoutIsBare(major, minor, patch, suffix);
    var m1 := |major|;
    var m2 := m1 + 1 + |minor|;
    var m3 := m2 + 1 + |patch|;
    LayoutAt(major, minor, patch, suffix);
    SliceIs(v, 0, m1, major);
    SliceIs(v, m1 + 1, m2, minor);
    SliceIs(v, m2 + 1, m3, patch);
    assert v[0..m1] == v[..m1];
    SplitPartsAt(v, m1, m2, m3);
  }

  /** Where each piece of the layout "M.m.p<suffix>" sits. */
  lemma LayoutAt(major: string, minor: string, patch: string, suffix: string)
    ensures var v := major + "." + minor + "." + patch + suffix;
      var m1 := |major|;
      var m2 := m1 + 1 + |minor|;
      var m3 := m2 + 1 + |patch|;
      && |v| == m3 + |suffix| && v[m1] == '.' && v[m2] == '.'
      && (forall k | 0 <= k < m1 :: v[k] == major[k])
      && (forall k | m1 + 1 <= k < m2 :: v[k] == minor[k - (m1 + 1)])
      && (forall k | m2 + 1 <= k < m3 :: v[k] == patch[k - (m2 + 1)])
      && (m3 < |v| ==> v[m3] == suffix[0])
  {
  }

  /** A stretch of `v` that matches `w` character by character is `w`. */
  lemma SliceIs(v: string, lo: nat, hi: nat, w: string)
    requires lo <= hi <= |v| && |w| == hi - lo
    requires forall k | lo <= k < hi :: v[k] == w[k - lo]
    ensures v[lo..hi] == w
    ensures IsDigits(w) ==> DigitsIn(v, lo, hi)
  {
    assert forall j | 0 <= j < |w| :: v[lo..hi][j] == v[lo + j];
  }

  /** A bare version with digit runs [0, m1), (m1, m2), (m2, m3) separated by single dots. */
  lemma SplitPartsAt(v: string, m1: nat, m2: nat, m3: nat)
    requires IsBare(v) && 0 < m1 && m1 + 1 < m2 && m2 + 1 < m3 <= |v|
    requires DigitsIn(v, 0, m1) && DigitsIn(v, m1 + 1, m2) && DigitsIn(v, m2 + 1, m3)
    requires v[m1] == '.' && v[m2] == '.'
    requires m3 < |v| ==> !IsDigit(v[m3])
    ensures SplitParts(v) == Parts(v[..m1], v[m1 + 1..m2], v[m2 + 1..m3])
  {
    DigitsEndOfRun(v, 0, m1);
    assert DotsEnd(v, m1) == m1 + 1 by { DigitsEndOfRun(v, m1 + 1, m2); }
    DigitsEndOfRun(v, m1 + 1, m2);
    assert DotsEnd(v, m2) == m2 + 1 by { DigitsEndOfRun(v, m2 + 1, m3); }
    DigitsEndOfRun(v, m2 + 1, m3);
  }

  /** A maximal run of digits from `lo` to `hi` is what `DigitsEnd` finds. */
  lemma DigitsEndOfRun(v: string, lo: nat, hi: nat)
    requires lo < hi <= |v| && DigitsIn(v, lo, hi)
    requires hi < |v| ==> !IsDigit(v[hi])
    ensures DigitsEnd(v, lo) == hi
    ensures IsDigit(v[lo])
  {
  }

  /** Every character of `v` from `lo` up to `hi` is a digit. */
  predicate DigitsIn(v: string, lo: nat, hi: nat)
    requires lo <= hi <= |v|
  {
    forall k | lo <= k < hi :: IsDigit(v[k])
  }

  lemma LayoutIsBare(major: string, minor: string, patch: string, suffix: string)
    requires major != [] && IsDigits(major) && IsDigits(minor) && IsDigits(patch)
    requires NoLineTerminator(suffix)
    ensures IsBare(major + "." + minor + "." + patch + suffix)
  {
    var v := major + "." + minor + "." + patch + suffix;
    var m3 := |major| + |minor| + |patch| + 2;
    forall k | 0 <= k < |v| ensures !IsLineTerminator(v[k]) {
      if k >= m3 {
        assert v[k] == suffix[k - m3];
      } else {
        assert v[k] == '.' || IsDigit(v[k]);
      }
    }
    assert v[0] == major[0];
  }

  function DigitValue(c: char): nat
    requires IsDigit(c)
  {
    c as int - '0' as int
  }

  /** `Number(ds)` of a string of decimal digits; `Number("")` is 0. */
  function Value(ds: string): nat
    requires IsDigits(ds)
  {
    if ds == [] then 0 else 10 * Value(ds[..|ds| - 1]) + DigitValue(ds[|ds| - 1])
  }

  /** Digit strings of equal value but different text differ in leading zeros. */
  lemma {:induction false} ValueOfZeroPadded(ds: string)
    requires IsDigits(ds)
    ensures IsDigits("0" + ds) && Value("0" + ds) == Value(ds)
  {
    var z := "0" + ds;
    if ds != [] {
      assert z[..|z| - 1] == "0" + ds[..|ds| - 1];
      ValueOfZeroPadded(ds[..|ds| - 1]);
    }
  }

  /** A numeric (major, minor, patch), ordered lexicographically. */
  datatype Triple = Triple(major: nat, minor: nat, patch: nat)

  predicate Less(a: Triple, b: Triple) {
    || a.major < b.major
    || (a.major == b.major && a.minor < b.minor)
    || (a.major == b.major && a.minor == b.minor && a.patch < b.patch)
  }

  predicate LessOrEqual(a: Triple, b: Triple) { !Less(b, a) }

  lemma LessOrEqualTransitive(a: Triple, b: Triple, c: Triple)
    requires LessOrEqual(a, b) && LessOrEqual(b, c)
    ensures LessOrEqual(a, c)
  {
  }

  /** The captures of the range-stripped form of `s`. */
  function Components(s: string): Parts
    requires HasDigit(s)
  {
    SplitParts(Bare(s).value)
  }

  /** The numbers `getLowerVersion` compares: `Number` of each capture. */
  function Numeric(s: string): Triple
    requires HasDigit(s)
  {
    var p := Components(s);
    Triple(Value(p.major), Value(p.minor), Value(p.patch))
  }

  /** A bare version has a digit and the same numbers as what it came from. */
  lemma NumericOfBare(s: string)
    requires HasDigit(s)
    ensures HasDigit(Bare(s).value)
    ensures Bare(Bare(s).value) == Bare(s)
    ensures Numeric(Bare(s).value) == Numeric(s)
  {
    var v := Bare(s).value;
    assert IsDigit(v[0]);
    BareOfBare(v);
  }

  /**
   * `isSameVersion` (index.js): the range-stripped forms are equal,
   * `undefined` included. Same versions both hold a digit or neither does,
   * and when they hold one they have the same captures.
   */
  predicate IsSameVersion(currentWithRange: string, latestWithRange: string): (same: bool)
    ensures same ==> (HasDigit(currentWithRange) <==> HasDigit(latestWithRange))
    ensures same && HasDigit(currentWithRange) ==> Components(currentWithRange) == Components(latestWithRange)
  {
    Bare(currentWithRange) == Bare(latestWithRange)
  }

  /**
   * A string without any digit is the same version as another exactly when
   * that one holds no digit either: two such strings strip to `undefined`,
   * but against a version with a digit it is not the same.
   */
  lemma NoDigitsIsSame(a: string, b: string)
    requires !HasDigit(a)
    ensures IsSameVersion(a, b) <==> !HasDigit(b)
  {
  }

  /** A range operator in front of a version does not make it different. */
  lemma RangeOperatorIsSame(op: string, v: string)
    requires IsBare(v)
    requires forall j | 0 <= j < |op| :: !IsDigit(op[j])
    ensures IsSameVersion(op + v, v)
  {
    var s := op + v;
    assert IsDigit(s[|op|]);
    assert FirstDigitFrom(s, 0) == |op|;
    assert LineEnd(s, |op|) == |s|;
    assert s[|op|..|s|] == v;
    BareOfBare(v);
  }

  datatype Semver = Major | Minor | Patch

  /** The result object `{ semver, current, latest }`; `semver` None is `null`. */
  datatype Comparison = Comparison(semver: Option<Semver>, current: string, latest: string)

  /**
   * The label `compareCurrentAndLatestVersions` gives two bare versions:
   * null when they are equal, otherwise the first capture whose text
   * differs, "patch" when neither of the first two does.
   */
  function Label(current: string, latest: string): Option<Semver>
    requires IsBare(current) && IsBare(latest)
  {
    var c := SplitParts(current);
    var l := SplitParts(latest);
    if current == latest then None
    else if c.major != l.major then Some(Major)
    else if c.minor != l.minor then Some(Minor)
    else Some(Patch)
  }

  /**
   * `compareCurrentAndLatestVersions` (index.js). The components are
   * compared as strings, so "01" and "1" differ; the source throws when an
   * argument holds no digit, which the precondition excludes.
   */
  function CompareCurrentAndLatestVersions(currentWithRange: string, latestWithRange: string): (r: Comparison)
    requires HasDigit(currentWithRange) && HasDigit(latestWithRange)
    ensures Some(r.current) == Bare(currentWithRange) && Some(r.latest) == Bare(latestWithRange)
    ensures r.semver.None? <==> IsSameVersion(currentWithRange, latestWithRange)
    ensures var c, l := Components(currentWithRange), Components(latestWithRange);
      var same := IsSameVersion(currentWithRange, latestWithRange);
      && (c.major != l.major ==> r.semver == Some(Major))
      && (c.major == l.major && c.minor != l.minor ==> r.semver == Some(Minor))
      && (c.major == l.major && c.minor == l.minor && !same ==> r.semver == Some(Patch))
  {
    var current := Bare(currentWithRange).value;
    var latest := Bare(latestWithRange).value;
    Comparison(Label(current, latest), current, latest)
  }

  /** Which label is given does not depend on the order of the arguments. */
  lemma CompareSymmetric(a: string, b: string)
    requires HasDigit(a) && HasDigit(b)
    ensures CompareCurrentAndLatestVersions(a, b).semver == CompareCurrentAndLatestVersions(b, a).semver
  {
    LabelSymmetric(Bare(a).value, Bare(b).value);
  }

  lemma LabelSymmetric(x: string, y: string)
    requires IsBare(x) && IsBare(y)
    ensures Label(x, y) == Label(y, x)
  {
    var c, l := SplitParts(x), SplitParts(y);
    if x == y {
    } else if c.major != l.major {
      assert Label(x, y) == Some(Major) == Label(y, x);
    } else if c.minor != l.minor {
      assert Label(x, y) == Some(Minor) == Label(y, x);
    } else {
      assert Label(x, y) == Some(Patch) == Label(y, x);
    }
  }

  /** Numerically different majors are labelled "major". */
  lemma NumericMajorChangeIsMajor(a: string, b: string)
    requires HasDigit(a) && HasDigit(b)
    requires Numeric(a).major != Numeric(b).major
    ensures CompareCurrentAndLatestVersions(a, b).semver == Some(Major)
  {
  }

  /** Equal majors and numerically different minors are labelled "minor". */
  lemma NumericMinorChangeIsMinor(a: string, b: string)
    requires HasDigit(a) && HasDigit(b)
    requires Components(a).major == Components(b).major
    requires Numeric(a).minor != Numeric(b).minor
    ensures CompareCurrentAndLatestVersions(a, b).semver == Some(Minor)
  {
  }

  /** Equal major and minor captures and numerically different patches are labelled "patch". */
  lemma NumericPatchChangeIsPatch(a: string, b: string)
    requires HasDigit(a) && HasDigit(b)
    requires Components(a).major == Components(b).major && Components(a).minor == Components(b).minor
    requires Numeric(a).patch != Numeric(b).patch
    ensures CompareCurrentAndLatestVersions(a, b).semver == Some(Patch)
  {
  }

  /**
   * A major version written with a leading zero has the same numbers as
   * the one without it, yet the two are labelled "major", because the
   * captures are compared as text.
   */
  lemma ZeroPaddedMajorIsMajor(major: string, minor: string, patch: string)
    requires major != [] && IsDigits(major) && IsDigits(minor) && IsDigits(patch)
    requires minor != [] && patch != []
    ensures var padded, plain := "0" + major + "." + minor + "." + patch, major + "." + minor + "." + patch;
      && HasDigit(padded) && HasDigit(plain)
      && Numeric(padded) == Numeric(plain)
      && CompareCurrentAndLatestVersions(padded, plain).semver == Some(Major)
  {
    var padded, plain := "0" + major + "." + minor + "." + patch, major + "." + minor + "." + patch;
    ValueOfZeroPadded(major);
    assert padded == ("0" + major) + "." + minor + "." + patch + "";
    assert plain == major + "." + minor + "." + patch + "";
    SplitPartsOfLayout("0" + major, minor, patch, "");
    SplitPartsOfLayout(major, minor, patch, "");
    BareOfBare(padded);
    BareOfBare(plain);
    assert |"0" + major| != |major|;
  }

  /**
   * Versions whose captures agree but whose stripped text differs (a
   * pre-release suffix, a fourth component) are labelled "patch", not null.
   */
  lemma SuffixOnlyChangeIsPatch(a: string, b: string)
    requires HasDigit(a) && HasDigit(b)
    requires Components(a) == Components(b)
    requires !IsSameVersion(a, b)
    ensures CompareCurrentAndLatestVersions(a, b).semver == Some(Patch)
  {
  }

  /**
   * `getLowerVersion` (index.js): the range-stripped form of the argument
   * whose numeric (major, minor, patch) is lexicographically smaller, and
   * of the first argument on a tie. The `isNaN` tests of the source never
   * hold (every capture is a digit string) and are left out. The source
   * throws when an argument holds no digit, which the precondition excludes.
   */
  function GetLowerVersion(currentWithRange: string, latestWithRange: string): (r: string)
    requires HasDigit(currentWithRange) && HasDigit(latestWithRange)
  {
    var current := Bare(currentWithRange).value;
    var latest := Bare(latestWithRange).value;
    var c := Numeric(currentWithRange);
    var l := Numeric(latestWithRange);
    if current == latest then current
    else if l.major > c.major then current
    else if c.major > l.major then latest
    else if l.minor > c.minor then current
    else if c.minor > l.minor then latest
    else if l.patch > c.patch then current
    else if c.patch > l.patch then latest
    else current
  }

  /**
   * The lower version is the stripped form of `latestWithRange` when its
   * numbers are strictly smaller, and the stripped form of
   * `currentWithRange` otherwise.
   */
  lemma LowerSelects(currentWithRange: string, latestWithRange: string)
    requires HasDigit(currentWithRange) && HasDigit(latestWithRange)
    ensures var r := GetLowerVersion(currentWithRange, latestWithRange);
      && IsBare(r)
      && (Less(Numeric(latestWithRange), Numeric(currentWithRange)) ==> Some(r) == Bare(latestWithRange))
      && (!Less(Numeric(latestWithRange), Numeric(currentWithRange)) ==> Some(r) == Bare(currentWithRange))
  {
    var current := Bare(currentWithRange).value;
    var latest := Bare(latestWithRange).value;
    var c := Numeric(currentWithRange);
    var l := Numeric(latestWithRange);
    var r := GetLowerVersion(currentWithRange, latestWithRange);
    if current == latest {
      assert r == current;
    } else if Less(l, c) {
      assert r == latest;
    } else {
      assert r == current;
    }
  }

  /** The lower version holds a digit. */
  lemma LowerHasDigit(a: string, b: string)
    requires HasDigit(a) && HasDigit(b)
    ensures HasDigit(GetLowerVersion(a, b))
  {
    LowerSelects(a, b);
    BareHasDigit(GetLowerVersion(a, b));
  }

  /**
   * The lower version has a digit, its numbers are those of one of the two
   * arguments, and they are no greater than either argument's.
   */
  lemma LowerIsMinimum(a: string, b: string)
    requires HasDigit(a) && HasDigit(b)
    ensures HasDigit(GetLowerVersion(a, b))
    ensures var n := Numeric(GetLowerVersion(a, b));
      && LessOrEqual(n, Numeric(a)) && LessOrEqual(n, Numeric(b))
      && (n == Numeric(a) || n == Numeric(b))
  {
    NumericOfBare(a);
    NumericOfBare(b);
    LowerSelects(a, b);
    var r := GetLowerVersion(a, b);
    BareHasDigit(r);
    var na, nb := Numeric(a), Numeric(b);
    if Less(nb, na) {
      assert r == Bare(b).value;
      assert Numeric(r) == nb;
    } else {
      assert r == Bare(a).value;
      assert Numeric(r) == na;
    }
  }

  /** Equal stripped forms: the common stripped form is the lower one. */
  lemma LowerOfSame(a: string, b: string)
    requires HasDigit(a) && HasDigit(b)
    requires IsSameVersion(a, b)
    ensures Some(GetLowerVersion(a, b)) == Bare(a)
  {
  }

  /** Swapping the arguments can change the text returned on a tie, never its numbers. */
  lemma LowerCommutesNumerically(a: string, b: string)
    requires HasDigit(a) && HasDigit(b)
    ensures HasDigit(GetLowerVersion(a, b)) && HasDigit(GetLowerVersion(b, a))
    ensures Numeric(GetLowerVersion(a, b)) == Numeric(GetLowerVersion(b, a))
  {
    LowerSelects(a, b);
    LowerSelects(b, a);
    LowerIsMinimum(a, b);
    LowerIsMinimum(b, a);
  }

  /** Folding `getLowerVersion` does not depend on how the fold is bracketed. */
  lemma LowerAssociative(a: string, b: string, c: string)
    requires HasDigit(a) && HasDigit(b) && HasDigit(c)
    ensures HasDigit(GetLowerVersion(b, c)) && HasDigit(GetLowerVersion(a, b))
    ensures GetLowerVersion(a, GetLowerVersion(b, c)) == GetLowerVersion(GetLowerVersion(a, b), c)
  {
    NumericOfBare(a);
    NumericOfBare(b);
    NumericOfBare(c);
    LowerSelects(b, c);
    LowerSelects(a, b);
    LowerIsMinimum(b, c);
    LowerIsMinimum(a, b);
    LowerSelects(a, GetLowerVersion(b, c));
    LowerSelects(GetLowerVersion(a, b), c);
  }

  /** Lowering once more against a bare version it was already lowered against changes nothing. */
  lemma LowerAgainstBareAgain(x: string, v: string)
    requires HasDigit(x) && IsBare(v)
    ensures HasDigit(GetLowerVersion(x, v))
    ensures GetLowerVersion(GetLowerVersion(x, v), v) == GetLowerVersion(x, v)
  {
    BareHasDigit(v);
    LowerSelects(x, v);
    var r := GetLowerVersion(x, v);
    BareHasDigit(r);
    LowerIsMinimum(x, v);
    LowerSelects(r, v);
    BareOfBare(r);
  }

  /**
   * On a numeric tie each argument order returns its own first argument,
   * so "lower" commutes on numbers but not on text ("1.0.0-a", "1.0.0-b").
   */
  lemma LowerTieKeepsFirst(a: string, b: string)
    requires HasDigit(a) && HasDigit(b)
    requires Numeric(a) == Numeric(b)
    ensures Some(GetLowerVersion(a, b)) == Bare(a)
    ensures Some(GetLowerVersion(b, a)) == Bare(b)
  {
    LowerSelects(a, b);
    LowerSelects(b, a);
  }
}
