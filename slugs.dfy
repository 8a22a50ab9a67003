/**
 * `getSlug` of index.js: the readable identifier of a group, built from a
 * package or scope name and a version. Character classes are those of
 * JavaScript regular expressions without the `u` flag, which are ASCII.
 */
module Slugs {
  import opened Versions
  import opened Strings

  predicate IsUpper(c: char) { 'A' <= c <= 'Z' }

  predicate IsLower(c: char) { 'a' <= c <= 'z' }

  /** `\w`: an ASCII letter, digit or underscore. */
  predicate IsWordChar(c: char) { IsUpper(c) || IsLower(c) || IsDigit(c) || c == '_' }

  /** What a slug's name part is made of: `[a-z0-9_]`. */
  predicate IsSlugNameChar(c: char) { IsLower(c) || IsDigit(c) || c == '_' }

  /** `toLowerCase` on one character, ASCII letters only. */
  function LowerChar(c: char): char {
    if IsUpper(c) then (c as int - 'A' as int + 'a' as int) as char else c
  }

  /** The replacement `.replace(/\W/g, "_")` makes at one character. */
  function WordOrUnderscore(c: char): char {
    if IsWordChar(c) then c else '_'
  }

  /** The replacement `.replace(/\D/g, "_")` makes at one character. */
  function DigitOrUnderscore(c: char): char {
    if IsDigit(c) then c else '_'
  }

  /** `s` with `f` applied to every character, as a global replace does. */
  function Translate(s: string, f: char -> char): (r: string)
    ensures |r| == |s|
    ensures forall i | 0 <= i < |s| :: r[i] == f(s[i])
  {
    if s == [] then [] else [f(s[0])] + Translate(s[1..], f)
  }

  /**
   * `s.replace(c, "")` with a string pattern: only the first occurrence
   * of `c` is removed.
   */
  function RemoveFirst(s: string, c: char): (r: string)
    ensures c !in s ==> r == s
    ensures c in s ==> exists j | 0 <= j < |s| :: s[j] == c && c !in s[..j] && r == s[..j] + s[j + 1..]
  {
    var j := IndexOf(s, c, 0);
    IndexOfFirst(s, c);
    if j == |s| then s else s[..j] + s[j + 1..]
  }

  /** The name part of a slug. */
  function SlugName(packageName: string): string {
    Translate(RemoveFirst(Translate(packageName, LowerChar), '@'), WordOrUnderscore)
  }

  /** The version part of a slug. */
  function SlugVersion(version: string): string {
    Translate(version, DigitOrUnderscore)
  }

  /** `getSlug` (index.js). */
  function GetSlug(packageName: string, version: string): string {
    SlugName(packageName) + "-" + SlugVersion(version)
  }

  /** The name part is one character shorter than the name exactly when the name holds an `@`. */
  lemma SlugNameLength(packageName: string)
    ensures |SlugName(packageName)| == if '@' in packageName then |packageName| - 1 else |packageName|
  {
    var lowered := Translate(packageName, LowerChar);
    assert '@' in lowered <==> '@' in packageName by {
      if '@' in packageName {
        var i :| 0 <= i < |packageName| && packageName[i] == '@';
        assert lowered[i] == '@';
      }
      if '@' in lowered {
        var i :| 0 <= i < |lowered| && lowered[i] == '@';
        assert packageName[i] == '@';
      }
    }
  }

  /** Each character left by `RemoveFirst` is the one at its place or the one after it. */
  lemma RemoveFirstAt(s: string, c: char, i: nat)
    requires i < |RemoveFirst(s, c)|
    ensures i + 1 <= |s|
    ensures RemoveFirst(s, c)[i] == s[i] || (i + 1 < |s| && RemoveFirst(s, c)[i] == s[i + 1])
  {
    var j := IndexOf(s, c, 0);
    if j < |s| {
      var r := s[..j] + s[j + 1..];
      if i < j { assert r[i] == s[i]; } else { assert r[i] == s[i + 1]; }
    }
  }

  /** Each character of the name part is a lower-case ASCII letter, a digit or `_`. */
  lemma SlugNameChars(packageName: string)
    ensures forall i | 0 <= i < |SlugName(packageName)| :: IsSlugNameChar(SlugName(packageName)[i])
  {
    var lowered := Translate(packageName, LowerChar);
    var removed := RemoveFirst(lowered, '@');
    forall i | 0 <= i < |removed| ensures !IsUpper(removed[i]) {
      RemoveFirstAt(lowered, '@', i);
    }
  }

  /**
   * On a name with no `@`, the name part keeps every letter (lower-cased),
   * digit and underscore in place and turns every other character into `_`.
   */
  lemma SlugNameWithoutAt(packageName: string)
    requires '@' !in packageName
    ensures |SlugName(packageName)| == |packageName|
    ensures forall i | 0 <= i < |packageName| ::
      SlugName(packageName)[i] == if IsWordChar(packageName[i]) then LowerChar(packageName[i]) else '_'
  {
    var lowered := Translate(packageName, LowerChar);
    assert '@' !in lowered by {
      forall i | 0 <= i < |lowered| ensures lowered[i] != '@' { }
    }
    forall i | 0 <= i < |packageName|
      ensures IsWordChar(lowered[i]) <==> IsWordChar(packageName[i])
    { }
  }

  /** A leading `@`, as in a scope name such as `@babel`, is the one dropped. */
  lemma SlugNameOfScope(rest: string)
    requires '@' !in rest
    ensures SlugName("@" + rest) == SlugName(rest)
  {
    var lowered := Translate("@" + rest, LowerChar);
    var tail := Translate(rest, LowerChar);
    assert IndexOf(lowered, '@', 0) == 0;
    assert RemoveFirst(lowered, '@') == lowered[1..];
    assert lowered[1..] == tail by {
      forall i | 0 <= i < |tail| ensures lowered[1..][i] == tail[i] {
        assert ("@" + rest)[i + 1] == rest[i];
      }
    }
    assert '@' !in tail by {
      forall i | 0 <= i < |tail| ensures tail[i] != '@' { }
    }
  }

  /**
   * The version part has the length of the version, keeps its digits in
   * place and turns every other character into `_`.
   */
  lemma SlugVersionChars(version: string)
    ensures |SlugVersion(version)| == |version|
    ensures forall i | 0 <= i < |version| ::
      && (IsDigit(version[i]) ==> SlugVersion(version)[i] == version[i])
      && (!IsDigit(version[i]) ==> SlugVersion(version)[i] == '_')
  {
  }

  /**
   * A slug is the name part, one `-`, and the version part; the `-`
   * between them is its only one, since neither part can hold one.
   */
  lemma SlugShape(packageName: string, version: string)
    ensures var slug := GetSlug(packageName, version);
      var d := |SlugName(packageName)|;
      && |slug| == d + 1 + |version|
      && slug[d] == '-'
      && (forall i | 0 <= i < |slug| :: slug[i] == '-' <==> i == d)
      && (forall i | 0 <= i < d :: IsSlugNameChar(slug[i]))
      && (forall i | d < i < |slug| :: IsDigit(slug[i]) || slug[i] == '_')
  {
    SlugNameChars(packageName);
    SlugVersionChars(version);
    DashJoin(SlugName(packageName), SlugVersion(version));
  }

  /** Two parts without a `-` joined by one. */
  lemma DashJoin(name: string, ver: string)
    requires forall i | 0 <= i < |name| :: IsSlugNameChar(name[i])
    requires forall i | 0 <= i < |ver| :: IsDigit(ver[i]) || ver[i] == '_'
    ensures var s, d := name + "-" + ver, |name|;
      && |s| == d + 1 + |ver|
      && s[d] == '-'
      && (forall i | 0 <= i < |s| :: s[i] == '-' <==> i == d)
      && (forall i | 0 <= i < d :: IsSlugNameChar(s[i]))
      && (forall i | d < i < |s| :: IsDigit(s[i]) || s[i] == '_')
  {
    var s, d := name + "-" + ver, |name|;
    forall i | 0 <= i < |s| ensures s[i] == '-' <==> i == d {
      if i < d {
        assert s[i] == name[i];
      } else if i > d {
        assert s[i] == ver[i - d - 1];
      }
    }
    forall i | d < i < |s| ensures IsDigit(s[i]) || s[i] == '_' {
      assert s[i] == ver[i - d - 1];
    }
  }
}
