/**
 * `generatePullRequestBody` of index.js: the changelog of a group, one
 * markdown bullet per package, linked to the repository when its address
 * is known.
 */
module PullRequests {
  import opened Wrappers
  import opened Packages

  /** `if (url)`: an address is present and is not the empty string. */
  predicate HasLink(p: PackageInfo) { p.url.Some? && p.url.value != "" }

  /** The bullet for one package. */
  function Line(p: PackageInfo): string {
    if HasLink(p) then
      "- Bumps [" + p.name + "](" + p.url.value + ") from " + p.currentVersion + " to " + p.latestVersion + "\n"
    else
      "- Bumps " + p.name + " from " + p.currentVersion + " to " + p.latestVersion + "\n"
  }

  /** The text `line` gives each package, one after another. */
  function Joined(ps: seq<PackageInfo>, line: PackageInfo -> string): string {
    if ps == [] then "" else Joined(ps[..|ps| - 1], line) + line(ps[|ps| - 1])
  }

  /** The bullets of all packages, in order. */
  function Body(ps: seq<PackageInfo>): string {
    Joined(ps, Line)
  }

  /** `generatePullRequestBody` (index.js): appends one bullet per package. */
  method GeneratePullRequestBody(packagesWithMetadata: seq<PackageInfo>) returns (text: string)
    ensures text == Body(packagesWithMetadata)
  {
    text := "";
    for i := 0 to |packagesWithMetadata|
      invariant text == Body(packagesWithMetadata[..i])
    {
      var p := packagesWithMetadata[i];
      var line;
      if p.url.Some? && p.url.value != "" {
        line := "- Bumps [" + p.name + "](" + p.url.value + ") from " + p.currentVersion + " to " + p.latestVersion + "\n";
      } else {
        line := "- Bumps " + p.name + " from " + p.currentVersion + " to " + p.latestVersion + "\n";
      }
      assert line == Line(p);
      BodySnoc(packagesWithMetadata, i);
      text := text + line;
    }
    assert packagesWithMetadata[..|packagesWithMetadata|] == packagesWithMetadata;
  }

  /** The body of a prefix one longer gains the bullet of the next package. */
  lemma BodySnoc(ps: seq<PackageInfo>, i: nat)
    requires i < |ps|
    ensures Body(ps[..i + 1]) == Body(ps[..i]) + Line(ps[i])
  {
    assert Joined(ps[..i + 1], Line) == Joined(ps[..i + 1][..i], Line) + Line(ps[..i + 1][i]);
    assert ps[..i + 1][..i] == ps[..i];
  }

  /** The body of two runs of packages is the body of one followed by that of the other. */
  lemma BodyConcat(xs: seq<PackageInfo>, ys: seq<PackageInfo>)
    ensures Body(xs + ys) == Body(xs) + Body(ys)
  {
    JoinedConcat(xs, ys, Line);
  }

  lemma {:induction false} JoinedConcat(xs: seq<PackageInfo>, ys: seq<PackageInfo>, line: PackageInfo -> string)
    ensures Joined(xs + ys, line) == Joined(xs, line) + Joined(ys, line)
  {
    if ys == [] {
      assert xs + ys == xs;
    } else {
      var init, last := ys[..|ys| - 1], ys[|ys| - 1];
      JoinedConcat(xs, init, line);
      var zs := xs + ys;
      assert zs[..|zs| - 1] == xs + init;
      assert zs[|zs| - 1] == last;
      Associative(Joined(xs, line), Joined(init, line), line(last));
    }
  }

  lemma Associative(a: string, b: string, c: string)
    ensures (a + b) + c == a + (b + c)
  {
  }

  /**
   * Each bullet starts with `- Bumps `, ends with a line break, and shows
   * a link exactly when the package has an address (npm names never start
   * with `[`).
   */
  lemma LineShape(p: PackageInfo)
    requires p.name == "" || p.name[0] != '['
    ensures var l := Line(p);
      && |l| > 8
      && l[..8] == "- Bumps "
      && l[|l| - 1] == '\n'
      && (l[8] == '[' <==> HasLink(p))
  {
    var l := Line(p);
    if !HasLink(p) {
      var rest := p.name + " from " + p.currentVersion + " to " + p.latestVersion + "\n";
      assert l == "- Bumps " + rest;
      assert l[8] == rest[0];
    }
  }

  /** The number of line breaks in `s`. */
  function Breaks(s: string): nat {
    if s == [] then 0 else Breaks(s[..|s| - 1]) + (if s[|s| - 1] == '\n' then 1 else 0)
  }

  lemma {:induction false} BreaksConcat(a: string, b: string)
    ensures Breaks(a + b) == Breaks(a) + Breaks(b)
  {
    if b == [] {
      assert a + b == a;
    } else {
      BreaksConcat(a, b[..|b| - 1]);
      assert (a + b)[..|a + b| - 1] == a + b[..|b| - 1];
    }
  }

  /** A string with no line break has none to count. */
  lemma {:induction false} NoBreaks(s: string)
    requires '\n' !in s
    ensures Breaks(s) == 0
  {
    if s != [] {
      assert s[|s| - 1] in s;
      var init := s[..|s| - 1];
      assert '\n' !in init by {
        forall k | 0 <= k < |init| ensures init[k] != '\n' {
          assert init[k] == s[k] && s[k] in s;
        }
      }
      NoBreaks(s[..|s| - 1]);
    }
  }

  /** No field of `p` holds a line break. */
  predicate SingleLine(p: PackageInfo) {
    && '\n' !in p.name && '\n' !in p.currentVersion && '\n' !in p.latestVersion
    && (p.url.Some? ==> '\n' !in p.url.value)
  }

  /** A package none of whose fields breaks a line gives exactly one line. */
  lemma LineBreaks(p: PackageInfo)
    requires SingleLine(p)
    ensures Breaks(Line(p)) == 1
  {
    var l := Line(p);
    var text := l[..|l| - 1];
    assert l == text + "\n";
    assert '\n' !in text by {
      if HasLink(p) {
        assert text == "- Bumps [" + p.name + "](" + p.url.value + ") from " + p.currentVersion + " to " + p.latestVersion;
      } else {
        assert text == "- Bumps " + p.name + " from " + p.currentVersion + " to " + p.latestVersion;
      }
    }
    NoBreaks(text);
    BreaksConcat(text, "\n");
  }

  /** The body has one line per package when no field breaks a line. */
  lemma {:induction false} BodyLines(ps: seq<PackageInfo>)
    requires forall i | 0 <= i < |ps| :: SingleLine(ps[i])
    ensures Breaks(Body(ps)) == |ps|
  {
    if ps != [] {
      BodyLines(ps[..|ps| - 1]);
      LineBreaks(ps[|ps| - 1]);
      BreaksConcat(Body(ps[..|ps| - 1]), Line(ps[|ps| - 1]));
    }
  }
}
