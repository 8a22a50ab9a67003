/**
 * `getGitURL` of index.js: the web address of a package's repository,
 * taken from its registry metadata with `url.match(/(git\+)?(.*)\.git/)`.
 * The search is modelled as JavaScript runs it: the leftmost starting
 * position that matches wins; there the optional `git+` is tried first,
 * and the greedy `.*` (which does not cross a line terminator) backs off
 * from the end of the line to the last `.git` it can reach.
 */
module GitUrls {
  import opened Wrappers
  import opened Versions

  /** The `repository` field of the registry metadata: `{ type, url }`. */
  datatype Repository = Repository(kind: string, url: string)

  /** `.git` occurs in `s` at index `e`. */
  predicate IsGitAt(s: string, e: int) {
    0 <= e && e + 4 <= |s| && s[e..e + 4] == ".git"
  }

  /** `git+` occurs in `s` at index `p`. */
  predicate IsGitPlusAt(s: string, p: nat) {
    p + 4 <= |s| && s[p..p + 4] == "git+"
  }

  /** The greatest index in `lo..hi` where `.git` occurs, if any. */
  function LastGitIn(s: string, lo: nat, hi: nat): (r: Option<nat>)
    requires lo <= hi
    ensures r.Some? ==> lo <= r.value <= hi && IsGitAt(s, r.value)
    ensures forall e | lo <= e <= hi && IsGitAt(s, e) :: r.Some? && e <= r.value
    decreases hi - lo
  {
    if IsGitAt(s, hi) then Some(hi)
    else if hi == lo then None
    else LastGitIn(s, lo, hi - 1)
  }

  /**
   * Capture 2 of a match of `(.*)\.git` that starts at `q`: up to the last
   * `.git` that begins before the end of the line.
   */
  function CaptureFrom(s: string, q: nat): (r: Option<string>)
    requires q <= |s|
  {
    match LastGitIn(s, q, LineEnd(s, q))
    case None => None
    case Some(e) => Some(s[q..e])
  }

  /** Capture 2 of a match that starts at `p`, trying the optional `git+` first. */
  function MatchAt(s: string, p: nat): (r: Option<string>)
    requires p <= |s|
  {
    if IsGitPlusAt(s, p) && CaptureFrom(s, p + 4).Some? then CaptureFrom(s, p + 4)
    else CaptureFrom(s, p)
  }

  /** Capture 2 of the leftmost match at or after `p`. */
  function SearchFrom(s: string, p: nat): (r: Option<string>)
    requires p <= |s|
    decreases |s| - p
  {
    var m := MatchAt(s, p);
    if m.Some? || p == |s| then m else SearchFrom(s, p + 1)
  }

  /**
   * `getGitURL` (index.js): None stands for both the `null` given for a
   * repository that is not git and the `undefined` given when the URL
   * does not match.
   */
  function GetGitURL(repository: Repository): (r: Option<string>)
    ensures repository.kind != "git" ==> r.None?
  {
    if repository.kind == "git" then SearchFrom(repository.url, 0) else None
  }

  /** A search fails only where no `.git` occurs from its start on. */
  lemma {:induction false} SearchFinds(s: string, p: nat, e: nat)
    requires p <= e && IsGitAt(s, e)
    ensures SearchFrom(s, p).Some?
    decreases e - p
  {
    if MatchAt(s, p).None? && p < e {
      SearchFinds(s, p + 1, e);
    }
  }

  /** A search that succeeds has a `.git` to stop at. */
  lemma {:induction false} SearchFound(s: string, p: nat)
    requires p <= |s|
    requires SearchFrom(s, p).Some?
    ensures exists e :: p <= e && IsGitAt(s, e)
    decreases |s| - p
  {
    if MatchAt(s, p).Some? {
      var q := if IsGitPlusAt(s, p) && CaptureFrom(s, p + 4).Some? then p + 4 else p;
      assert CaptureFrom(s, q).Some?;
      var e := LastGitIn(s, q, LineEnd(s, q)).value;
      assert p <= e && IsGitAt(s, e);
    } else {
      SearchFound(s, p + 1);
    }
  }

  /** A git repository yields an address exactly when its URL contains `.git`. */
  lemma GitURLDefined(repository: Repository)
    ensures GetGitURL(repository).Some? <==> repository.kind == "git" && exists e :: IsGitAt(repository.url, e)
  {
    if repository.kind == "git" {
      if e :| IsGitAt(repository.url, e) {
        SearchFinds(repository.url, 0, e);
      }
      if GetGitURL(repository).Some? {
        SearchFound(repository.url, 0);
      }
    }
  }

  /** In a URL without line breaks the whole URL is one line. */
  lemma WholeLine(s: string, q: nat)
    requires q <= |s| && NoLineTerminator(s)
    ensures LineEnd(s, q) == |s|
  {
  }

  /** The last `.git` of a URL that ends in `.git` is that ending. */
  lemma LastGitIsEnding(s: string, q: nat)
    requires q + 4 <= |s| && s[|s| - 4..] == ".git"
    ensures LastGitIn(s, q, |s|) == Some(|s| - 4)
  {
    assert IsGitAt(s, |s| - 4);
  }

  /** `git+u.git`, as npm writes repository URLs, yields `u`. */
  lemma GitPlusURL(u: string)
    requires NoLineTerminator(u)
    ensures GetGitURL(Repository("git", "git+" + u + ".git")) == Some(u)
  {
    var s := "git+" + u + ".git";
    assert NoLineTerminator(s) by {
      forall j | 0 <= j < |s| ensures !IsLineTerminator(s[j]) {
        if 4 <= j < |s| - 4 { assert s[j] == u[j - 4]; }
      }
    }
    assert s[|s| - 4..] == ".git";
    assert s[0..4] == "git+";
    WholeLine(s, 4);
    LastGitIsEnding(s, 4);
    assert s[4..|s| - 4] == u;
  }

  /** `u.git`, when `u` does not itself start with `git+`, yields `u`. */
  lemma PlainURL(u: string)
    requires NoLineTerminator(u)
    requires !IsGitPlusAt(u, 0)
    ensures GetGitURL(Repository("git", u + ".git")) == Some(u)
  {
    var s := u + ".git";
    assert NoLineTerminator(s) by {
      forall j | 0 <= j < |s| ensures !IsLineTerminator(s[j]) {
        if j < |u| { assert s[j] == u[j]; }
      }
    }
    assert s[|s| - 4..] == ".git";
    assert !IsGitPlusAt(s, 0) by {
      if |u| >= 4 { assert s[0..4] == u[0..4]; } else { assert s[3] == ".git"[3 - |u|]; }
    }
    WholeLine(s, 0);
    LastGitIsEnding(s, 0);
    assert s[0..|s| - 4] == u;
  }
}
