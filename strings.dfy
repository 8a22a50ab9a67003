/** Searching a string for a character, as `indexOf` does. */
module Strings {

  /** Index of the first `c` in `s` at or after `i`, or `|s|` when there is none. */
  function IndexOf(s: string, c: char, i: nat): (j: nat)
    requires i <= |s|
    ensures i <= j <= |s|
    ensures forall k | i <= k < j :: s[k] != c
    ensures j < |s| ==> s[j] == c
    decreases |s| - i
  {
    if i == |s| || s[i] == c then i else IndexOf(s, c, i + 1)
  }

  /** The first `c` of `s` is at `IndexOf(s, c, 0)`, and it is there only if `c` occurs at all. */
  lemma IndexOfFirst(s: string, c: char)
    ensures var j := IndexOf(s, c, 0);
      && c !in s[..j]
      && (j < |s| <==> c in s)
  {
    var j := IndexOf(s, c, 0);
    assert forall k | 0 <= k < j :: s[..j][k] != c;
    if c in s {
      var k :| 0 <= k < |s| && s[k] == c;
    }
  }
}
