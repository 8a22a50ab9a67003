/**
 * `getStringAsArray` of index.js: a list input such as "a, b\nc" split on
 * runs of commas and line breaks, each piece trimmed, empty pieces dropped.
 */
module Inputs {

  /** `[\n,]`. */
  predicate IsSeparator(c: char) { c == '\n' || c == ',' }

  /** The characters `String.prototype.trim` removes: white space and line terminators. */
  predicate IsWhiteSpace(c: char) {
    || c == '\t' || c == '\n' || c == '\U{000B}' || c == '\U{000C}' || c == '\r' || c == ' '
    || c == '\U{00A0}' || c == '\U{1680}' || ('\U{2000}' <= c <= '\U{200A}')
    || c == '\U{2028}' || c == '\U{2029}' || c == '\U{202F}' || c == '\U{205F}'
    || c == '\U{3000}' || c == '\U{FEFF}'
  }

  predicate NoSeparator(s: string) { forall k | 0 <= k < |s| :: !IsSeparator(s[k]) }

  /** What `trim` leaves: nothing to remove at either end. */
  predicate IsTrimmed(s: string) {
    s == [] || (!IsWhiteSpace(s[0]) && !IsWhiteSpace(s[|s| - 1]))
  }

  /** An element as the result holds them: non-empty, trimmed, without a separator. */
  predicate IsItem(s: string) { s != [] && IsTrimmed(s) && NoSeparator(s) }

  /** Index of the first separator of `s` at or after `i`, or `|s|`. */
  function SegmentEnd(s: string, i: nat): (j: nat)
    requires i <= |s|
    ensures i <= j <= |s|
    ensures forall k | i <= k < j :: !IsSeparator(s[k])
    ensures j < |s| ==> IsSeparator(s[j])
    decreases |s| - i
  {
    if i == |s| || IsSeparator(s[i]) then i else SegmentEnd(s, i + 1)
  }

  /** End of the run of separators of `s` that starts at `i`. */
  function SeparatorsEnd(s: string, i: nat): (j: nat)
    requires i <= |s|
    ensures i <= j <= |s|
    ensures forall k | i <= k < j :: IsSeparator(s[k])
    ensures j < |s| ==> !IsSeparator(s[j])
    decreases |s| - i
  {
    if i == |s| || !IsSeparator(s[i]) then i else SeparatorsEnd(s, i + 1)
  }

  /**
   * `s.split(/[\n,]+/)`: the pieces between maximal runs of separators,
   * with an empty first or last piece when `s` starts or ends with one;
   * the empty string is one empty piece.
   */
  function Split(s: string): (r: seq<string>)
    ensures |r| > 0
    ensures forall i | 0 <= i < |r| :: NoSeparator(r[i])
    decreases |s|
  {
    var j := SegmentEnd(s, 0);
    if j == |s| then [s]
    else
      var k := SeparatorsEnd(s, j);
      [s[..j]] + Split(s[k..])
  }

  /** A non-empty run of separators, such as ",\n,". */
  predicate IsSeparatorRun(sep: string) {
    sep != [] && forall k | 0 <= k < |sep| :: IsSeparator(sep[k])
  }

  /**
   * Splitting two texts joined by a run of separators splits each of
   * them, when the run is maximal: the first text does not end and the
   * second does not start with a separator.
   */
  lemma {:induction false} SplitConcat(a: string, sep: string, b: string)
    requires IsSeparatorRun(sep)
    requires a != [] ==> !IsSeparator(a[|a| - 1])
    requires b != [] ==> !IsSeparator(b[0])
    ensures Split(a + sep + b) == Split(a) + Split(b)
    decreases |a|
  {
    if SegmentEnd(a, 0) == |a| {
      SplitConcatWhole(a, sep, b);
    } else {
      var rest := SplitConcatStep(a, sep, b);
      SplitConcat(rest, sep, b);
      ConcatAssociative([a[..SegmentEnd(a, 0)]], Split(rest), Split(b));
    }
  }

  lemma ConcatAssociative(xs: seq<string>, ys: seq<string>, zs: seq<string>)
    ensures xs + (ys + zs) == (xs + ys) + zs
  {
  }

  /** `SplitConcat` when `a` holds no separator: `a` is the first piece. */
  lemma SplitConcatWhole(a: string, sep: string, b: string)
    requires IsSeparatorRun(sep) && SegmentEnd(a, 0) == |a|
    requires b != [] ==> !IsSeparator(b[0])
    ensures Split(a + sep + b) == [a] + Split(b) && Split(a) == [a]
  {
    var s := a + sep + b;
    assert s == a + (sep + b);
    SegmentEndConcat(a, sep + b, 0);
    SeparatorRunAt(a, sep, b);
    assert s[..|a|] == a;
  }

  /**
   * `SplitConcat` when `a` holds a separator: both splits start with the
   * same first piece, and continue with what follows the first run of
   * separators in `a`.
   */
  lemma SplitConcatStep(a: string, sep: string, b: string) returns (rest: string)
    requires SegmentEnd(a, 0) < |a|
    requires a != [] ==> !IsSeparator(a[|a| - 1])
    ensures |rest| < |a| && rest != [] && rest[|rest| - 1] == a[|a| - 1]
    ensures Split(a) == [a[..SegmentEnd(a, 0)]] + Split(rest)
    ensures Split(a + sep + b) == [a[..SegmentEnd(a, 0)]] + Split(rest + sep + b)
  {
    var s := a + sep + b;
    var ja := SegmentEnd(a, 0);
    assert s == a + (sep + b);
    SegmentEndConcat(a, sep + b, 0);
    var ka := SeparatorsEnd(a, ja);
    SeparatorsEndConcat(a, sep + b, ja);
    rest := a[ka..];
    assert s[..ja] == a[..ja];
    assert s[ka..] == rest + sep + b;
  }

  /** The run of separators after `a` ends where `b` starts. */
  lemma SeparatorRunAt(a: string, sep: string, b: string)
    requires IsSeparatorRun(sep)
    requires b != [] ==> !IsSeparator(b[0])
    ensures SeparatorsEnd(a + sep + b, |a|) == |a| + |sep|
    ensures (a + sep + b)[|a| + |sep|..] == b
  {
    var s := a + sep + b;
    assert forall k | |a| <= k < |a| + |sep| :: s[k] == sep[k - |a|];
    assert |a| + |sep| < |s| ==> s[|a| + |sep|] == b[0];
    SeparatorsEndRun(s, |a|, |a| + |sep|);
  }

  /** `SegmentEnd` within `a` is not moved by what follows `a`, unless it reaches the end of `a`. */
  lemma SegmentEndConcat(a: string, t: string, i: nat)
    requires i <= |a|
    ensures SegmentEnd(a, i) < |a| ==> SegmentEnd(a + t, i) == SegmentEnd(a, i)
    ensures SegmentEnd(a, i) == |a| && t != [] && IsSeparator(t[0]) ==> SegmentEnd(a + t, i) == |a|
    decreases |a| - i
  {
    if i < |a| && !IsSeparator(a[i]) {
      SegmentEndConcat(a, t, i + 1);
    }
  }

  /** `SeparatorsEnd` within `a` is not moved by what follows `a`, unless it reaches the end of `a`. */
  lemma SeparatorsEndConcat(a: string, t: string, i: nat)
    requires i <= |a|
    ensures SeparatorsEnd(a, i) < |a| ==> SeparatorsEnd(a + t, i) == SeparatorsEnd(a, i)
    decreases |a| - i
  {
    if i < |a| && IsSeparator(a[i]) {
      SeparatorsEndConcat(a, t, i + 1);
    }
  }

  /** A maximal run of separators from `lo` to `hi` is what `SeparatorsEnd` finds. */
  lemma SeparatorsEndRun(s: string, lo: nat, hi: nat)
    requires lo <= hi <= |s|
    requires forall k | lo <= k < hi :: IsSeparator(s[k])
    requires hi < |s| ==> !IsSeparator(s[hi])
    ensures SeparatorsEnd(s, lo) == hi
    decreases hi - lo
  {
    if lo < hi {
      SeparatorsEndRun(s, lo + 1, hi);
    }
  }

  /** Index of the first character of `s` that `trim` keeps, or `|s|`. */
  function TrimStart(s: string, i: nat): (j: nat)
    requires i <= |s|
    ensures i <= j <= |s|
    ensures forall k | i <= k < j :: IsWhiteSpace(s[k])
    ensures j < |s| ==> !IsWhiteSpace(s[j])
    decreases |s| - i
  {
    if i == |s| || !IsWhiteSpace(s[i]) then i else TrimStart(s, i + 1)
  }

  /** End of what `trim` keeps of `s[lo..hi]`. */
  function TrimEnd(s: string, lo: nat, hi: nat): (j: nat)
    requires lo <= hi <= |s|
    ensures lo <= j <= hi
    ensures forall k | j <= k < hi :: IsWhiteSpace(s[k])
    ensures j > lo ==> !IsWhiteSpace(s[j - 1])
    decreases hi - lo
  {
    if hi == lo || !IsWhiteSpace(s[hi - 1]) then hi else TrimEnd(s, lo, hi - 1)
  }

  /**
   * `s.trim()`: `s` without its leading and trailing white space, that is,
   * a stretch of `s` with only white space around it that does not itself
   * start or end with white space.
   */
  function Trim(s: string): (r: string)
    ensures IsTrimmed(r)
    ensures exists i, j | 0 <= i <= j <= |s| ::
              && r == s[i..j]
              && (forall k | 0 <= k < i :: IsWhiteSpace(s[k]))
              && (forall k | j <= k < |s| :: IsWhiteSpace(s[k]))
    ensures NoSeparator(s) ==> NoSeparator(r)
    ensures IsTrimmed(s) ==> r == s
  {
    var i := TrimStart(s, 0);
    var j := TrimEnd(s, i, |s|);
    assert 0 < |s| && !IsWhiteSpace(s[0]) ==> i == 0;
    assert 0 < |s| && !IsWhiteSpace(s[|s| - 1]) ==> j == |s|;
    s[i..j]
  }

  /** `.map((s) => s.trim())`. */
  function TrimAll(xs: seq<string>): (r: seq<string>)
    ensures |r| == |xs|
    ensures forall i | 0 <= i < |xs| :: r[i] == Trim(xs[i])
  {
    if xs == [] then [] else [Trim(xs[0])] + TrimAll(xs[1..])
  }

  /** `.filter((x) => x !== "")`. */
  function NonEmpty(xs: seq<string>): (r: seq<string>)
    ensures forall i | 0 <= i < |r| :: r[i] != "" && r[i] in xs
    ensures forall x :: x in r <==> x in xs && x != ""
    ensures (forall i | 0 <= i < |xs| :: xs[i] != "") ==> r == xs
  {
    if xs == [] then []
    else if xs[0] == "" then NonEmpty(xs[1..])
    else [xs[0]] + NonEmpty(xs[1..])
  }

  /**
   * The filter keeps the order of what it keeps: filtering a list split in
   * two filters each half, and a single element is kept exactly when it is
   * not empty.
   */
  lemma {:induction false} NonEmptyConcat(xs: seq<string>, ys: seq<string>)
    ensures NonEmpty(xs + ys) == NonEmpty(xs) + NonEmpty(ys)
    ensures forall x :: NonEmpty([x]) == if x == "" then [] else [x]
    decreases |xs|
  {
    if xs == [] {
      assert xs + ys == ys;
    } else {
      assert (xs + ys)[0] == xs[0];
      assert (xs + ys)[1..] == xs[1..] + ys;
      NonEmptyConcat(xs[1..], ys);
    }
    forall x ensures NonEmpty([x]) == if x == "" then [] else [x] {
      assert [x][1..] == [];
    }
  }

  /**
   * `getStringAsArray` (index.js). No element is empty, holds a comma or
   * a line break, or starts or ends with white space.
   */
  function GetStringAsArray(str: string): (r: seq<string>)
    ensures forall i | 0 <= i < |r| :: IsItem(r[i])
  {
    var pieces := Split(str);
    var trimmed := TrimAll(pieces);
    assert forall i | 0 <= i < |trimmed| :: IsTrimmed(trimmed[i]) && NoSeparator(trimmed[i]);
    NonEmpty(trimmed)
  }

  /**
   * Reading two lists joined by a maximal run of separators reads each of
   * them: white space around an item and empty items are dropped, and
   * the items keep their order.
   */
  lemma GetStringAsArrayConcat(a: string, sep: string, b: string)
    requires IsSeparatorRun(sep)
    requires a != [] ==> !IsSeparator(a[|a| - 1])
    requires b != [] ==> !IsSeparator(b[0])
    ensures GetStringAsArray(a + sep + b) == GetStringAsArray(a) + GetStringAsArray(b)
  {
    SplitConcat(a, sep, b);
    TrimAllConcat(Split(a), Split(b));
    NonEmptyConcat(TrimAll(Split(a)), TrimAll(Split(b)));
  }

  lemma {:induction false} TrimAllConcat(xs: seq<string>, ys: seq<string>)
    ensures TrimAll(xs + ys) == TrimAll(xs) + TrimAll(ys)
    decreases |xs|
  {
    if xs == [] {
      assert xs + ys == ys;
    } else {
      assert (xs + ys)[0] == xs[0];
      assert (xs + ys)[1..] == xs[1..] + ys;
      TrimAllConcat(xs[1..], ys);
    }
  }

  /** An item with white space around it reads as that item alone. */
  lemma GetStringAsArrayOfPadded(pre: string, x: string, post: string)
    requires IsItem(x)
    requires forall k | 0 <= k < |pre| :: IsWhiteSpace(pre[k]) && !IsSeparator(pre[k])
    requires forall k | 0 <= k < |post| :: IsWhiteSpace(post[k]) && !IsSeparator(post[k])
    ensures GetStringAsArray(pre + x + post) == [x]
  {
    var s := pre + x + post;
    assert SegmentEnd(s, 0) == |s| by {
      assert forall k | 0 <= k < |s| :: !IsSeparator(s[k]) by {
        forall k | 0 <= k < |s| ensures !IsSeparator(s[k]) {
          if k < |pre| { assert s[k] == pre[k]; }
          else if k < |pre| + |x| { assert s[k] == x[k - |pre|]; }
          else { assert s[k] == post[k - |pre| - |x|]; }
        }
      }
      SegmentEndAll(s, 0);
    }
    assert Split(s) == [s];
    TrimPadded(pre, x, post);
    assert TrimAll([s]) == [x];
  }

  /** On a text without separators `SegmentEnd` runs to the end. */
  lemma SegmentEndAll(s: string, i: nat)
    requires i <= |s| && forall k | 0 <= k < |s| :: !IsSeparator(s[k])
    ensures SegmentEnd(s, i) == |s|
    decreases |s| - i
  {
    if i < |s| { SegmentEndAll(s, i + 1); }
  }

  /** Trimming removes exactly the white space around a trimmed, non-empty text. */
  lemma TrimPadded(pre: string, x: string, post: string)
    requires x != [] && IsTrimmed(x)
    requires forall k | 0 <= k < |pre| :: IsWhiteSpace(pre[k])
    requires forall k | 0 <= k < |post| :: IsWhiteSpace(post[k])
    ensures Trim(pre + x + post) == x
  {
    var s := pre + x + post;
    var i, j := |pre|, |pre| + |x|;
    TrimStartRun(s, 0, i);
    TrimEndRun(s, i, j, |s|);
    assert s[i..j] == x;
  }

  lemma TrimStartRun(s: string, lo: nat, hi: nat)
    requires lo <= hi < |s|
    requires forall k | lo <= k < hi :: IsWhiteSpace(s[k])
    requires !IsWhiteSpace(s[hi])
    ensures TrimStart(s, lo) == hi
    decreases hi - lo
  {
    if lo < hi { TrimStartRun(s, lo + 1, hi); }
  }

  lemma TrimEndRun(s: string, lo: nat, mid: nat, hi: nat)
    requires lo < mid <= hi <= |s|
    requires forall k | mid <= k < hi :: IsWhiteSpace(s[k])
    requires !IsWhiteSpace(s[mid - 1])
    ensures TrimEnd(s, lo, hi) == mid
    decreases hi - mid
  {
    if mid < hi { TrimEndRun(s, lo, mid, hi - 1); }
  }

  /** `getStringAsArray(" a ,, b")` reads the two items "a" and "b". */
  lemma ReadsSpacedList()
    ensures GetStringAsArray(" a " + ",," + " b") == ["a", "b"]
  {
    GetStringAsArrayConcat(" a ", ",,", " b");
    ReadsPaddedItems();
  }

  lemma ReadsPaddedItems()
    ensures GetStringAsArray(" a ") == ["a"] && GetStringAsArray(" b") == ["b"]
  {
    PaddedLiterals();
    Letters();
    GetStringAsArrayOfPadded(" ", "a", " ");
    GetStringAsArrayOfPadded(" ", "b", "");
  }

  lemma Letters()
    ensures IsItem("a") && IsItem("b")
    ensures forall k | 0 <= k < |" "| :: IsWhiteSpace(" "[k]) && !IsSeparator(" "[k])
  {
    assert |"a"| == 1 && "a"[0] == 'a';
    assert |"b"| == 1 && "b"[0] == 'b';
  }

  lemma PaddedLiterals()
    ensures " a " == " " + "a" + " " && " b" == " " + "b" + ""
  {
  }

  /** `xs.join(",")`. */
  function Join(xs: seq<string>): string {
    if xs == [] then ""
    else if |xs| == 1 then xs[0]
    else xs[0] + "," + Join(xs[1..])
  }

  /** Items joined with commas split back into those items. */
  lemma {:induction false} SplitJoin(xs: seq<string>)
    requires xs != []
    requires forall i | 0 <= i < |xs| :: xs[i] != [] && NoSeparator(xs[i])
    ensures Split(Join(xs)) == xs
    decreases |xs|
  {
    var x := xs[0];
    if |xs| == 1 {
      assert SegmentEnd(x, 0) == |x|;
    } else {
      var rest := Join(xs[1..]);
      SplitJoin(xs[1..]);
      JoinStartsWith(xs[1..]);
      var s := x + "," + rest;
      assert SegmentEnd(s, 0) == |x| by {
        assert forall k | 0 <= k < |x| :: s[k] == x[k];
        assert IsSeparator(s[|x|]);
      }
      assert SeparatorsEnd(s, |x| + 1) == |x| + 1 by {
        assert s[|x| + 1] == rest[0];
      }
      assert SeparatorsEnd(s, |x|) == |x| + 1;
      assert s[..|x|] == x;
      assert s[|x| + 1..] == rest;
    }
  }

  /** A join of items starts with the first character of the first item. */
  lemma JoinStartsWith(xs: seq<string>)
    requires xs != [] && xs[0] != []
    ensures |Join(xs)| > 0 && Join(xs)[0] == xs[0][0]
  {
  }

  /**
   * Items joined with commas read back as the same items; in particular
   * the result of `getStringAsArray`, joined with commas, reads back as
   * itself.
   */
  lemma JoinRoundTrip(xs: seq<string>)
    requires forall i | 0 <= i < |xs| :: IsItem(xs[i])
    ensures GetStringAsArray(Join(xs)) == xs
  {
    if xs == [] {
      assert Split("") == [""];
    } else {
      SplitJoin(xs);
      TrimAllTrimmed(xs);
    }
  }

  /** Trimming items changes none of them. */
  lemma TrimAllTrimmed(xs: seq<string>)
    requires forall i | 0 <= i < |xs| :: IsTrimmed(xs[i])
    ensures TrimAll(xs) == xs
  {
    assert forall i | 0 <= i < |xs| :: TrimAll(xs)[i] == xs[i];
  }

  /** Reading `getStringAsArray`'s result joined with commas gives it back. */
  lemma ReadBack(str: string)
    ensures GetStringAsArray(Join(GetStringAsArray(str))) == GetStringAsArray(str)
  {
    JoinRoundTrip(GetStringAsArray(str));
  }
}
