/**
 * `mergeDependencies` of index.js: the union of two dependency mappings
 * (package name to declared range) that keeps the lower version when both
 * declare the same package.
 */
module Merge {
  import opened Versions
  import opened OrderedMaps
  import opened Wrappers

  /** A dependency mapping: package name to declared range, in declaration order. */
  type Dependencies = OrderedMap<string>

  /**
   * What the source needs to run without throwing: `getLowerVersion` is
   * reached for a key declared by both sides with a non-empty (truthy)
   * first value, and it throws when either value holds no digit.
   */
  predicate Mergeable(a: Dependencies, b: Dependencies) {
    forall k | k in a.entries && k in b.entries && a.entries[k] != "" ::
      HasDigit(a.entries[k]) && HasDigit(b.entries[k])
  }

  /** The keys of `ks` that `m` lacks, in their order in `ks`. */
  function NewKeys(ks: seq<string>, m: map<string, string>): (r: seq<string>)
    ensures forall k {:trigger k in r} :: k in r <==> k in ks && k !in m
  {
    if ks == [] then []
    else NewKeys(ks[..|ks| - 1], m) + (if ks[|ks| - 1] in m then [] else [ks[|ks| - 1]])
  }

  /** All of `ks` are in `m`: nothing is new. */
  lemma {:induction false} NewKeysNone(ks: seq<string>, m: map<string, string>)
    requires forall i | 0 <= i < |ks| :: ks[i] in m
    ensures NewKeys(ks, m) == []
  {
    if ks != [] {
      NewKeysNone(ks[..|ks| - 1], m);
    }
  }

  /** The value the merge leaves at key `k`. */
  function MergedValue(a: Dependencies, b: Dependencies, k: string): string
    requires Mergeable(a, b)
    requires k in a.entries || k in b.entries
  {
    if k !in b.entries then a.entries[k]
    else if k !in a.entries || a.entries[k] == "" then b.entries[k]
    else GetLowerVersion(a.entries[k], b.entries[k])
  }

  /** `NewKeys` of a prefix one longer. */
  lemma NewKeysSnoc(ks: seq<string>, i: nat, m: map<string, string>)
    requires i < |ks|
    ensures NewKeys(ks[..i + 1], m) == NewKeys(ks[..i], m) + (if ks[i] in m then [] else [ks[i]])
  {
    assert ks[..i + 1][..i] == ks[..i];
  }

  /** The keys of a distinct sequence that `m` lacks are distinct too. */
  lemma {:induction false} NewKeysDistinct(ks: seq<string>, m: map<string, string>)
    requires Distinct(ks)
    ensures Distinct(NewKeys(ks, m))
  {
    if ks != [] {
      var init, last := ks[..|ks| - 1], ks[|ks| - 1];
      NewKeysDistinct(init, m);
      var prev := NewKeys(init, m);
      assert last !in prev;
      if last !in m {
        assert NewKeys(ks, m) == prev + [last];
        DistinctSnoc(prev, last);
      } else {
        assert NewKeys(ks, m) == prev;
      }
    }
  }

  /**
   * The contents of `a` once the entries of `b` at the names `ks` are
   * merged in: each name of `ks` holds its merged value, every other name
   * of `a` its own.
   */
  function MergedEntries(a: Dependencies, ks: seq<string>, b: Dependencies): (m: map<string, string>)
    requires Mergeable(a, b)
    requires forall k | k in ks :: k in b.entries
    ensures forall k {:trigger k in m} :: k in m <==> k in a.entries || k in ks
  {
    if ks == [] then a.entries
    else
      var k := ks[|ks| - 1];
      MergedEntries(a, ks[..|ks| - 1], b)[k := MergedValue(a, b, k)]
  }

  /** The value at each name of `MergedEntries`: merged when `ks` holds it, `a`'s otherwise. */
  lemma {:induction false} MergedEntriesValue(a: Dependencies, ks: seq<string>, b: Dependencies, k: string)
    requires Mergeable(a, b)
    requires forall k | k in ks :: k in b.entries
    requires k in a.entries || k in ks
    ensures k in ks ==> MergedEntries(a, ks, b)[k] == MergedValue(a, b, k)
    ensures k !in ks ==> MergedEntries(a, ks, b)[k] == a.entries[k]
  {
    if ks != [] && k != ks[|ks| - 1] {
      MergedEntriesValue(a, ks[..|ks| - 1], b, k);
    }
  }

  /** Every name `b` lists is one it maps, and the other way round. */
  lemma ListedIffMapped(b: Dependencies, k: string)
    requires b.Valid()
    ensures k in b.keys <==> k in b.entries
  {
    if k in b.keys {
      var i :| 0 <= i < |b.keys| && b.keys[i] == k;
    }
  }

  /** Every name a prefix of `b`'s keys lists is one `b` maps. */
  lemma ListedAreMapped(b: Dependencies, ks: seq<string>)
    requires b.Valid() && ks <= b.keys
    ensures forall k | k in ks :: k in b.entries
  {
    forall k | k in ks ensures k in b.entries {
      var i :| 0 <= i < |ks| && ks[i] == k;
      assert b.keys[i] == k;
    }
  }

  /**
   * `a` with the first `i` entries of `b` merged in: `a`'s keys in their
   * order followed by the names among those `i` that `a` lacks.
   */
  ghost predicate MergedUpTo(a: Dependencies, b: Dependencies, i: nat, result: Dependencies)
    requires b.Valid() && Mergeable(a, b) && i <= |b.keys|
  {
    ListedAreMapped(b, b.keys[..i]);
    && result.Valid()
    && result.keys == a.keys + NewKeys(b.keys[..i], a.entries)
    && result.entries == MergedEntries(a, b.keys[..i], b)
  }

  /**
   * The mapping `mergeDependencies(a, b)` returns: `a`'s keys in their
   * order followed by `b`'s new keys in theirs, and every name of either.
   */
  function Merged(a: Dependencies, b: Dependencies): (r: Dependencies)
    requires a.Valid() && b.Valid() && Mergeable(a, b)
    ensures r.Valid()
    ensures r.keys == a.keys + NewKeys(b.keys, a.entries)
  {
    ListedAreMapped(b, b.keys);
    MergedKeys(a, b);
    var keys, entries := a.keys + NewKeys(b.keys, a.entries), MergedEntries(a, b.keys, b);
    forall k ensures k in keys <==> k in entries {
    }
    ValidWhen(keys, entries);
    OrderedMap(keys, entries)
  }

  /** The merged order lists each name of either side exactly once. */
  lemma MergedKeys(a: Dependencies, b: Dependencies)
    requires a.Valid() && b.Valid()
    ensures var ks := a.keys + NewKeys(b.keys, a.entries);
      && Distinct(ks)
      && forall k {:trigger k in ks} :: k in ks <==> k in a.entries || k in b.keys
  {
    var added := NewKeys(b.keys, a.entries);
    NewKeysDistinct(b.keys, a.entries);
    forall i | 0 <= i < |added| ensures added[i] !in a.keys {
      assert added[i] in added;
      ListedIffMapped(a, added[i]);
    }
    DistinctConcat(a.keys, added);
    forall k ensures k in a.keys + added <==> k in a.entries || k in b.keys {
      ListedIffMapped(a, k);
    }
  }

  /**
   * The merge entry by entry: a name declared on one side only keeps that
   * side's value; a name on both sides gets `getLowerVersion` of the two,
   * or `b`'s value when `a`'s is the empty (falsy) string.
   */
  lemma MergedEntry(a: Dependencies, b: Dependencies, k: string)
    requires a.Valid() && b.Valid() && Mergeable(a, b)
    ensures k in Merged(a, b).entries <==> k in a.entries || k in b.entries
    ensures k in a.entries && k !in b.entries ==> Merged(a, b).entries[k] == a.entries[k]
    ensures k !in a.entries && k in b.entries ==> Merged(a, b).entries[k] == b.entries[k]
    ensures k in a.entries && k in b.entries && a.entries[k] == "" ==>
      Merged(a, b).entries[k] == b.entries[k]
    ensures k in a.entries && k in b.entries && a.entries[k] != "" ==>
      Merged(a, b).entries[k] == GetLowerVersion(a.entries[k], b.entries[k])
  {
    if k in a.entries || k in b.entries {
      ListedIffMapped(b, k);
      ListedAreMapped(b, b.keys);
      MergedEntriesValue(a, b.keys, b, k);
    }
  }

  /** One more entry of `b`, merged as the loop body of `mergeDependencies` does. */
  function MergeEntry(result: Dependencies, packageName: string, version: string): (r: Dependencies)
    requires result.Valid()
    requires packageName in result.entries && result.entries[packageName] != "" ==>
      HasDigit(result.entries[packageName]) && HasDigit(version)
    ensures r.Valid()
    ensures r.keys == if packageName in result.entries then result.keys else result.keys + [packageName]
    ensures r.entries == result.entries[packageName :=
      if packageName !in result.entries || result.entries[packageName] == "" then version
      else GetLowerVersion(result.entries[packageName], version)]
  {
    if packageName !in result.entries || result.entries[packageName] == "" then
      result.Put(packageName, version)
    else
      result.Put(packageName, GetLowerVersion(result.entries[packageName], version))
  }

  /**
   * The loop body applied to the state after `i` entries gives the state
   * after `i + 1`: the name at `i` is new to that state or still holds `a`'s
   * value, because `b` lists it once.
   */
  lemma MergeStep(a: Dependencies, b: Dependencies, i: nat, result: Dependencies)
    requires a.Valid() && b.Valid() && Mergeable(a, b) && i < |b.keys|
    requires MergedUpTo(a, b, i, result)
    ensures var n := b.keys[i];
      && n in b.entries
      && (n in result.entries && result.entries[n] != "" ==>
            HasDigit(result.entries[n]) && HasDigit(b.entries[n]))
      && (n !in result.entries || result.entries[n] == "" ==>
            MergedUpTo(a, b, i + 1, result.Put(n, b.entries[n])))
      && (n in result.entries && result.entries[n] != "" ==>
            MergedUpTo(a, b, i + 1, result.Put(n, GetLowerVersion(result.entries[n], b.entries[n]))))
  {
    var n := b.keys[i];
    DistinctPrefix(b.keys, i);
    ListedAreMapped(b, b.keys[..i + 1]);
    if n in result.entries {
      MergedEntriesValue(a, b.keys[..i], b, n);
    }
    var next := MergeEntry(result, n, b.entries[n]);
    StepKeys(a.keys, b.keys, i, a.entries);
    StepEntries(a, b, b.keys, i);
    assert next.entries == MergedEntries(a, b.keys[..i + 1], b);
  }

  /** The keys after one more step of the loop. */
  lemma StepKeys(aKeys: seq<string>, ks: seq<string>, i: nat, m: map<string, string>)
    requires i < |ks|
    ensures ks[i] in m ==> aKeys + NewKeys(ks[..i], m) == aKeys + NewKeys(ks[..i + 1], m)
    ensures ks[i] !in m ==> (aKeys + NewKeys(ks[..i], m)) + [ks[i]] == aKeys + NewKeys(ks[..i + 1], m)
  {
    NewKeysSnoc(ks, i, m);
    var added := NewKeys(ks[..i], m);
    assert (aKeys + added) + [ks[i]] == aKeys + (added + [ks[i]]);
  }

  /** The entries after one more step of the loop. */
  lemma StepEntries(a: Dependencies, b: Dependencies, ks: seq<string>, i: nat)
    requires Mergeable(a, b) && i < |ks|
    requires forall k | k in ks[..i + 1] :: k in b.entries
    ensures forall k | k in ks[..i] :: k in b.entries
    ensures MergedEntries(a, ks[..i + 1], b) == MergedEntries(a, ks[..i], b)[ks[i] := MergedValue(a, b, ks[i])]
  {
    assert ks[..i + 1][..i] == ks[..i];
  }

  method MergeDependencies(dependenciesA: Dependencies, dependenciesB: Dependencies)
    returns (result: Dependencies)
    requires dependenciesA.Valid() && dependenciesB.Valid()
    requires Mergeable(dependenciesA, dependenciesB)
    ensures result == Merged(dependenciesA, dependenciesB)
  {
    result := dependenciesA;
    assert dependenciesB.keys[..0] == [];
    assert dependenciesA.keys + [] == dependenciesA.keys;
    for i := 0 to |dependenciesB.keys|
      invariant MergedUpTo(dependenciesA, dependenciesB, i, result)
    {
      var packageName := dependenciesB.keys[i];
      MergeStep(dependenciesA, dependenciesB, i, result);
      var version := dependenciesB.entries[packageName];
      if packageName !in result.entries || result.entries[packageName] == "" {
        result := result.Put(packageName, version);
      } else {
        result := result.Put(packageName, GetLowerVersion(result.entries[packageName], version));
      }
    }
    assert dependenciesB.keys[..|dependenciesB.keys|] == dependenciesB.keys;
  }

  /**
   * On a name both sides declare, the merged version is the stripped form
   * of one of them and numerically no greater than either.
   */
  lemma MergeKeepsLower(a: Dependencies, b: Dependencies, k: string)
    requires a.Valid() && b.Valid() && Mergeable(a, b)
    requires k in a.entries && k in b.entries && a.entries[k] != ""
    ensures var v := Merged(a, b).entries[k];
      && HasDigit(v)
      && (Some(v) == Bare(a.entries[k]) || Some(v) == Bare(b.entries[k]))
      && LessOrEqual(Numeric(v), Numeric(a.entries[k]))
      && LessOrEqual(Numeric(v), Numeric(b.entries[k]))
  {
    MergedEntry(a, b, k);
    LowerSelects(a.entries[k], b.entries[k]);
    LowerIsMinimum(a.entries[k], b.entries[k]);
  }

  /**
   * Merging `b` into a mapping that already holds, for every name of `b`,
   * a truthy value that `getLowerVersion` keeps, changes nothing.
   */
  lemma MergedNoOp(m: Dependencies, b: Dependencies)
    requires m.Valid() && b.Valid()
    requires forall k | k in b.entries ::
      && k in m.entries && m.entries[k] != "" && HasDigit(m.entries[k]) && HasDigit(b.entries[k])
      && GetLowerVersion(m.entries[k], b.entries[k]) == m.entries[k]
    ensures Mergeable(m, b)
    ensures Merged(m, b) == m
  {
    var r := Merged(m, b);
    assert forall i | 0 <= i < |b.keys| :: b.keys[i] in m.entries;
    NewKeysNone(b.keys, m.entries);
    assert r.entries.Keys == m.entries.Keys;
    forall k | k in m.entries ensures r.entries[k] == m.entries[k] {
      MergedEntry(m, b, k);
    }
    assert r.entries == m.entries;
  }

  /** Merging the same bare mapping a second time changes nothing. */
  lemma MergeIdempotent(a: Dependencies, b: Dependencies)
    requires a.Valid() && b.Valid() && Mergeable(a, b)
    requires forall k | k in b.entries :: IsBare(b.entries[k])
    ensures Mergeable(Merged(a, b), b)
    ensures Merged(Merged(a, b), b) == Merged(a, b)
  {
    var m := Merged(a, b);
    forall k | k in b.entries
      ensures k in m.entries && m.entries[k] != "" && HasDigit(m.entries[k]) && HasDigit(b.entries[k])
      ensures GetLowerVersion(m.entries[k], b.entries[k]) == m.entries[k]
    {
      var v := b.entries[k];
      MergedEntry(a, b, k);
      BareHasDigit(v);
      if k in a.entries && a.entries[k] != "" {
        LowerAgainstBareAgain(a.entries[k], v);
      } else {
        BareOfBare(v);
        LowerOfSame(v, v);
      }
    }
    MergedNoOp(m, b);
  }

  /**
   * Without the bare-value assumption the second merge is not a no-op: a
   * name only `b` declares keeps its range the first time and loses it the
   * second, when it meets itself.
   */
  lemma RemergeStripsRanges(b: Dependencies)
    requires b.Valid()
    requires forall k | k in b.entries :: HasDigit(b.entries[k])
    ensures Mergeable(Empty(), b)
    ensures Mergeable(Merged(Empty(), b), b)
    ensures forall k | k in b.entries ::
      && Merged(Empty(), b).entries[k] == b.entries[k]
      && Some(Merged(Merged(Empty(), b), b).entries[k]) == Bare(b.entries[k])
  {
    var m := Merged(Empty(), b);
    forall k | k in b.entries ensures m.entries[k] == b.entries[k] {
      MergedEntry(Empty(), b, k);
    }
    forall k | k in b.entries ensures Some(Merged(m, b).entries[k]) == Bare(b.entries[k]) {
      MergedEntry(m, b, k);
      LowerOfSame(b.entries[k], b.entries[k]);
    }
  }
}
