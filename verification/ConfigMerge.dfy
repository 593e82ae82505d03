/** Recursive merge of a local configuration over the primary one. */
module ConfigMerge {
  import opened Wrappers

  /** A YAML value: a mapping, or anything else (scalars and lists are replaced as a whole). */
  datatype Value = Leaf(text: string) | Dict(entries: map<string, Value>)

  /** What the merge makes of a key present on both sides, and, for two mappings, the merge itself. */
  function Merged(base: Value, over: Value): Value
    decreases over
  {
    if base.Leaf? || over.Leaf? then over
    else Dict(map k | k in base.entries.Keys + over.entries.Keys :: MergedAt(base, over, k))
  }

  function MergedAt(base: Value, over: Value, k: string): Value
    requires base.Dict? && over.Dict? && k in base.entries.Keys + over.entries.Keys
    decreases over, k
  {
    if k !in over.entries then base.entries[k]
    else if k !in base.entries then over.entries[k]
    else Merged(base.entries[k], over.entries[k])
  }

  method DeepMerge(base: map<string, Value>, over: map<string, Value>) returns (result: map<string, Value>)
    ensures Dict(result) == Merged(Dict(base), Dict(over))
    decreases Dict(over)
  {
    result := base;
    var todo := over.Keys;
    while todo != {}
      invariant todo <= over.Keys
      invariant result.Keys == base.Keys + (over.Keys - todo)
      invariant forall k :: k in base && (k in todo || k !in over) ==> result[k] == base[k]
      invariant forall k :: k in over && k !in todo ==> result[k] == MergedAt(Dict(base), Dict(over), k)
      decreases todo
    {
      var key :| key in todo;
      var val := over[key];
      if key in result && result[key].Dict? && val.Dict? {
        var merged := DeepMerge(result[key].entries, val.entries);
        result := result[key := Dict(merged)];
      } else {
        result := result[key := val];
      }
      todo := todo - {key};
    }
    assert result == Merged(Dict(base), Dict(over)).entries;
  }

  // ----- Paths -----

  function Lookup(v: Value, path: seq<string>): Option<Value> {
    if path == [] then Some(v)
    else if v.Dict? && path[0] in v.entries then Lookup(v.entries[path[0]], path[1..])
    else None
  }

  /** Some step on the way to path is not a mapping. */
  ghost predicate BlockedByLeaf(v: Value, path: seq<string>) {
    exists n :: 0 <= n < |path| && Lookup(v, path[..n]).Some? && Lookup(v, path[..n]).value.Leaf?
  }

  lemma PrefixStep(v: Value, path: seq<string>, n: nat)
    requires v.Dict? && path != [] && path[0] in v.entries && n < |path|
    ensures Lookup(v, path[..n + 1]) == Lookup(v.entries[path[0]], path[1..][..n])
  {
    assert path[..n + 1][1..] == path[1..][..n];
  }

  lemma BlockedStep(v: Value, path: seq<string>)
    requires v.Dict? && path != [] && path[0] in v.entries
    ensures BlockedByLeaf(v, path) <==> BlockedByLeaf(v.entries[path[0]], path[1..])
  {
    var child, rest := v.entries[path[0]], path[1..];
    if BlockedByLeaf(v, path) {
      var n :| 0 <= n < |path| && Lookup(v, path[..n]).Some? && Lookup(v, path[..n]).value.Leaf?;
      assert n > 0;
      PrefixStep(v, path, n - 1);
      assert Lookup(child, rest[..n - 1]).value.Leaf?;
    }
    if BlockedByLeaf(child, rest) {
      var n :| 0 <= n < |rest| && Lookup(child, rest[..n]).Some? && Lookup(child, rest[..n]).value.Leaf?;
      PrefixStep(v, path, n);
      assert Lookup(v, path[..n + 1]).value.Leaf?;
    }
  }

  lemma NotBlockedWhereAbsent(v: Value, path: seq<string>)
    requires v.Dict? && path != [] && path[0] !in v.entries
    ensures !BlockedByLeaf(v, path)
  {
    forall n | 0 < n < |path| ensures Lookup(v, path[..n]) == None {
      assert path[..n][0] == path[0];
    }
  }

  /** What a path of the merge holds, for every path: where the override has a value it wins, merged
      with a mapping below it; past a non-mapping of the override nothing is left; and every other
      path keeps what the base holds there. */
  lemma {:induction false} MergeAtPath(base: Value, over: Value, path: seq<string>)
    ensures Lookup(over, path).Some? && Lookup(base, path).None? ==>
      Lookup(Merged(base, over), path) == Lookup(over, path)
    ensures Lookup(over, path).Some? && Lookup(base, path).Some? ==>
      Lookup(Merged(base, over), path) == Some(Merged(Lookup(base, path).value, Lookup(over, path).value))
    ensures Lookup(over, path).None? && !BlockedByLeaf(over, path) ==>
      Lookup(Merged(base, over), path) == Lookup(base, path)
    ensures BlockedByLeaf(over, path) ==> Lookup(Merged(base, over), path) == None
    decreases path
  {
    if path != [] {
      var k := path[0];
      if over.Leaf? {
        assert Lookup(over, path[..0]) == Some(over);
        assert BlockedByLeaf(over, path);
      } else if k !in over.entries {
        NotBlockedWhereAbsent(over, path);
      } else {
        BlockedStep(over, path);
        if base.Dict? && k in base.entries {
          MergeAtPath(base.entries[k], over.entries[k], path[1..]);
        } else {
          BlockedPathsAreEmpty(over, path);
        }
      }
    }
  }

  lemma {:induction false} BlockedPathsAreEmpty(v: Value, path: seq<string>)
    ensures BlockedByLeaf(v, path) ==> Lookup(v, path) == None
    decreases path
  {
    if path != [] && v.Dict? {
      if path[0] in v.entries {
        BlockedStep(v, path);
        BlockedPathsAreEmpty(v.entries[path[0]], path[1..]);
      }
    }
  }

  /** The override wins at its leaves, and untouched base leaves survive; nothing else is a leaf. */
  lemma LeavesOfMerge(base: Value, over: Value, path: seq<string>, x: string)
    ensures Lookup(Merged(base, over), path) == Some(Leaf(x)) <==>
      || Lookup(over, path) == Some(Leaf(x))
      || (Lookup(base, path) == Some(Leaf(x)) && Lookup(over, path) == None && !BlockedByLeaf(over, path))
  {
    MergeAtPath(base, over, path);
    BlockedPathsAreEmpty(over, path);
  }

  // ----- Algebra -----

  /** Merging the same override twice equals merging it once. */
  lemma {:induction false} MergeTwice(base: Value, over: Value)
    ensures Merged(Merged(base, over), over) == Merged(base, over)
    decreases over
  {
    if base.Leaf? || over.Leaf? {
      MergeSelf(over);
    } else {
      var once := Merged(base, over);
      forall k | k in once.entries ensures Merged(once, over).entries[k] == once.entries[k] {
        assert Merged(once, over).entries[k] == MergedAt(once, over, k);
        assert once.entries[k] == MergedAt(base, over, k);
        if k in over.entries && k in base.entries {
          MergeTwice(base.entries[k], over.entries[k]);
        } else if k in over.entries {
          MergeSelf(over.entries[k]);
        }
      }
      assert Merged(once, over).entries == once.entries;
    }
  }

  lemma {:induction false} MergeSelf(v: Value)
    ensures Merged(v, v) == v
    decreases v
  {
    if v.Dict? {
      forall k | k in v.entries ensures Merged(v, v).entries[k] == v.entries[k] {
        MergeSelf(v.entries[k]);
      }
      assert Merged(v, v).entries == v.entries;
    }
  }

  /** Every mapping key of lower is also a key of upper, at every depth where both are mappings. */
  ghost predicate Covers(upper: Value, lower: Value)
    decreases upper
  {
    upper.Dict? && lower.Dict? ==>
      forall k :: k in lower.entries ==> k in upper.entries && Covers(upper.entries[k], lower.entries[k])
  }

  lemma {:induction false} MergeAbsorbed(lower: Value, upper: Value)
    ensures Merged(lower, upper) == upper <==> Covers(upper, lower)
    decreases upper
  {
    if upper.Dict? && lower.Dict? {
      var m := Merged(lower, upper);
      forall k | k in lower.entries && k in upper.entries
        ensures Merged(lower.entries[k], upper.entries[k]) == upper.entries[k]
          <==> Covers(upper.entries[k], lower.entries[k])
      {
        MergeAbsorbed(lower.entries[k], upper.entries[k]);
      }
      if Covers(upper, lower) {
        assert m.entries.Keys == upper.entries.Keys;
        forall k | k in upper.entries ensures m.entries[k] == upper.entries[k] {
          assert m.entries[k] == MergedAt(lower, upper, k);
        }
        assert m.entries == upper.entries;
      }
      if m == upper {
        forall k | k in lower.entries ensures k in upper.entries && Covers(upper.entries[k], lower.entries[k]) {
          assert k in m.entries;
          assert m.entries[k] == MergedAt(lower, upper, k);
        }
      }
    }
  }

  /** Wherever first and third are mappings and second is not, the third covers the first. */
  ghost predicate Compatible(first: Value, second: Value, third: Value)
    decreases third
  {
    first.Dict? && third.Dict? ==>
      if second.Leaf? then Covers(third, first)
      else forall k :: k in first.entries && k in second.entries && k in third.entries ==>
        Compatible(first.entries[k], second.entries[k], third.entries[k])
  }

  /** Merging three configurations is associative exactly when they are compatible; in particular when
      the middle one has no non-mapping where both others have mappings. */
  lemma {:induction false} AssociativeIffCompatible(first: Value, second: Value, third: Value)
    ensures Merged(Merged(first, second), third) == Merged(first, Merged(second, third))
      <==> Compatible(first, second, third)
    decreases third
  {
    if first.Dict? && second.Leaf? && third.Dict? {
      MergeAbsorbed(first, third);
    } else if first.Dict? && second.Dict? && third.Dict? {
      forall k | k in first.entries && k in second.entries && k in third.entries
        ensures AgreeAt(first, second, third, k) <==> Compatible(first.entries[k], second.entries[k], third.entries[k])
      {
        AssociativeIffCompatible(first.entries[k], second.entries[k], third.entries[k]);
      }
      EntriesAgree(first, second, third);
    }
  }

  /** A scalar between two mappings: grouped to the left the first mapping is lost, to the right it is kept. */
  lemma ScalarInTheMiddle() returns (first: Value, second: Value, third: Value)
    ensures first == Dict(map["k" := Dict(map["j" := Leaf("x")])])
    ensures second == Dict(map["k" := Leaf("y")]) && third == Dict(map["k" := Dict(map[])])
    ensures Lookup(Merged(Merged(first, second), third), ["k", "j"]) == None
    ensures Lookup(Merged(first, Merged(second, third)), ["k", "j"]) == Some(Leaf("x"))
  {
    first := Dict(map["k" := Dict(map["j" := Leaf("x")])]);
    second, third := Dict(map["k" := Leaf("y")]), Dict(map["k" := Dict(map[])]);
    var inner := Merged(first, second);
    assert inner.entries["k"] == MergedAt(first, second, "k") == Leaf("y");
    var left := Merged(inner, third);
    assert left.entries["k"] == MergedAt(inner, third, "k") == Dict(map[]);
    var outer := Merged(second, third);
    assert outer.entries["k"] == MergedAt(second, third, "k") == Dict(map[]);
    var right := Merged(first, outer);
    assert right.entries["k"] == MergedAt(first, outer, "k") == Merged(first.entries["k"], Dict(map[]));
    assert right.entries["k"].entries["j"] == MergedAt(first.entries["k"], Dict(map[]), "j") == Leaf("x");
    assert ["k", "j"][1..] == ["j"] && ["j"][1..] == [];
    var kept := right.entries["k"];
    assert Lookup(kept, ["j"]) == Lookup(kept.entries["j"], []);
    assert Lookup(right, ["k", "j"]) == Lookup(kept, ["j"]);
  }

  /** For three mappings, the two groupings can only differ at keys all three have. */
  lemma GroupingsAtKey(first: Value, second: Value, third: Value, k: string)
    requires first.Dict? && second.Dict? && third.Dict?
    requires k in first.entries || k in second.entries || k in third.entries
    ensures var left := Merged(Merged(first, second), third);
      var right := Merged(first, Merged(second, third));
      && left.Dict? && right.Dict? && k in left.entries && k in right.entries
      && if k in first.entries && k in second.entries && k in third.entries then
           && left.entries[k] == Merged(Merged(first.entries[k], second.entries[k]), third.entries[k])
           && right.entries[k] == Merged(first.entries[k], Merged(second.entries[k], third.entries[k]))
         else
           left.entries[k] == right.entries[k]
  {
    var inner, outer := Merged(first, second), Merged(second, third);
    var left, right := Merged(inner, third), Merged(first, outer);
    assert left.entries[k] == MergedAt(inner, third, k);
    assert right.entries[k] == MergedAt(first, outer, k);
    assert k in first.entries || k in second.entries ==> inner.entries[k] == MergedAt(first, second, k);
    assert k in second.entries || k in third.entries ==> outer.entries[k] == MergedAt(second, third, k);
  }

  ghost predicate AgreeAt(first: Value, second: Value, third: Value, k: string)
    requires first.Dict? && second.Dict? && third.Dict?
    requires k in first.entries && k in second.entries && k in third.entries
  {
    Merged(Merged(first.entries[k], second.entries[k]), third.entries[k])
    == Merged(first.entries[k], Merged(second.entries[k], third.entries[k]))
  }

  lemma EntriesAgree(first: Value, second: Value, third: Value)
    requires first.Dict? && second.Dict? && third.Dict?
    ensures Merged(Merged(first, second), third) == Merged(first, Merged(second, third)) <==>
      forall k :: k in first.entries && k in second.entries && k in third.entries ==> AgreeAt(first, second, third, k)
  {
    var left := Merged(Merged(first, second), third);
    var right := Merged(first, Merged(second, third));
    forall k | k in first.entries.Keys + second.entries.Keys + third.entries.Keys
      ensures k in left.entries && k in right.entries
      ensures left.entries[k] == right.entries[k] <==>
        (k in first.entries && k in second.entries && k in third.entries ==> AgreeAt(first, second, third, k))
    {
      GroupingsAtKey(first, second, third, k);
    }
    assert left.entries.Keys == first.entries.Keys + second.entries.Keys + third.entries.Keys == right.entries.Keys;
    if forall k :: k in left.entries ==> left.entries[k] == right.entries[k] {
      assert left.entries == right.entries;
    }
  }
}
