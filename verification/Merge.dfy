/** The rule engine's merge algebra: `pattern_rule_engine.py` and the folds over it in
    `pipeline/core.py`.

    A dict is a map from text keys, so it is compared as Python compares dicts. */
module Merge {
  import opened Wrappers

  datatype Value =
    | Null
    | Bool(b: bool)
    | Int(n: int)
    | Str(s: string)
    | List(items: seq<Value>)
    | Dict(entries: map<string, Value>)

  const EMPTY_DICT := Dict(map[])

  /** `value in (None, "", [], {})` */
  predicate Blank(v: Value) {
    v == Null || v == Str("") || v == List([]) || v == EMPTY_DICT
  }

  predicate SolidScalar(v: Value) {
    !v.List? && !v.Dict? && !Blank(v)
  }

  // ----- _deep_merge -----

  /** What the merge leaves under a key both dicts have. */
  function MergeAt(overwrite: bool, base: Value, patch: Value): Value
    decreases base, 1
  {
    if base.Dict? && patch.Dict? then Dict(MergeEntries(overwrite, base, patch))
    else if base.List? && patch.List? then List(base.items + patch.items)
    else if overwrite || Blank(base) then patch
    else base
  }

  function MergeEntries(overwrite: bool, base: Value, patch: Value): (r: map<string, Value>)
    requires base.Dict? && patch.Dict?
    ensures r.Keys == base.entries.Keys + patch.entries.Keys
    decreases base, 0
  {
    map k | k in base.entries.Keys + patch.entries.Keys ::
      if k !in base.entries then patch.entries[k]
      else if k !in patch.entries then base.entries[k]
      else MergeAt(overwrite, base.entries[k], patch.entries[k])
  }

  /** `_deep_merge`: at the top a clash of kinds keeps one side outright, blank or not. */
  function DeepMerge(overwrite: bool, base: Value, patch: Value): Value {
    if base.Dict? && patch.Dict? then Dict(MergeEntries(overwrite, base, patch))
    else if overwrite then patch
    else base
  }

  function Lookup(v: Value, path: seq<string>): Option<Value>
    decreases |path|
  {
    if |path| == 0 then Some(v)
    else if v.Dict? && path[0] in v.entries then Lookup(v.entries[path[0]], path[1..])
    else None
  }

  /** What the merge leaves where both sides have a value. */
  ghost predicate MergedAs(overwrite: bool, base: Value, patch: Value, r: Value) {
    if base.Dict? && patch.Dict? then
      && r.Dict? && r.entries.Keys == base.entries.Keys + patch.entries.Keys
      && (forall k :: k in base.entries && k !in patch.entries ==> r.entries[k] == base.entries[k])
      && (forall k :: k in patch.entries && k !in base.entries ==> r.entries[k] == patch.entries[k])
    else if base.List? && patch.List? then r.List? && r.items == base.items + patch.items
    else r == (if overwrite || base in {Null, Str(""), List([]), Dict(map[])} then patch else base)
  }

  /** Wherever the two dicts both lead to a value, the result leads to what the merge leaves of the two; where
      only one of them has a key, to its value. Anything but two dicts is not merged. */
  ghost predicate Merged(overwrite: bool, base: Value, patch: Value, r: Value) {
    if base.Dict? && patch.Dict? then
      forall path :: Lookup(base, path).Some? && Lookup(patch, path).Some? ==>
        && Lookup(r, path).Some?
        && MergedAs(overwrite, Lookup(base, path).value, Lookup(patch, path).value, Lookup(r, path).value)
    else r == (if overwrite then patch else base)
  }

  lemma MergeMeaning(overwrite: bool, base: Value, patch: Value)
    ensures Merged(overwrite, base, patch, DeepMerge(overwrite, base, patch))
  {
    if base.Dict? && patch.Dict? {
      forall path | Lookup(base, path).Some? && Lookup(patch, path).Some?
        ensures var r := Lookup(MergeAt(overwrite, base, patch), path);
          r.Some? && MergedAs(overwrite, Lookup(base, path).value, Lookup(patch, path).value, r.value)
      {
        MergedAtPath(overwrite, base, patch, path);
      }
    }
  }

  lemma {:induction false} MergedAtPath(overwrite: bool, base: Value, patch: Value, path: seq<string>)
    requires Lookup(base, path).Some? && Lookup(patch, path).Some?
    ensures var r := Lookup(MergeAt(overwrite, base, patch), path);
      r.Some? && MergedAs(overwrite, Lookup(base, path).value, Lookup(patch, path).value, r.value)
    decreases |path|
  {
    if |path| > 0 {
      MergedAtPath(overwrite, base.entries[path[0]], patch.entries[path[0]], path[1..]);
    }
  }

  /** The loop of `_deep_merge`: it copies the base and visits the patch key by key. The
      visiting order is arbitrary here, so the result depends on no insertion order. */
  method DeepMergeLoop(overwrite: bool, base: Value, patch: Value) returns (out: Value)
    ensures out == DeepMerge(overwrite, base, patch)
    ensures Merged(overwrite, base, patch, out)
    decreases base
  {
    MergeMeaning(overwrite, base, patch);
    if !(base.Dict? && patch.Dict?) {
      return if overwrite then patch else base;
    }
    var entries := base.entries;
    var todo := patch.entries.Keys;
    while todo != {}
      invariant todo <= patch.entries.Keys
      invariant entries.Keys == base.entries.Keys + (patch.entries.Keys - todo)
      invariant forall k :: k in entries ==>
        entries[k] == if k in patch.entries.Keys - todo
                      then MergeEntries(overwrite, base, patch)[k]
                      else base.entries[k]
      decreases todo
    {
      var key :| key in todo;
      todo := todo - {key};
      var pValue := patch.entries[key];
      if key !in entries {
        entries := entries[key := pValue];
        continue;
      }
      var bValue := entries[key];
      if bValue.Dict? && pValue.Dict? {
        var merged := DeepMergeLoop(overwrite, bValue, pValue);
        entries := entries[key := merged];
      } else if bValue.List? && pValue.List? {
        entries := entries[key := List(bValue.items + pValue.items)];
      } else if overwrite || Blank(bValue) {
        entries := entries[key := pValue];
      }
    }
    assert entries == MergeEntries(overwrite, base, patch);
    out := Dict(entries);
  }

  // ----- when the order of grouping matters (non-overwrite mode) -----

  /** `patch` adds nothing to `base`. */
  ghost predicate Absorbs(base: Value, patch: Value)
    decreases base
  {
    if base.Dict? && patch.Dict? then
      forall k :: k in patch.entries ==> k in base.entries && Absorbs(base.entries[k], patch.entries[k])
    else if base.List? && patch.List? then patch.items == []
    else Blank(base) ==> patch == base
  }

  lemma {:induction false} AbsorbsExact(base: Value, patch: Value)
    ensures MergeAt(false, base, patch) == base <==> Absorbs(base, patch)
    decreases base
  {
    if base.Dict? && patch.Dict? {
      forall k | k in base.entries && k in patch.entries
        ensures MergeAt(false, base.entries[k], patch.entries[k]) == base.entries[k]
          <==> Absorbs(base.entries[k], patch.entries[k])
      {
        AbsorbsExact(base.entries[k], patch.entries[k]);
      }
      var r := MergeEntries(false, base, patch);
      if r == base.entries {
        assert forall k :: k in patch.entries ==> k in r;
      }
      if Absorbs(base, patch) {
        assert r.Keys == base.entries.Keys;
        assert forall k :: k in r ==> r[k] == base.entries[k];
      }
    } else if base.List? && patch.List? {
      assert |(base.items + patch.items)| == |base.items| + |patch.items|;
      assert base.items + [] == base.items;
    }
  }

  /** Grouping `x`, `y`, `z` either way merges to the same value. It fails where `x` and `z`
      are of one container kind, `y` is a non-blank value of another kind that the left
      grouping drops first and the right grouping lets shield `x` from `z`. */
  ghost predicate Regroups(x: Value, y: Value, z: Value)
    decreases x
  {
    if x.Dict? && y.Dict? && z.Dict? then
      forall k :: k in x.entries && k in y.entries && k in z.entries ==>
        Regroups(x.entries[k], y.entries[k], z.entries[k])
    else if Blank(x) || Blank(y) then true
    else if x.List? && z.List? && !y.List? then z.items == []
    else if x.Dict? && z.Dict? && !y.Dict? then Absorbs(x, z)
    else true
  }

  /** Associativity of the merge, for every triple of values: exactly when `Regroups`. */
  lemma {:induction false} MergeAssociative(x: Value, y: Value, z: Value)
    ensures MergeAt(false, MergeAt(false, x, y), z) == MergeAt(false, x, MergeAt(false, y, z))
      <==> Regroups(x, y, z)
    decreases x
  {
    if x.Dict? && y.Dict? && z.Dict? {
      MergeDictsAssociative(x, y, z);
    } else if x.List? && y.List? && z.List? {
      assert (x.items + y.items) + z.items == x.items + (y.items + z.items);
    } else if Blank(x) || Blank(y) {
      BlankRegroups(x, y, z);
    } else if x.List? && z.List? && !y.List? {
      assert |x.items + z.items| == |x.items| + |z.items|;
      assert z.items == [] ==> x.items + z.items == x.items;
    } else if x.Dict? && z.Dict? && !y.Dict? {
      AbsorbsExact(x, z);
    }
  }

  /** Under one key, a text between two lists: grouped to the left the text is dropped and the lists are
      joined, grouped to the right the text comes first and the second list is dropped. */
  lemma GroupingMatters()
    ensures var x, y := Dict(map["k" := List([Int(1)])]), Dict(map["k" := Str("s")]);
      var z := Dict(map["k" := List([Int(2)])]);
      && DeepMerge(false, DeepMerge(false, x, y), z) == Dict(map["k" := List([Int(1), Int(2)])])
      && DeepMerge(false, x, DeepMerge(false, y, z)) == x
  {
    var one, text, two := List([Int(1)]), Str("s"), List([Int(2)]);
    var x, y, z := Dict(map["k" := one]), Dict(map["k" := text]), Dict(map["k" := two]);
    assert MergeEntries(false, x, y) == x.entries && MergeEntries(false, y, z) == y.entries;
    assert one.items + two.items == [Int(1), Int(2)];
    assert MergeEntries(false, x, z) == map["k" := List([Int(1), Int(2)])];
  }

  lemma BlankLeft(x: Value, y: Value)
    requires Blank(x)
    ensures MergeAt(false, x, y) == y
  {
    if x.List? && y.List? { assert [] + y.items == y.items; }
    if x.Dict? && y.Dict? { assert MergeEntries(false, x, y) == y.entries; }
  }

  lemma BlankRight(x: Value, y: Value)
    requires Blank(y) && !Blank(x)
    ensures MergeAt(false, x, y) == x
  {
    if x.List? && y.List? { assert x.items + [] == x.items; }
    if x.Dict? && y.Dict? { assert MergeEntries(false, x, y) == x.entries; }
  }

  lemma BlankRegroups(x: Value, y: Value, z: Value)
    requires Blank(x) || Blank(y)
    ensures MergeAt(false, MergeAt(false, x, y), z) == MergeAt(false, x, MergeAt(false, y, z))
  {
    if Blank(x) {
      BlankLeft(x, y);
      BlankLeft(x, MergeAt(false, y, z));
    } else {
      BlankRight(x, y);
      BlankLeft(y, z);
    }
  }

  lemma {:induction false} MergeDictsAssociative(x: Value, y: Value, z: Value)
    requires x.Dict? && y.Dict? && z.Dict?
    ensures MergeAt(false, MergeAt(false, x, y), z) == MergeAt(false, x, MergeAt(false, y, z))
      <==> Regroups(x, y, z)
    decreases x, 0
  {
    var l := MergeEntries(false, Dict(MergeEntries(false, x, y)), z);
    var r := MergeEntries(false, x, Dict(MergeEntries(false, y, z)));
    assert l.Keys == r.Keys;
    forall k | k in l
      ensures l[k] == r[k] <==>
        (k in x.entries && k in y.entries && k in z.entries ==> Regroups(x.entries[k], y.entries[k], z.entries[k]))
    {
      if k in x.entries && k in y.entries && k in z.entries {
        MergeAssociative(x.entries[k], y.entries[k], z.entries[k]);
      }
    }
  }

  /** Two values agree on kinds: wherever both have a non-blank value at a path, both are
      dicts, both are lists, or both are scalars. */
  ghost predicate SameKinds(x: Value, y: Value)
    decreases x
  {
    if x.Dict? && y.Dict? then
      forall k :: k in x.entries && k in y.entries ==> SameKinds(x.entries[k], y.entries[k])
    else Blank(x) || Blank(y) || (x.List? && y.List?) || (SolidScalar(x) && SolidScalar(y))
  }

  lemma {:induction false} SameKindsRegroup(x: Value, y: Value, z: Value)
    requires SameKinds(x, y) && SameKinds(y, z)
    ensures Regroups(x, y, z)
    decreases x
  {
    if x.Dict? && y.Dict? && z.Dict? {
      forall k | k in x.entries && k in y.entries && k in z.entries
        ensures Regroups(x.entries[k], y.entries[k], z.entries[k])
      {
        SameKindsRegroup(x.entries[k], y.entries[k], z.entries[k]);
      }
    }
  }

  lemma {:induction false} SameKindsMerge(x: Value, y: Value, z: Value)
    requires SameKinds(x, y) && SameKinds(x, z) && SameKinds(y, z)
    ensures SameKinds(MergeAt(false, x, y), z)
    decreases x
  {
    if x.Dict? && y.Dict? && z.Dict? {
      var m := MergeEntries(false, x, y);
      forall k | k in m && k in z.entries ensures SameKinds(m[k], z.entries[k]) {
        if k in x.entries && k in y.entries {
          SameKindsMerge(x.entries[k], y.entries[k], z.entries[k]);
        }
      }
    } else if Blank(x) {
      BlankLeft(x, y);
    } else if Blank(y) {
      BlankRight(x, y);
    }
  }

  // ----- folding rules and fragments -----

  /** `out = _deep_merge(out, emitted)` for each emission in turn. */
  function Fold(overwrite: bool, base: Value, patches: seq<Value>): Value
    decreases |patches|
  {
    if |patches| == 0 then base
    else Fold(overwrite, DeepMerge(overwrite, base, patches[0]), patches[1..])
  }

  /** One merge after the other, from the base to the result. */
  ghost predicate Folded(overwrite: bool, base: Value, patches: seq<Value>, r: Value) {
    exists states :: FoldsThrough(states, overwrite, base, patches, r)
  }

  ghost predicate FoldsThrough(states: seq<Value>, overwrite: bool, base: Value, patches: seq<Value>, r: Value) {
    && |states| == |patches| + 1 && states[0] == base && states[|patches|] == r
    && forall i :: 0 <= i < |patches| ==> Merged(overwrite, states[i], patches[i], states[i + 1])
  }

  lemma FoldMeaning(overwrite: bool, base: Value, patches: seq<Value>)
    ensures Folded(overwrite, base, patches, Fold(overwrite, base, patches))
  {
    var states := FoldStates(overwrite, base, patches);
  }

  lemma {:induction false} FoldStates(overwrite: bool, base: Value, patches: seq<Value>) returns (states: seq<Value>)
    ensures FoldsThrough(states, overwrite, base, patches, Fold(overwrite, base, patches))
    decreases |patches|
  {
    if |patches| == 0 {
      states := [base];
    } else {
      var next := DeepMerge(overwrite, base, patches[0]);
      MergeMeaning(overwrite, base, patches[0]);
      var rest := FoldStates(overwrite, next, patches[1..]);
      states := [base] + rest;
      forall i | 0 <= i < |patches| ensures Merged(overwrite, states[i], patches[i], states[i + 1]) {
        if i > 0 { assert patches[1..][i - 1] == patches[i] && states[i] == rest[i - 1] && states[i + 1] == rest[i]; }
      }
    }
  }

  lemma {:induction false} FoldAppend(overwrite: bool, base: Value, ps: seq<Value>, qs: seq<Value>)
    ensures Fold(overwrite, base, ps + qs) == Fold(overwrite, Fold(overwrite, base, ps), qs)
    decreases |ps|
  {
    if |ps| == 0 {
      assert ps + qs == qs;
    } else {
      assert (ps + qs)[0] == ps[0] && (ps + qs)[1..] == ps[1..] + qs;
      FoldAppend(overwrite, DeepMerge(overwrite, base, ps[0]), ps[1..], qs);
    }
  }

  /** `base` and the patches are dicts that agree on kinds pairwise. */
  ghost predicate Agreeing(base: Value, patches: seq<Value>) {
    && base.Dict?
    && (forall i :: 0 <= i < |patches| ==> patches[i].Dict? && SameKinds(base, patches[i]))
    && (forall i, j :: 0 <= i < j < |patches| ==> SameKinds(patches[i], patches[j]))
  }

  lemma AgreeingStep(base: Value, patches: seq<Value>)
    requires Agreeing(base, patches) && |patches| > 0
    ensures Agreeing(DeepMerge(false, base, patches[0]), patches[1..])
    ensures Agreeing(patches[0], patches[1..])
  {
    var rest := patches[1..];
    var merged := DeepMerge(false, base, patches[0]);
    forall i | 0 <= i < |rest| ensures rest[i].Dict? && SameKinds(merged, rest[i]) {
      assert rest[i] == patches[i + 1];
      SameKindsMerge(base, patches[0], rest[i]);
    }
  }

  lemma {:induction false} FoldDict(base: Value, patches: seq<Value>)
    requires base.Dict?
    ensures Fold(false, base, patches).Dict?
    decreases |patches|
  {
    if |patches| > 0 { FoldDict(DeepMerge(false, base, patches[0]), patches[1..]); }
  }

  lemma {:induction false} FoldSameKinds(x: Value, base: Value, patches: seq<Value>)
    requires Agreeing(base, patches) && SameKinds(x, base)
    requires forall i :: 0 <= i < |patches| ==> SameKinds(x, patches[i])
    ensures SameKinds(x, Fold(false, base, patches))
    decreases |patches|
  {
    if |patches| > 0 {
      var merged := DeepMerge(false, base, patches[0]);
      SameKindsSymmetric(x, base);
      SameKindsSymmetric(x, patches[0]);
      SameKindsMerge(base, patches[0], x);
      SameKindsSymmetric(merged, x);
      AgreeingStep(base, patches);
      FoldSameKinds(x, merged, patches[1..]);
    }
  }

  lemma FoldStartsAtFirst(patches: seq<Value>)
    requires |patches| > 0 && patches[0].Dict?
    ensures Fold(false, EMPTY_DICT, patches) == Fold(false, patches[0], patches[1..])
  {
    BlankLeft(EMPTY_DICT, patches[0]);
  }

  lemma NothingToMerge(x: Value)
    requires x.Dict?
    ensures DeepMerge(false, x, EMPTY_DICT) == x
  {
    assert MergeEntries(false, x, EMPTY_DICT) == x.entries;
  }

  lemma AgreeingEmpty(patches: seq<Value>)
    requires forall i :: 0 <= i < |patches| ==> patches[i].Dict?
    requires forall i, j :: 0 <= i < j < |patches| ==> SameKinds(patches[i], patches[j])
    ensures Agreeing(EMPTY_DICT, patches)
  {
  }

  /** Merging patch after patch equals one merge with the patches combined first. */
  lemma {:induction false} FoldIsOneMerge(base: Value, patches: seq<Value>)
    requires Agreeing(base, patches)
    ensures Fold(false, base, patches) == DeepMerge(false, base, Fold(false, EMPTY_DICT, patches))
    decreases |patches|
  {
    if |patches| == 0 {
      NothingToMerge(base);
    } else {
      var first, rest := patches[0], patches[1..];
      AgreeingStep(base, patches);
      var tail := Fold(false, EMPTY_DICT, rest);
      FoldIsOneMerge(DeepMerge(false, base, first), rest);
      FoldIsOneMerge(first, rest);
      FoldStartsAtFirst(patches);
      AgreeingEmpty(rest);
      FoldDict(EMPTY_DICT, rest);
      FoldSameKinds(first, EMPTY_DICT, rest);
      SameKindsRegroup(base, first, tail);
      MergeAssociative(base, first, tail);
    }
  }

  lemma {:induction false} SameKindsSymmetric(x: Value, y: Value)
    requires SameKinds(x, y)
    ensures SameKinds(y, x)
    decreases x
  {
    if x.Dict? && y.Dict? {
      forall k | k in x.entries && k in y.entries ensures SameKinds(y.entries[k], x.entries[k]) {
        SameKindsSymmetric(x.entries[k], y.entries[k]);
      }
    }
  }

  // ----- what survives any run of merges -----

  /** What a merge may do to the value at a path: solid scalars stay, non-empty lists grow
      at the end, non-empty dicts stay dicts, and nothing disappears. */
  predicate Preserves(before: Value, after: Value) {
    && (SolidScalar(before) ==> after == before)
    && (before.List? && before.items != [] ==> after.List? && before.items <= after.items)
    && (before.Dict? && before != EMPTY_DICT ==> after.Dict? && before.entries.Keys <= after.entries.Keys)
  }

  lemma {:induction false} MergePreserves(base: Value, patch: Value, path: seq<string>)
    requires Lookup(base, path).Some?
    ensures !Blank(base) ==>
      && Lookup(MergeAt(false, base, patch), path).Some?
      && Preserves(Lookup(base, path).value, Lookup(MergeAt(false, base, patch), path).value)
    decreases |path|
  {
    if |path| > 0 && patch.Dict? && path[0] in patch.entries {
      var b, p := base.entries[path[0]], patch.entries[path[0]];
      if Blank(b) {
        BlankLookup(b, path[1..]);
        BlankLeft(b, p);
      } else {
        MergePreserves(b, p, path[1..]);
      }
    } else if |path| > 0 {
      PreservesReflexive(Lookup(base, path).value);
    } else if !Blank(base) {
      assert base.List? && patch.List? ==> base.items <= base.items + patch.items;
    }
  }

  lemma PreservesReflexive(v: Value)
    ensures Preserves(v, v)
  {
  }

  /** Inside a blank value there is nothing below the top. */
  lemma BlankLookup(v: Value, path: seq<string>)
    requires Blank(v) && Lookup(v, path).Some?
    ensures path == []
  {
  }

  /** Over any run of rules and fragments, whatever they emit. */
  lemma {:induction false} FoldPreserves(base: Value, patches: seq<Value>, path: seq<string>)
    requires base.Dict? && |path| > 0
    requires Lookup(base, path).Some?
    ensures Lookup(Fold(false, base, patches), path).Some?
    ensures Preserves(Lookup(base, path).value, Lookup(Fold(false, base, patches), path).value)
    decreases |patches|
  {
    if |patches| == 0 {
      PreservesReflexive(Lookup(base, path).value);
    } else {
      var next := DeepMerge(false, base, patches[0]);
      if patches[0].Dict? {
        MergePreserves(base, patches[0], path);
      } else {
        PreservesReflexive(Lookup(base, path).value);
      }
      FoldPreserves(next, patches[1..], path);
      var a, b := Lookup(base, path).value, Lookup(next, path).value;
      var c := Lookup(Fold(false, base, patches), path).value;
      assert a.List? && a.items != [] ==> a.items <= b.items <= c.items;
    }
  }

  predicate EndsWith(v: Value, tail: seq<Value>) {
    v.List? && |tail| <= |v.items| && v.items[|v.items| - |tail|..] == tail
  }

  /** In overwrite mode the patch wins instead: each of its leaves is in the result, and
      each of its lists ends the list found there. */
  lemma {:induction false} OverwritePatchWins(base: Value, patch: Value, path: seq<string>)
    requires Lookup(patch, path).Some?
    ensures var p := Lookup(patch, path).value;
      Lookup(MergeAt(true, base, patch), path).Some?
      && (!p.List? && !p.Dict? ==> Lookup(MergeAt(true, base, patch), path).value == p)
      && (p.List? ==> EndsWith(Lookup(MergeAt(true, base, patch), path).value, p.items))
    decreases |path|
  {
    if |path| > 0 && base.Dict? && path[0] in base.entries {
      OverwritePatchWins(base.entries[path[0]], patch.entries[path[0]], path[1..]);
    }
  }
}
