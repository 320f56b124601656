/** Rules over card-text fragments: `PatternRuleEngine.apply_rules` and the stage loop
    `_apply_candidates`. Regular expressions are an oracle. */
module RuleEngine {
  import Markers
  import opened Merge
  import opened Sequences
  import opened Wrappers

  /** `captures` stands in the order of the rule's capture map. */
  datatype Rule = Rule(id: string, pattern: string, captures: seq<(string, Value)>, emit: Value)

  /** `search` is `re.search(...).groupdict()`; `token` reads `NAME[3]`. */
  datatype Oracle = Oracle(search: (string, string) -> Option<map<string, Value>>,
                           token: string -> Option<(string, nat)>)

  type Params = map<string, seq<Value>>

  const BLANK_TEXT := Str("")

  function Get(ctx: map<string, Value>, name: string): Value {
    if name in ctx then ctx[name] else BLANK_TEXT
  }

  predicate Reference(v: Value) {
    v.Str? && |v.s| > 0 && v.s[0] == '$'
  }

  /** `_resolve_ref` */
  function ResolveRef(o: Oracle, expr: Value, ctx: map<string, Value>, params: Params): Value
    decreases expr
  {
    match expr
    case List(items) =>
      List(seq(|items|, i requires 0 <= i < |items| => ResolveRef(o, items[i], ctx, params)))
    case Dict(entries) => Dict(map k | k in entries :: ResolveRef(o, entries[k], ctx, params))
    case Str(s) =>
      if Reference(expr) then Get(ctx, s[1..])
      else
        var token := o.token(s);
        if token.None? then expr
        else
          var bucket := if token.value.0 in params then params[token.value.0] else [];
          if token.value.1 < |bucket| then bucket[token.value.1] else BLANK_TEXT
    case _ => expr
  }

  /** `_resolve_template` */
  function ResolveTemplate(v: Value, ctx: map<string, Value>): Value
    decreases v
  {
    match v
    case List(items) =>
      List(seq(|items|, i requires 0 <= i < |items| => ResolveTemplate(items[i], ctx)))
    case Dict(entries) => Dict(map k | k in entries :: ResolveTemplate(entries[k], ctx))
    case Str(s) => if Reference(v) then Get(ctx, s[1..]) else v
    case _ => v
  }

  /** Captures are resolved in order, each seeing the earlier ones. */
  function CaptureContext(o: Oracle, ctx: map<string, Value>, captures: seq<(string, Value)>, params: Params)
    : map<string, Value>
    decreases |captures|
  {
    if |captures| == 0 then ctx
    else
      var (key, expr) := captures[0];
      CaptureContext(o, ctx[key := ResolveRef(o, expr, ctx, params)], captures[1..], params)
  }

  method BuildCaptureContext(o: Oracle, captures: seq<(string, Value)>, groups: map<string, Value>, params: Params)
    returns (ctx: map<string, Value>)
    ensures ctx == CaptureContext(o, groups, captures, params)
    ensures exists contexts ::
      Steps(o, contexts, captures, params) && contexts[0] == groups && contexts[|captures|] == ctx
  {
    ghost var contexts := ContextSteps(o, groups, captures, params);
    ctx := groups;
    for i := 0 to |captures|
      invariant CaptureContext(o, groups, captures, params) == CaptureContext(o, ctx, captures[i..], params)
    {
      var (key, expr) := captures[i];
      ctx := ctx[key := ResolveRef(o, expr, ctx, params)];
      assert captures[i..][1..] == captures[i + 1..];
    }
  }

  /** What one rule adds for one fragment, if its pattern matches. */
  function Emission(o: Oracle, rule: Rule, text: string, params: Params): Option<Value> {
    var groups := o.search(rule.pattern, text);
    if groups.None? then None
    else Some(ResolveTemplate(rule.emit, CaptureContext(o, groups.value, rule.captures, params)))
  }

  function Hits(o: Oracle, rules: seq<Rule>, text: string): seq<string> {
    if |rules| == 0 then []
    else (if o.search(rules[0].pattern, text).Some? then [rules[0].id] else []) + Hits(o, rules[1..], text)
  }

  function Emissions(o: Oracle, rules: seq<Rule>, text: string, params: Params): seq<Value> {
    if |rules| == 0 then []
    else
      var e := Emission(o, rules[0], text, params);
      (if e.Some? then [e.value] else []) + Emissions(o, rules[1..], text, params)
  }

  lemma {:induction false} HitsSnoc(o: Oracle, rules: seq<Rule>, r: Rule, text: string, params: Params)
    ensures Hits(o, rules + [r], text) == Hits(o, rules, text) + Hits(o, [r], text)
    ensures Emissions(o, rules + [r], text, params)
            == Emissions(o, rules, text, params) + Emissions(o, [r], text, params)
  {
    if |rules| == 0 {
      assert rules + [r] == [r];
    } else {
      assert (rules + [r])[1..] == rules[1..] + [r];
      HitsSnoc(o, rules[1..], r, text, params);
    }
  }

  /** `apply_rules` folds the emissions of the matching rules into the payload, in order. */
  method ApplyRules(o: Oracle, overwrite: bool, text: string, rules: seq<Rule>, payload: Value, params: Params)
    returns (out: Value, hits: seq<string>)
    ensures out == Fold(overwrite, payload, Emissions(o, rules, text, params))
    ensures hits == Hits(o, rules, text)
    ensures RulesApplied(o, overwrite, text, rules, payload, params, out, hits)
  {
    RulesMeaning(o, overwrite, text, rules, payload, params);
    out, hits := payload, [];
    for i := 0 to |rules|
      invariant out == Fold(overwrite, payload, Emissions(o, rules[..i], text, params))
      invariant hits == Hits(o, rules[..i], text)
    {
      var rule := rules[i];
      assert rules[..i + 1] == rules[..i] + [rule];
      HitsSnoc(o, rules[..i], rule, text, params);
      FoldAppend(overwrite, payload, Emissions(o, rules[..i], text, params), Emissions(o, [rule], text, params));
      var found := o.search(rule.pattern, text);
      if found.None? {
        continue;
      }
      var ctx := BuildCaptureContext(o, rule.captures, found.value, params);
      var emitted := ResolveTemplate(rule.emit, ctx);
      out := DeepMergeLoop(overwrite, out, emitted);
      hits := hits + [rule.id];
    }
    assert rules[..|rules|] == rules;
  }

  /** The emissions of the rules are merged into the payload one after the other. */
  ghost predicate RulesApplied(o: Oracle, overwrite: bool, text: string, rules: seq<Rule>, payload: Value,
                               params: Params, out: Value, hits: seq<string>) {
    exists emitted ::
      FragmentDone(o, rules, text, params, emitted, hits) && Folded(overwrite, payload, emitted, out)
  }

  lemma RulesMeaning(o: Oracle, overwrite: bool, text: string, rules: seq<Rule>, payload: Value, params: Params)
    ensures RulesApplied(o, overwrite, text, rules, payload, params,
                         Fold(overwrite, payload, Emissions(o, rules, text, params)), Hits(o, rules, text))
  {
    FragmentMeaning(o, rules, text, params);
    FoldMeaning(overwrite, payload, Emissions(o, rules, text, params));
  }

  // ----- a stage: fragment after fragment -----

  function LocalParams(fragment: string, source: string, params: Params): Params {
    if source == "" || Markers.Find(source, fragment).None? then params
    else map key | key in params :: Markers.ParamSlice("【" + key + "】", fragment, source, params[key])
  }

  function StageEmissions(o: Oracle, rules: seq<Rule>, fragments: seq<string>, source: string, params: Params)
    : seq<Value>
  {
    if |fragments| == 0 then []
    else
      var first := Emissions(o, rules, fragments[0], LocalParams(fragments[0], source, params));
      first + StageEmissions(o, rules, fragments[1..], source, params)
  }

  function StageHits(o: Oracle, rules: seq<Rule>, fragments: seq<string>): seq<string> {
    if |fragments| == 0 then [] else Hits(o, rules, fragments[0]) + StageHits(o, rules, fragments[1..])
  }

  function Unmatched(o: Oracle, rules: seq<Rule>, fragments: seq<string>): seq<string> {
    if |fragments| == 0 then []
    else (if Hits(o, rules, fragments[0]) == [] then [fragments[0]] else []) + Unmatched(o, rules, fragments[1..])
  }

  lemma {:induction false} StageEmissionsSnoc(
      o: Oracle, rules: seq<Rule>, fs: seq<string>, f: string, source: string, params: Params)
    ensures StageEmissions(o, rules, fs + [f], source, params)
      == StageEmissions(o, rules, fs, source, params) + Emissions(o, rules, f, LocalParams(f, source, params))
  {
    if |fs| == 0 {
      assert fs + [f] == [f];
    } else {
      assert (fs + [f])[1..] == fs[1..] + [f];
      StageEmissionsSnoc(o, rules, fs[1..], f, source, params);
      Reassociate(Emissions(o, rules, fs[0], LocalParams(fs[0], source, params)),
              StageEmissions(o, rules, fs[1..], source, params),
              Emissions(o, rules, f, LocalParams(f, source, params)));
    }
  }

  lemma {:induction false} StageHitsSnoc(o: Oracle, rules: seq<Rule>, fs: seq<string>, f: string)
    ensures StageHits(o, rules, fs + [f]) == StageHits(o, rules, fs) + Hits(o, rules, f)
    ensures Unmatched(o, rules, fs + [f]) == Unmatched(o, rules, fs) + (if Hits(o, rules, f) == [] then [f] else [])
  {
    if |fs| == 0 {
      assert fs + [f] == [f];
    } else {
      assert (fs + [f])[1..] == fs[1..] + [f];
      StageHitsSnoc(o, rules, fs[1..], f);
      Reassociate(Hits(o, rules, fs[0]), StageHits(o, rules, fs[1..]), Hits(o, rules, f));
    }
  }

  lemma StageStep(o: Oracle, overwrite: bool, fragments: seq<string>, rules: seq<Rule>, payload: Value,
                  params: Params, source: string, i: nat)
    requires i < |fragments|
    ensures var front, f := fragments[..i], fragments[i];
      && Fold(overwrite, payload, StageEmissions(o, rules, fragments[..i + 1], source, params))
         == Fold(overwrite, Fold(overwrite, payload, StageEmissions(o, rules, front, source, params)),
                 Emissions(o, rules, f, LocalParams(f, source, params)))
      && StageHits(o, rules, fragments[..i + 1]) == StageHits(o, rules, front) + Hits(o, rules, f)
      && Unmatched(o, rules, fragments[..i + 1])
         == Unmatched(o, rules, front) + (if Hits(o, rules, f) == [] then [f] else [])
  {
    var front, f := fragments[..i], fragments[i];
    assert fragments[..i + 1] == front + [f];
    StageEmissionsSnoc(o, rules, front, f, source, params);
    StageHitsSnoc(o, rules, front, f);
    FoldAppend(overwrite, payload, StageEmissions(o, rules, front, source, params),
               Emissions(o, rules, f, LocalParams(f, source, params)));
  }

  /** `_apply_candidates`, with every fragment's classification left out. */
  method ApplyCandidates(o: Oracle, overwrite: bool, fragments: seq<string>, rules: seq<Rule>,
                         payload: Value, params: Params, source: string)
    returns (out: Value, hits: seq<string>, unmatched: seq<string>)
    ensures out == Fold(overwrite, payload, StageEmissions(o, rules, fragments, source, params))
    ensures hits == StageHits(o, rules, fragments)
    ensures unmatched == Unmatched(o, rules, fragments)
    ensures StageApplied(o, overwrite, fragments, rules, payload, params, source, out, hits, unmatched)
  {
    StageAppliedMeaning(o, overwrite, fragments, rules, payload, params, source);
    out, hits, unmatched := payload, [], [];
    for i := 0 to |fragments|
      invariant out == Fold(overwrite, payload, StageEmissions(o, rules, fragments[..i], source, params))
      invariant hits == StageHits(o, rules, fragments[..i])
      invariant unmatched == Unmatched(o, rules, fragments[..i])
    {
      var fragment := fragments[i];
      StageStep(o, overwrite, fragments, rules, payload, params, source, i);
      var local := LocalParams(fragment, source, params);
      var fragmentHits;
      out, fragmentHits := ApplyRules(o, overwrite, fragment, rules, out, local);
      if fragmentHits != [] {
        hits := hits + fragmentHits;
      } else {
        unmatched := unmatched + [fragment];
      }
    }
    assert fragments[..|fragments|] == fragments;
  }

  /** The emissions of all fragments are merged into the payload one after the other. */
  ghost predicate StageApplied(o: Oracle, overwrite: bool, fragments: seq<string>, rules: seq<Rule>,
                               payload: Value, params: Params, source: string, out: Value, hits: seq<string>,
                               unmatched: seq<string>) {
    exists emitted ::
      StageDone(o, rules, fragments, source, params, emitted, hits, unmatched)
      && Folded(overwrite, payload, emitted, out)
  }

  lemma StageAppliedMeaning(o: Oracle, overwrite: bool, fragments: seq<string>, rules: seq<Rule>,
                            payload: Value, params: Params, source: string)
    ensures StageApplied(o, overwrite, fragments, rules, payload, params, source,
              Fold(overwrite, payload, StageEmissions(o, rules, fragments, source, params)),
              StageHits(o, rules, fragments), Unmatched(o, rules, fragments))
  {
    StageMeaning(o, rules, fragments, source, params);
    FoldMeaning(overwrite, payload, StageEmissions(o, rules, fragments, source, params));
  }

  // ----- what a stage does, said of the fragments and rules alone -----

  datatype Step = In(key: string) | At(index: nat)

  /** The value a path leads to. */
  function Walk(v: Value, path: seq<Step>): Option<Value> {
    if |path| == 0 then Some(v)
    else
      match path[0]
      case In(key) => if v.Dict? && key in v.entries then Walk(v.entries[key], path[1..]) else None
      case At(index) => if v.List? && index < |v.items| then Walk(v.items[index], path[1..]) else None
  }

  /** What stands at a place of the template and at the same place of its instance. */
  ghost predicate Replaced(t: Value, r: Value, text: (string, Value) -> bool) {
    match t
    case Str(s) => text(s, r)
    case List(items) => r.List? && |r.items| == |items|
    case Dict(entries) => r.Dict? && r.entries.Keys == entries.Keys
    case _ => r == t
  }

  /** An instance has the template's shape and the template's values, but for its texts, each of which is
      replaced as `text` says. */
  ghost predicate Instance(template: Value, r: Value, text: (string, Value) -> bool) {
    forall path :: Walk(template, path).Some? ==>
      Walk(r, path).Some? && Replaced(Walk(template, path).value, Walk(r, path).value, text)
  }

  /** `$name` stands for what the context holds under the name, or for the empty text. */
  ghost predicate Named(s: string, r: Value, ctx: map<string, Value>)
    requires |s| > 0
  {
    if s[1..] in ctx then r == ctx[s[1..]] else r == Str("")
  }

  ghost predicate InTemplate(s: string, r: Value, ctx: map<string, Value>) {
    if |s| > 0 && s[0] == '$' then Named(s, r, ctx) else r == Str(s)
  }

  /** Besides, `KEY[k]` stands for the k-th value under the key, or for the empty text. */
  ghost predicate InCapture(o: Oracle, s: string, r: Value, ctx: map<string, Value>, params: Params) {
    if |s| > 0 && s[0] == '$' then Named(s, r, ctx)
    else if o.token(s).None? then r == Str(s)
    else
      var (key, k) := o.token(s).value;
      if key in params && k < |params[key]| then r == params[key][k] else r == Str("")
  }

  lemma {:induction false} TemplateInstance(v: Value, ctx: map<string, Value>, path: seq<Step>)
    requires Walk(v, path).Some?
    ensures Walk(ResolveTemplate(v, ctx), path).Some?
    ensures Replaced(Walk(v, path).value, Walk(ResolveTemplate(v, ctx), path).value, (s, r) => InTemplate(s, r, ctx))
    decreases |path|
  {
    if |path| > 0 {
      match path[0]
      case In(key) => TemplateInstance(v.entries[key], ctx, path[1..]);
      case At(index) => TemplateInstance(v.items[index], ctx, path[1..]);
    }
  }

  lemma {:induction false} CaptureInstance(
      o: Oracle, v: Value, ctx: map<string, Value>, params: Params, path: seq<Step>)
    requires Walk(v, path).Some?
    ensures Walk(ResolveRef(o, v, ctx, params), path).Some?
    ensures Replaced(Walk(v, path).value, Walk(ResolveRef(o, v, ctx, params), path).value,
                     (s, r) => InCapture(o, s, r, ctx, params))
    decreases |path|
  {
    if |path| > 0 {
      match path[0]
      case In(key) => CaptureInstance(o, v.entries[key], ctx, params, path[1..]);
      case At(index) => CaptureInstance(o, v.items[index], ctx, params, path[1..]);
    }
  }

  /** The contexts between the captures: from the groups on, each adds one key. */
  ghost predicate Steps(o: Oracle, contexts: seq<map<string, Value>>, captures: seq<(string, Value)>, params: Params) {
    && |contexts| == |captures| + 1
    && forall i :: 0 <= i < |captures| ==>
         && captures[i].0 in contexts[i + 1]
         && contexts[i + 1] == contexts[i][captures[i].0 := contexts[i + 1][captures[i].0]]
         && Instance(captures[i].1, contexts[i + 1][captures[i].0],
                     (s, r) => InCapture(o, s, r, contexts[i], params))
  }

  lemma {:induction false} ContextSteps(
      o: Oracle, ctx: map<string, Value>, captures: seq<(string, Value)>, params: Params)
    returns (contexts: seq<map<string, Value>>)
    ensures Steps(o, contexts, captures, params)
    ensures contexts[0] == ctx && contexts[|captures|] == CaptureContext(o, ctx, captures, params)
    decreases |captures|
  {
    if |captures| == 0 {
      contexts := [ctx];
    } else {
      var (key, expr) := captures[0];
      var value := ResolveRef(o, expr, ctx, params);
      forall path | Walk(expr, path).Some?
        ensures Walk(value, path).Some?
        ensures Replaced(Walk(expr, path).value, Walk(value, path).value, (s, r) => InCapture(o, s, r, ctx, params))
      {
        CaptureInstance(o, expr, ctx, params, path);
      }
      var rest := ContextSteps(o, ctx[key := value], captures[1..], params);
      contexts := [ctx] + rest;
      StepsInFront(o, ctx, rest, captures, params);
    }
  }

  lemma StepsInFront(o: Oracle, ctx: map<string, Value>, rest: seq<map<string, Value>>, captures: seq<(string, Value)>,
                     params: Params)
    requires |captures| > 0 && Steps(o, rest, captures[1..], params)
    requires captures[0].0 in rest[0] && rest[0] == ctx[captures[0].0 := rest[0][captures[0].0]]
    requires Instance(captures[0].1, rest[0][captures[0].0], (s, r) => InCapture(o, s, r, ctx, params))
    ensures Steps(o, [ctx] + rest, captures, params)
  {
    var contexts := [ctx] + rest;
    forall i | 0 <= i < |captures|
      ensures captures[i].0 in contexts[i + 1]
      ensures contexts[i + 1] == contexts[i][captures[i].0 := contexts[i + 1][captures[i].0]]
      ensures Instance(captures[i].1, contexts[i + 1][captures[i].0],
                       (s, r) => InCapture(o, s, r, contexts[i], params))
    {
      if i > 0 { assert captures[i] == captures[1..][i - 1] && contexts[i] == rest[i - 1]; }
    }
  }

  /** What a matching rule emits: its template, filled from the pattern's groups and its captures. */
  ghost predicate EmittedBy(e: Value, o: Oracle, rule: Rule, text: string, params: Params) {
    exists contexts ::
      && Steps(o, contexts, rule.captures, params)
      && o.search(rule.pattern, text) == Some(contexts[0])
      && Instance(rule.emit, e, (s, r) => InTemplate(s, r, contexts[|rule.captures|]))
  }

  lemma {:induction false} EmissionMeaning(o: Oracle, rule: Rule, text: string, params: Params)
    requires o.search(rule.pattern, text).Some?
    ensures Emission(o, rule, text, params).Some?
    ensures EmittedBy(Emission(o, rule, text, params).value, o, rule, text, params)
  {
    var groups := o.search(rule.pattern, text).value;
    var contexts := ContextSteps(o, groups, rule.captures, params);
    var ctx := contexts[|rule.captures|];
    var e := Emission(o, rule, text, params).value;
    forall path | Walk(rule.emit, path).Some?
      ensures Walk(e, path).Some?
      ensures Replaced(Walk(rule.emit, path).value, Walk(e, path).value, (s, r) => InTemplate(s, r, ctx))
    {
      TemplateInstance(rule.emit, ctx, path);
    }
  }

  // ----- one fragment -----

  ghost function Matching(o: Oracle, rules: seq<Rule>, text: string): set<nat> {
    set k: nat | k < |rules| && o.search(rules[k].pattern, text).Some?
  }

  /** The rules whose pattern is found, in order: their identifiers and what they emit. */
  ghost predicate FragmentDone(o: Oracle, rules: seq<Rule>, text: string, params: Params, emitted: seq<Value>,
                               hits: seq<string>) {
    exists picked: seq<nat> ::
      Picks(picked, Matching(o, rules, text)) && Listed(picked, o, rules, text, params, emitted, hits)
  }

  ghost predicate Listed(picked: seq<nat>, o: Oracle, rules: seq<Rule>, text: string, params: Params,
                         emitted: seq<Value>, hits: seq<string>) {
    && |emitted| == |hits| == |picked|
    && forall j :: 0 <= j < |picked| ==>
         && picked[j] < |rules| && hits[j] == rules[picked[j]].id
         && EmittedBy(emitted[j], o, rules[picked[j]], text, params)
  }

  lemma {:induction false} FragmentMeaning(o: Oracle, rules: seq<Rule>, text: string, params: Params)
    ensures FragmentDone(o, rules, text, params, Emissions(o, rules, text, params), Hits(o, rules, text))
  {
    var picked := PickedRules(o, rules, text, params);
  }

  lemma {:induction false} PickedRules(o: Oracle, rules: seq<Rule>, text: string, params: Params)
    returns (picked: seq<nat>)
    ensures Picks(picked, Matching(o, rules, text))
    ensures Listed(picked, o, rules, text, params, Emissions(o, rules, text, params), Hits(o, rules, text))
    decreases |rules|
  {
    if |rules| == 0 {
      picked := [];
    } else {
      var front, last := rules[..|rules| - 1], rules[|rules| - 1];
      assert rules == front + [last];
      var before := PickedRules(o, front, text, params);
      HitsSnoc(o, front, last, text, params);
      picked := OneRuleMore(o, front, last, text, params, before);
    }
  }

  lemma {:induction false} OneRule(o: Oracle, rule: Rule, text: string, params: Params)
    ensures if o.search(rule.pattern, text).None? then
              Hits(o, [rule], text) == [] && Emissions(o, [rule], text, params) == []
            else
              && Emission(o, rule, text, params).Some?
              && Hits(o, [rule], text) == [rule.id]
              && Emissions(o, [rule], text, params) == [Emission(o, rule, text, params).value]
  {
    assert [rule][1..] == [];
  }

  lemma {:induction false} OneRuleMore(
      o: Oracle, front: seq<Rule>, last: Rule, text: string, params: Params, before: seq<nat>)
    returns (picked: seq<nat>)
    requires Picks(before, Matching(o, front, text))
    requires Listed(before, o, front, text, params, Emissions(o, front, text, params), Hits(o, front, text))
    ensures Picks(picked, Matching(o, front + [last], text))
    ensures Listed(picked, o, front + [last], text, params,
                   Emissions(o, front, text, params) + Emissions(o, [last], text, params),
                   Hits(o, front, text) + Hits(o, [last], text))
  {
    OneRule(o, last, text, params);
    MatchingMore(o, front, last, text);
    if o.search(last.pattern, text).Some? {
      EmissionMeaning(o, last, text, params);
      PicksOneMore(before, Matching(o, front, text), |front|);
      picked := before + [|front|];
    } else {
      picked := before;
    }
  }

  lemma MatchingMore(o: Oracle, front: seq<Rule>, last: Rule, text: string)
    ensures Matching(o, front + [last], text)
            == Matching(o, front, text) + if o.search(last.pattern, text).Some? then {|front|} else {}
  {
    var rules := front + [last];
    assert forall k :: 0 <= k < |front| ==> rules[k] == front[k];
  }

  // ----- which values a fragment sees -----

  ghost predicate FirstAt(fragment: string, source: string, p: nat) {
    && p <= |source| && fragment <= source[p..]
    && forall i :: 0 <= i < p ==> !(fragment <= source[i..])
  }

  function Least(a: nat, b: nat): nat { if a <= b then a else b }

  /** The values behind those of the markers before the fragment, one for each of its own markers. */
  ghost predicate Behind(slice: seq<Value>, marker: string, fragment: string, source: string, p: nat,
                         values: seq<Value>)
    requires p <= |source|
  {
    var skipped, count := Markers.Occurrences(marker, source[..p]), Markers.Occurrences(marker, fragment);
    slice == values[Least(skipped, |values|)..Least(skipped + count, |values|)]
  }

  /** A fragment that is found sees the values of its first place, and those are its own whenever as many
      were captured as the source has markers and the place cuts through none; otherwise it sees all. */
  ghost predicate Sees(slice: seq<Value>, marker: string, fragment: string, source: string, values: seq<Value>) {
    && ((source == "" || forall p: nat :: !FirstAt(fragment, source, p)) ==> slice == values)
    && (forall p: nat :: source != "" && FirstAt(fragment, source, p) && Markers.Unbordered(marker) ==>
          && Behind(slice, marker, fragment, source, p, values)
          && (|values| == Markers.Occurrences(marker, source) && Markers.Whole(marker, source, p) ==>
                Markers.IsOwnSlice(marker, fragment, source, p, values, slice)))
  }

  ghost predicate SeesOwn(local: Params, fragment: string, source: string, params: Params) {
    && local.Keys == params.Keys
    && forall key :: key in params ==> Sees(local[key], "【" + key + "】", fragment, source, params[key])
  }

  lemma FoundAt(fragment: string, source: string, p: nat)
    ensures FirstAt(fragment, source, p) <==> Markers.Find(source, fragment) == Some(p)
  {
  }

  lemma SliceBehind(marker: string, fragment: string, source: string, values: seq<Value>, p: nat)
    requires Markers.Unbordered(marker) && Markers.Find(source, fragment) == Some(p)
    ensures Behind(Markers.ParamSlice(marker, fragment, source, values), marker, fragment, source, p, values)
  {
    Markers.CountIsOccurrences(marker, source[..p]);
    Markers.CountIsOccurrences(marker, fragment);
  }

  lemma SliceSees(marker: string, fragment: string, source: string, values: seq<Value>)
    requires |marker| > 0 && source != "" && Markers.Find(source, fragment).Some?
    ensures Sees(Markers.ParamSlice(marker, fragment, source, values), marker, fragment, source, values)
  {
    var slice := Markers.ParamSlice(marker, fragment, source, values);
    FoundAt(fragment, source, Markers.Find(source, fragment).value);
    forall p: nat | FirstAt(fragment, source, p) && Markers.Unbordered(marker)
      ensures Behind(slice, marker, fragment, source, p, values)
      ensures |values| == Markers.Occurrences(marker, source) && Markers.Whole(marker, source, p) ==>
        Markers.IsOwnSlice(marker, fragment, source, p, values, slice)
    {
      FoundAt(fragment, source, p);
      SliceBehind(marker, fragment, source, values, p);
      if |values| == Markers.Occurrences(marker, source) && Markers.Whole(marker, source, p) {
        OwnSlice(marker, fragment, source, values, p);
      }
    }
  }

  lemma OwnSlice(marker: string, fragment: string, source: string, values: seq<Value>, p: nat)
    requires Markers.Unbordered(marker) && Markers.Find(source, fragment) == Some(p)
    requires |values| == Markers.Occurrences(marker, source) && Markers.Whole(marker, source, p)
    ensures Markers.IsOwnSlice(marker, fragment, source, p, values,
                               Markers.ParamSlice(marker, fragment, source, values))
  {
    Markers.CountIsOccurrences(marker, source);
    Markers.CountIsOccurrences(marker, fragment);
    if Markers.Count(marker, fragment) > 0 {
      Markers.SliceAtFind(marker, fragment, source, values);
    } else {
      assert source == source[..p] + source[p..];
      Markers.WholeSplit(marker, source[..p], source[p..]);
    }
  }

  lemma LocalSees(fragment: string, source: string, params: Params)
    ensures SeesOwn(LocalParams(fragment, source, params), fragment, source, params)
  {
    var local := LocalParams(fragment, source, params);
    forall key | key in params ensures Sees(local[key], "【" + key + "】", fragment, source, params[key]) {
      var at := Markers.Find(source, fragment);
      if source != "" && at.Some? {
        SliceSees("【" + key + "】", fragment, source, params[key]);
        FoundAt(fragment, source, at.value);
      } else {
        forall p: nat ensures source == "" || !FirstAt(fragment, source, p) { FoundAt(fragment, source, p); }
      }
    }
  }

  /** A capture `KEY[k]` of a fragment gets the value captured for the fragment's k-th marker. */
  lemma CaptureIsOwn(o: Oracle, s: string, r: Value, ctx: map<string, Value>, local: Params, fragment: string,
                     source: string, params: Params, key: string, k: nat, p: nat)
    requires SeesOwn(local, fragment, source, params) && key in params && InCapture(o, s, r, ctx, local)
    requires o.token(s) == Some((key, k)) && !(|s| > 0 && s[0] == '$')
    requires source != "" && FirstAt(fragment, source, p)
    requires var marker := "【" + key + "】";
      && Markers.Unbordered(marker) && Markers.Whole(marker, source, p) && k < Markers.Occurrences(marker, fragment)
      && |params[key]| == Markers.Occurrences(marker, source)
    ensures var marker := "【" + key + "】";
      var before := Markers.Occurrences(marker, source[..p]);
      before + k < |params[key]| && r == params[key][before + k]
  {
    assert Sees(local[key], "【" + key + "】", fragment, source, params[key]);
    OwnValue(local[key], "【" + key + "】", fragment, source, p, params[key], k);
  }

  lemma OwnValue(slice: seq<Value>, marker: string, fragment: string, source: string, p: nat, values: seq<Value>,
                 k: nat)
    requires Markers.Unbordered(marker) && p <= |source| && Markers.Whole(marker, source, p)
    requires Markers.IsOwnSlice(marker, fragment, source, p, values, slice)
    requires k < Markers.Occurrences(marker, fragment)
    ensures var before := Markers.Occurrences(marker, source[..p]);
      k < |slice| && before + k < |values| && slice[k] == values[before + k]
  {
    assert source == source[..p] + source[p..];
    Markers.WholeSplit(marker, source[..p], source[p..]);
  }

  // ----- the whole stage -----

  datatype Part = Part(local: Params, emitted: seq<Value>, hits: seq<string>)

  function Concat<T>(parts: seq<seq<T>>): seq<T> {
    if |parts| == 0 then [] else Concat(parts[..|parts| - 1]) + parts[|parts| - 1]
  }

  function Emitted(parts: seq<Part>): (r: seq<seq<Value>>)
    ensures |r| == |parts| && forall i :: 0 <= i < |r| ==> r[i] == parts[i].emitted
  {
    seq(|parts|, i requires 0 <= i < |parts| => parts[i].emitted)
  }

  function HitsOf(parts: seq<Part>): (r: seq<seq<string>>)
    ensures |r| == |parts| && forall i :: 0 <= i < |r| ==> r[i] == parts[i].hits
  {
    seq(|parts|, i requires 0 <= i < |parts| => parts[i].hits)
  }

  ghost predicate PartsDone(o: Oracle, rules: seq<Rule>, fragments: seq<string>, source: string, params: Params,
                            parts: seq<Part>) {
    && |parts| == |fragments|
    && forall i :: 0 <= i < |parts| ==>
         && SeesOwn(parts[i].local, fragments[i], source, params)
         && FragmentDone(o, rules, fragments[i], parts[i].local, parts[i].emitted, parts[i].hits)
  }

  ghost function Missing(parts: seq<Part>): set<nat> {
    set k: nat | k < |parts| && parts[k].hits == []
  }

  ghost predicate LeftOver(parts: seq<Part>, fragments: seq<string>, unmatched: seq<string>) {
    exists picked: seq<nat> :: Picks(picked, Missing(parts)) && Picked(picked, fragments, unmatched)
  }

  ghost predicate Picked(picked: seq<nat>, fragments: seq<string>, unmatched: seq<string>) {
    && |unmatched| == |picked|
    && forall j :: 0 <= j < |picked| ==> picked[j] < |fragments| && unmatched[j] == fragments[picked[j]]
  }

  /** Fragment after fragment, each with the values it sees: all emissions and hits in order, and the
      fragments without a hit. */
  ghost predicate StageDone(o: Oracle, rules: seq<Rule>, fragments: seq<string>, source: string, params: Params,
                            emitted: seq<Value>, hits: seq<string>, unmatched: seq<string>) {
    exists parts ::
      && PartsDone(o, rules, fragments, source, params, parts) && LeftOver(parts, fragments, unmatched)
      && emitted == Concat(Emitted(parts)) && hits == Concat(HitsOf(parts))
  }

  lemma {:induction false} StageMeaning(
      o: Oracle, rules: seq<Rule>, fragments: seq<string>, source: string, params: Params)
    ensures StageDone(o, rules, fragments, source, params, StageEmissions(o, rules, fragments, source, params),
                      StageHits(o, rules, fragments), Unmatched(o, rules, fragments))
  {
    var parts := StageParts(o, rules, fragments, source, params);
  }

  lemma {:induction false} StageParts(
      o: Oracle, rules: seq<Rule>, fragments: seq<string>, source: string, params: Params)
    returns (parts: seq<Part>)
    ensures PartsDone(o, rules, fragments, source, params, parts)
    ensures LeftOver(parts, fragments, Unmatched(o, rules, fragments))
    ensures Concat(Emitted(parts)) == StageEmissions(o, rules, fragments, source, params)
    ensures Concat(HitsOf(parts)) == StageHits(o, rules, fragments)
    decreases |fragments|
  {
    if |fragments| == 0 {
      parts := [];
      var none: seq<nat> := [];
      assert Picks(none, Missing(parts)) && Picked(none, fragments, []);
    } else {
      var front, f := fragments[..|fragments| - 1], fragments[|fragments| - 1];
      assert fragments == front + [f];
      var before := StageParts(o, rules, front, source, params);
      var part := PartFor(o, rules, f, source, params);
      StageEmissionsSnoc(o, rules, front, f, source, params);
      StageHitsSnoc(o, rules, front, f);
      ConcatMore(before, part);
      LeftOverMore(before, part, front, f, Unmatched(o, rules, front));
      parts := before + [part];
    }
  }

  lemma {:induction false} PartFor(o: Oracle, rules: seq<Rule>, f: string, source: string, params: Params)
    returns (part: Part)
    ensures SeesOwn(part.local, f, source, params)
    ensures FragmentDone(o, rules, f, part.local, part.emitted, part.hits)
    ensures part.emitted == Emissions(o, rules, f, LocalParams(f, source, params)) && part.hits == Hits(o, rules, f)
  {
    var local := LocalParams(f, source, params);
    part := Part(local, Emissions(o, rules, f, local), Hits(o, rules, f));
    LocalSees(f, source, params);
    FragmentMeaning(o, rules, f, local);
  }

  lemma ConcatMore(parts: seq<Part>, part: Part)
    ensures Concat(Emitted(parts + [part])) == Concat(Emitted(parts)) + part.emitted
    ensures Concat(HitsOf(parts + [part])) == Concat(HitsOf(parts)) + part.hits
  {
    var all := parts + [part];
    assert Emitted(all)[..|parts|] == Emitted(parts) && HitsOf(all)[..|parts|] == HitsOf(parts);
  }

  lemma LeftOverMore(parts: seq<Part>, part: Part, fragments: seq<string>, f: string, unmatched: seq<string>)
    requires |parts| == |fragments| && LeftOver(parts, fragments, unmatched)
    ensures LeftOver(parts + [part], fragments + [f], unmatched + (if part.hits == [] then [f] else []))
  {
    var picked: seq<nat> :| Picks(picked, Missing(parts)) && Picked(picked, fragments, unmatched);
    MissingMore(parts, part);
    if part.hits == [] {
      PicksOneMore(picked, Missing(parts), |parts|);
      assert Picked(picked + [|parts|], fragments + [f], unmatched + [f]);
    } else {
      assert Picked(picked, fragments + [f], unmatched + []);
    }
  }

  lemma MissingMore(parts: seq<Part>, part: Part)
    ensures Missing(parts + [part]) == Missing(parts) + if part.hits == [] then {|parts|} else {}
  {
    assert forall k :: 0 <= k < |parts| ==> (parts + [part])[k] == parts[k];
  }

  /** A whole stage is one merge of the payload with the combined emissions, provided payload
      and emissions agree on kinds; and whatever the rules emit, no scalar, list prefix or
      key of the payload is ever lost. */
  lemma StageIsOneMerge(o: Oracle, rules: seq<Rule>, fragments: seq<string>, payload: Value, params: Params,
                        source: string)
    requires Agreeing(payload, StageEmissions(o, rules, fragments, source, params))
    ensures var es := StageEmissions(o, rules, fragments, source, params);
      Fold(false, payload, es) == DeepMerge(false, payload, Fold(false, EMPTY_DICT, es))
  {
    FoldIsOneMerge(payload, StageEmissions(o, rules, fragments, source, params));
  }

  lemma StagePreserves(o: Oracle, rules: seq<Rule>, fragments: seq<string>, payload: Value, params: Params,
                       source: string, path: seq<string>)
    requires payload.Dict? && |path| > 0 && Lookup(payload, path).Some?
    ensures var out := Fold(false, payload, StageEmissions(o, rules, fragments, source, params));
      Lookup(out, path).Some? && Preserves(Lookup(payload, path).value, Lookup(out, path).value)
  {
    FoldPreserves(payload, StageEmissions(o, rules, fragments, source, params), path);
  }
}
