/** The treatment filter of `experiment/cross_validation.py`: a search explores action
    prefixes, and the adapter narrows what each node offers. */
module Treatment {
  import opened Sequences

  /** An action, its card references reduced to public card ids. */
  datatype Action = Action(id: string, activatesEffect: bool, cards: seq<int>)

  datatype Frontier = Frontier(legalStop: bool, actions: seq<Action>)

  datatype Treatment = Baseline | Interrupted

  /** The delegate: what the core offers after a prefix. */
  type Core = seq<Action> -> Frontier

  /** `_specified_activation` */
  predicate Specified(source: int, a: Action) {
    a.activatesEffect && source in a.cards
  }

  function Select(keep: bool, source: int, actions: seq<Action>): (r: seq<Action>)
    ensures forall a :: a in r <==> a in actions && Specified(source, a) == keep
  {
    if |actions| == 0 then []
    else
      var rest := Select(keep, source, actions[1..]);
      assert actions == [actions[0]] + actions[1..];
      if Specified(source, actions[0]) == keep then [actions[0]] + rest else rest
  }

  predicate ContainsSpecified(source: int, actions: seq<Action>) {
    exists i :: 0 <= i < |actions| && Specified(source, actions[i])
  }

  /** `_TreatmentFrontierAdapter.replay` */
  function Replay(t: Treatment, source: int, core: Core, prefix: seq<Action>): Frontier {
    var f := core(prefix);
    if f.legalStop && |f.actions| > 0 then f.(actions := [])
    else if t.Baseline? then f.(actions := Select(false, source, f.actions))
    else if |Select(true, source, f.actions)| > 0 && !ContainsSpecified(source, prefix) then
      f.(actions := Select(true, source, f.actions))
    else f
  }

  // ----- what is offered -----

  ghost function Chosen(keep: bool, source: int, actions: seq<Action>): set<nat> {
    set i: nat | i < |actions| && (actions[i].activatesEffect && source in actions[i].cards) == keep
  }

  /** The chosen actions, in the core's order. */
  ghost predicate Selected(r: seq<Action>, keep: bool, source: int, actions: seq<Action>) {
    exists picked :: SelectedBy(picked, r, keep, source, actions)
  }

  ghost predicate SelectedBy(picked: seq<nat>, r: seq<Action>, keep: bool, source: int, actions: seq<Action>) {
    && Picks(picked, Chosen(keep, source, actions)) && |r| == |picked|
    && forall j :: 0 <= j < |picked| ==> picked[j] < |actions| && r[j] == actions[picked[j]]
  }

  lemma {:induction false} SelectLast(keep: bool, source: int, front: seq<Action>, last: Action)
    ensures Select(keep, source, front + [last])
         == Select(keep, source, front) + if Specified(source, last) == keep then [last] else []
  {
    var actions := front + [last];
    if |front| > 0 {
      SelectLast(keep, source, front[1..], last);
      assert actions[1..] == front[1..] + [last];
    } else {
      assert actions[1..] == [];
    }
  }

  lemma {:induction false} SelectMeaning(keep: bool, source: int, actions: seq<Action>) returns (picked: seq<nat>)
    ensures SelectedBy(picked, Select(keep, source, actions), keep, source, actions)
    decreases |actions|
  {
    if |actions| == 0 {
      picked := [];
    } else {
      var n := |actions| - 1;
      var before := SelectMeaning(keep, source, actions[..n]);
      SelectLast(keep, source, actions[..n], actions[n]);
      assert actions == actions[..n] + [actions[n]];
      SelectedMore(before, Select(keep, source, actions[..n]), keep, source, actions);
      picked := before + if Specified(source, actions[n]) == keep then [n] else [];
    }
  }

  lemma SelectedMore(picked: seq<nat>, r: seq<Action>, keep: bool, source: int, actions: seq<Action>)
    requires |actions| > 0 && SelectedBy(picked, r, keep, source, actions[..|actions| - 1])
    ensures var n := |actions| - 1;
      if Specified(source, actions[n]) == keep then SelectedBy(picked + [n], r + [actions[n]], keep, source, actions)
      else SelectedBy(picked, r, keep, source, actions)
  {
    var n := |actions| - 1;
    ChosenLast(keep, source, actions);
    if Specified(source, actions[n]) == keep { PicksOneMore(picked, Chosen(keep, source, actions[..n]), n); }
  }

  lemma ChosenLast(keep: bool, source: int, actions: seq<Action>)
    requires |actions| > 0
    ensures var n := |actions| - 1;
      Chosen(keep, source, actions)
      == Chosen(keep, source, actions[..n]) + if Specified(source, actions[n]) == keep then {n} else {}
  {
  }

  /** A legal stop offers nothing. Elsewhere the baseline drops the activation, and the interrupted
      treatment offers it alone until it has been taken. */
  ghost predicate Offered(t: Treatment, source: int, core: Core, prefix: seq<Action>, r: Frontier) {
    var f := core(prefix);
    var pending := ContainsSpecified(source, f.actions) && !ContainsSpecified(source, prefix);
    && r.legalStop == f.legalStop
    && (f.legalStop ==> r.actions == [])
    && (!f.legalStop && t == Baseline ==> Selected(r.actions, false, source, f.actions))
    && (!f.legalStop && t == Interrupted ==>
          if pending then Selected(r.actions, true, source, f.actions) else r.actions == f.actions)
  }

  lemma ReplayMeaning(t: Treatment, source: int, core: Core, prefix: seq<Action>)
    ensures Offered(t, source, core, prefix, Replay(t, source, core, prefix))
  {
    var actions := core(prefix).actions;
    var others := SelectMeaning(false, source, actions);
    var specified := SelectMeaning(true, source, actions);
    OffersSelect(source, actions);
  }

  // ----- which prefixes a search can reach -----

  /** A search extends a prefix only with an action the adapter offers there. */
  ghost predicate Reachable(t: Treatment, source: int, core: Core, prefix: seq<Action>) {
    |prefix| == 0
    || (var front := prefix[..|prefix| - 1];
        Reachable(t, source, core, front) && prefix[|prefix| - 1] in Replay(t, source, core, front).actions)
  }

  /** Every action of the prefix was offered by the core itself, never at a legal stop. */
  ghost predicate Playable(core: Core, prefix: seq<Action>) {
    forall k {:trigger prefix[..k]} :: 0 <= k < |prefix| ==>
      !core(prefix[..k]).legalStop && prefix[k] in core(prefix[..k]).actions
  }

  /** The core offers the specified activation after the first `k` actions. */
  ghost predicate Offers(source: int, core: Core, prefix: seq<Action>, k: nat)
    requires k <= |prefix|
  {
    ContainsSpecified(source, core(prefix[..k]).actions)
  }

  /** The core offers it there and it has not been taken before. */
  ghost predicate FirstOffer(source: int, core: Core, prefix: seq<Action>, k: nat)
    requires k <= |prefix|
  {
    Offers(source, core, prefix, k) && forall j :: 0 <= j < k ==> !Specified(source, prefix[j])
  }

  /** If the activation is offered before the end, it is taken the first time it is. */
  ghost predicate TakesFirstOffer(source: int, core: Core, prefix: seq<Action>) {
    forall k :: 0 <= k < |prefix| && FirstOffer(source, core, prefix, k) ==> Specified(source, prefix[k])
  }

  lemma OffersSelect(source: int, actions: seq<Action>)
    ensures ContainsSpecified(source, actions) <==> |Select(true, source, actions)| > 0
  {
    if ContainsSpecified(source, actions) {
      var i :| 0 <= i < |actions| && Specified(source, actions[i]);
      assert actions[i] in Select(true, source, actions);
    }
    if |Select(true, source, actions)| > 0 {
      var a := Select(true, source, actions)[0];
      assert a in Select(true, source, actions);
      var i :| 0 <= i < |actions| && actions[i] == a;
    }
  }

  lemma PlayableFront(core: Core, prefix: seq<Action>)
    requires |prefix| > 0
    ensures var front := prefix[..|prefix| - 1];
      Playable(core, prefix) <==>
        Playable(core, front) && !core(front).legalStop && prefix[|prefix| - 1] in core(front).actions
  {
    var front := prefix[..|prefix| - 1];
    assert forall k :: 0 <= k < |front| ==> front[..k] == prefix[..k];
    if Playable(core, front) && !core(front).legalStop && prefix[|prefix| - 1] in core(front).actions {
      forall k {:trigger prefix[..k]} | 0 <= k < |prefix|
        ensures !core(prefix[..k]).legalStop && prefix[k] in core(prefix[..k]).actions
      {
        if k < |front| { assert front[..k] == prefix[..k]; }
      }
    }
  }

  /** Baseline searches reach exactly the playable prefixes without the specified activation:
      nothing else is cut off. */
  lemma {:induction false} BaselineReach(source: int, core: Core, prefix: seq<Action>)
    ensures Reachable(Baseline, source, core, prefix) <==>
      Playable(core, prefix) && !ContainsSpecified(source, prefix)
    decreases |prefix|
  {
    if |prefix| > 0 {
      var front, last := prefix[..|prefix| - 1], prefix[|prefix| - 1];
      BaselineReach(source, core, front);
      PlayableFront(core, prefix);
      assert prefix == front + [last];
      assert ContainsSpecified(source, prefix) <==> ContainsSpecified(source, front) || Specified(source, last);
    }
  }

  lemma TakesFirstOfferFront(source: int, core: Core, prefix: seq<Action>)
    requires |prefix| > 0
    ensures var front, last := prefix[..|prefix| - 1], prefix[|prefix| - 1];
      TakesFirstOffer(source, core, prefix) <==>
        && TakesFirstOffer(source, core, front)
        && (ContainsSpecified(source, core(front).actions) && !ContainsSpecified(source, front)
            ==> Specified(source, last))
  {
    var n := |prefix| - 1;
    var front := prefix[..n];
    assert forall k :: 0 <= k < n ==> front[..k] == prefix[..k] && front[k] == prefix[k];
    assert forall k :: 0 <= k < n ==> (FirstOffer(source, core, front, k) <==> FirstOffer(source, core, prefix, k));
    assert Offers(source, core, prefix, n) <==> ContainsSpecified(source, core(front).actions);
  }

  /** Interrupted searches reach exactly the playable prefixes that take the specified
      activation the first time it is offered. */
  lemma {:induction false} InterruptedReach(source: int, core: Core, prefix: seq<Action>)
    ensures Reachable(Interrupted, source, core, prefix) <==>
      Playable(core, prefix) && TakesFirstOffer(source, core, prefix)
    decreases |prefix|
  {
    if |prefix| > 0 {
      var front, last := prefix[..|prefix| - 1], prefix[|prefix| - 1];
      InterruptedReach(source, core, front);
      PlayableFront(core, prefix);
      TakesFirstOfferFront(source, core, prefix);
      OffersSelect(source, core(front).actions);
    }
  }

  /** No search of either treatment ever continues past a legal stop. */
  lemma NeverPastLegalStop(t: Treatment, source: int, core: Core, prefix: seq<Action>, k: nat)
    requires Reachable(t, source, core, prefix) && k < |prefix|
    ensures !core(prefix[..k]).legalStop
  {
    if t.Baseline? { BaselineReach(source, core, prefix); } else { InterruptedReach(source, core, prefix); }
  }

  /** A core that never stops and always offers just `a`. */
  function Only(a: Action): Core {
    (prefix: seq<Action>) => Frontier(false, [a])
  }

  /** The filter forces the first activation only: afterwards the core's own offers stand, so a
      second specified activation can follow. */
  lemma SecondActivationAllowed(source: int, a: Action)
    requires Specified(source, a)
    ensures Reachable(Interrupted, source, Only(a), [a, a])
  {
    var core, p := Only(a), [a, a];
    InterruptedReach(source, core, p);
    forall k {:trigger p[..k]} | 0 <= k < |p|
      ensures !core(p[..k]).legalStop && p[k] in core(p[..k]).actions
    {
      assert core(p[..k]) == Frontier(false, [a]);
    }
  }
}
