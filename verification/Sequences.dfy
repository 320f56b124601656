/** Facts about sequences that Dafny does not volunteer. */
module Sequences {
  lemma TakeOneMore<T>(s: seq<T>, i: nat)
    requires i < |s|
    ensures s[..i + 1] == s[..i] + [s[i]]
  {}

  lemma Reassociate<T>(a: seq<T>, b: seq<T>, c: seq<T>)
    ensures (a + b) + c == a + (b + c)
  {}

  /** `picked` lists the chosen numbers in ascending order. */
  ghost predicate Picks(picked: seq<nat>, chosen: set<nat>) {
    && (forall i, j :: 0 <= i < j < |picked| ==> picked[i] < picked[j])
    && (forall k :: k in picked <==> k in chosen)
  }

  lemma PicksOneMore(picked: seq<nat>, chosen: set<nat>, n: nat)
    requires Picks(picked, chosen) && forall k :: k in chosen ==> k < n
    ensures Picks(picked + [n], chosen + {n})
  {
    assert forall i :: 0 <= i < |picked| ==> picked[i] in picked;
  }
}
