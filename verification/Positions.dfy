/** Positions in a list, in increasing order: how a selection of its elements is described. */
module Positions {

  predicate Ascending(at: seq<nat>, n: nat) {
    (forall i | 0 <= i < |at| :: at[i] < n) && (forall i, j | 0 <= i < j < |at| :: at[i] < at[j])
  }

  lemma Below(at: seq<nat>, n: nat, i: nat)
    requires Ascending(at, n) && i < |at|
    ensures at[i] < n
  {}

  /** The positions, and n behind them if it is selected too. */
  function Extended(at: seq<nat>, n: nat, selected: bool): seq<nat> {
    if selected then at + [n] else at
  }

  lemma ExtendedHas(at: seq<nat>, n: nat, selected: bool)
    requires Ascending(at, n)
    ensures Ascending(Extended(at, n, selected), n + 1)
    ensures |Extended(at, n, selected)| == |at| + if selected then 1 else 0
    ensures forall i | 0 <= i < |at| :: Extended(at, n, selected)[i] == at[i]
    ensures selected ==> Extended(at, n, selected)[|at|] == n
    ensures forall k: nat | k < n :: k in Extended(at, n, selected) <==> k in at
    ensures n in Extended(at, n, selected) <==> selected
  {
    if selected {
      assert (at + [n])[|at|] == n;
    }
  }
}
