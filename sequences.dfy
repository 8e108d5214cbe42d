/**
 * Positions of the elements of a sequence that satisfy a test, in
 * increasing order. The controller keeps the downloads that returned
 * content and drops the rest; this is the reference against which the
 * order and multiplicity of the archive entries are stated.
 */
module Sequences {

  /** The indices i of `s` with keep(s[i]), strictly increasing. */
  function Positions<T>(s: seq<T>, keep: T -> bool): (ix: seq<nat>)
    ensures forall k :: 0 <= k < |ix| ==> ix[k] < |s| && keep(s[ix[k]])
    ensures forall k, l :: 0 <= k < l < |ix| ==> ix[k] < ix[l]
    ensures forall i :: 0 <= i < |s| && keep(s[i]) ==> i in ix
    decreases |s|
  {
    if s == [] then []
    else
      var before := Positions(s[..|s| - 1], keep);
      if keep(s[|s| - 1]) then before + [|s| - 1] else before
  }

  /** One step of Positions, spelled out. */
  lemma PositionsStep<T>(s: seq<T>, keep: T -> bool)
    requires s != []
    ensures Positions(s, keep) == Positions(s[..|s| - 1], keep) + (if keep(s[|s| - 1]) then [|s| - 1] else [])
  {
  }

  /**
   * Two sequences of the same length whose elements pass their tests at
   * the same indices have the same positions.
   */
  lemma {:induction false} PositionsAgree<T, U>(s: seq<T>, keep: T -> bool, t: seq<U>, pick: U -> bool)
    requires |s| == |t|
    requires forall i :: 0 <= i < |s| ==> keep(s[i]) == pick(t[i])
    ensures Positions(s, keep) == Positions(t, pick)
    decreases |s|
  {
    if s != [] {
      PositionsAgree(s[..|s| - 1], keep, t[..|t| - 1], pick);
    }
  }

  /** Positions keep the order of the elements they point at. */
  lemma PositionsOrdered<T>(s: seq<T>, keep: T -> bool, k: nat, l: nat)
    requires k < |Positions(s, keep)| && l < |Positions(s, keep)|
    requires Positions(s, keep)[k] < Positions(s, keep)[l]
    ensures k < l
  {
  }

  /** When no element passes the test there are no positions. */
  lemma {:induction false} PositionsNone<T>(s: seq<T>, keep: T -> bool)
    requires forall i :: 0 <= i < |s| ==> !keep(s[i])
    ensures Positions(s, keep) == []
    decreases |s|
  {
    if s != [] {
      PositionsNone(s[..|s| - 1], keep);
    }
  }
}
