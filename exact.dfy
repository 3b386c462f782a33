// MinimaxAgent.minimax and its verbatim copy OtherMinimaxHeuristicAgent.minimax:
// the exact minimax value of a position.

module ExactSearch {
  import opened GameTree

  /**
   * The exact minimax value: the utility of a full board, otherwise the
   * max (player +1) or min (player -1) of the successors' values, folded in
   * successor order from the sentinel -inf / +inf.
   */
  function MinimaxValue(s: State): (r: Ext)
    decreases s, 1
  {
    if s.full then Fin(s.util) else Best(s.next, ChildValues(s, |s.succs|))
  }

  /** The minimax values of the first k successors of s, in successor order. */
  function ChildValues(s: State, k: nat): (vs: seq<Ext>)
    requires k <= |s.succs|
    ensures |vs| == k
    decreases s, 0, k
  {
    if k == 0 then [] else ChildValues(s, k - 1) + [MinimaxValue(s.succs[k - 1].child)]
  }

  /** Entry i of the list is successor i's minimax value. */
  lemma {:induction false} ChildValuesAt(s: State, k: nat, i: nat)
    requires i < k <= |s.succs|
    ensures ChildValues(s, k)[i] == MinimaxValue(s.succs[i].child)
  {
    if i < k - 1 {
      ChildValuesAt(s, k - 1, i);
    }
  }

  /** Folding in successor i's value extends the max fold over the first i successors. */
  lemma MaxOfChildValuesSnoc(s: State, i: nat)
    requires i < |s.succs|
    ensures MaxOf(ChildValues(s, i + 1)) == Max(MaxOf(ChildValues(s, i)), MinimaxValue(s.succs[i].child))
  {
    MaxOfSnoc(ChildValues(s, i), MinimaxValue(s.succs[i].child));
  }

  /** Folding in successor i's value extends the min fold over the first i successors. */
  lemma MinOfChildValuesSnoc(s: State, i: nat)
    requires i < |s.succs|
    ensures MinOf(ChildValues(s, i + 1)) == Min(MinOf(ChildValues(s, i)), MinimaxValue(s.succs[i].child))
  {
    MinOfSnoc(ChildValues(s, i), MinimaxValue(s.succs[i].child));
  }

  /**
   * What a non-full node's value means: for player +1 it is at least every
   * child's value and is one of them (-inf when there are none); for player -1
   * it is at most every child's value and is one of them (+inf when none).
   */
  lemma MinimaxIsOptimal(s: State)
    requires !s.full
    ensures s.next == 1 ==> forall i :: 0 <= i < |s.succs| ==> Le(MinimaxValue(s.succs[i].child), MinimaxValue(s))
    ensures s.next == -1 ==> forall i :: 0 <= i < |s.succs| ==> Le(MinimaxValue(s), MinimaxValue(s.succs[i].child))
    ensures s.succs == [] ==> MinimaxValue(s) == (if s.next == 1 then NegInf else PosInf)
    ensures s.succs != [] ==> exists i :: 0 <= i < |s.succs| && MinimaxValue(s) == MinimaxValue(s.succs[i].child)
  {
    var n := |s.succs|;
    var vs := ChildValues(s, n);
    MaxOfIsMax(vs);
    MinOfIsMin(vs);
    forall i | 0 <= i < n
      ensures vs[i] == MinimaxValue(s.succs[i].child)
    {
      ChildValuesAt(s, n, i);
    }
    if s.succs != [] {
      var i :| 0 <= i < n && vs[i] == MinimaxValue(s);
    }
  }

  /** MinimaxAgent.minimax (agents.py:53-77). */
  method Minimax(s: State) returns (v: Ext)
    ensures v == MinimaxValue(s)
    decreases s
  {
    if s.full {
      return Fin(s.util);
    }
    if s.next == 1 {
      v := NegInf;
      for i := 0 to |s.succs|
        invariant v == MaxOf(ChildValues(s, i))
      {
        var util := Minimax(s.succs[i].child);
        MaxOfChildValuesSnoc(s, i);
        v := Max(v, util);
      }
    } else {
      v := PosInf;
      for i := 0 to |s.succs|
        invariant v == MinOf(ChildValues(s, i))
      {
        var util := Minimax(s.succs[i].child);
        MinOfChildValuesSnoc(s, i);
        v := Min(v, util);
      }
    }
  }

  /**
   * OtherMinimaxHeuristicAgent.minimax (agents.py:296-320), a line-for-line
   * copy of MinimaxAgent.minimax that recurses into itself: it computes the
   * same exact value.
   */
  method OtherMinimax(s: State) returns (v: Ext)
    ensures v == MinimaxValue(s)
    decreases s
  {
    if s.full {
      return Fin(s.util);
    }
    if s.next == 1 {
      v := NegInf;
      for i := 0 to |s.succs|
        invariant v == MaxOf(ChildValues(s, i))
      {
        var util := OtherMinimax(s.succs[i].child);
        MaxOfChildValuesSnoc(s, i);
        v := Max(v, util);
      }
    } else {
      v := PosInf;
      for i := 0 to |s.succs|
        invariant v == MinOf(ChildValues(s, i))
      {
        var util := OtherMinimax(s.succs[i].child);
        MinOfChildValuesSnoc(s, i);
        v := Min(v, util);
      }
    }
  }
}
