// MinimaxHeuristicAgent.minimax / minimax_depth: minimax cut off at a ply
// limit, where non-full positions are scored by the evaluation heuristic.

module Heuristic {
  import opened GameTree
  import ExactSearch
  import Evaluator

  /**
   * The depth-limited value: a full board is worth its utility at any depth;
   * otherwise, with plies left, the max / min of the successors searched one
   * ply shallower, and with none left the heuristic score.
   */
  function DepthValue(s: State, d: int): (r: Ext)
    decreases s, 1
  {
    if d > 0 then
      if s.full then Fin(s.util) else Best(s.next, DepthChildValues(s, d - 1, |s.succs|))
    else
      if s.full then Fin(s.util) else Fin(Evaluator.Score(s))
  }

  /** The depth-d values of the first k successors of s, in successor order. */
  function DepthChildValues(s: State, d: int, k: nat): (vs: seq<Ext>)
    requires k <= |s.succs|
    ensures |vs| == k
    decreases s, 0, k
  {
    if k == 0 then [] else DepthChildValues(s, d, k - 1) + [DepthValue(s.succs[k - 1].child, d)]
  }

  /** Entry i of the list is successor i's depth-d value. */
  lemma {:induction false} DepthChildValuesAt(s: State, d: int, k: nat, i: nat)
    requires i < k <= |s.succs|
    ensures DepthChildValues(s, d, k)[i] == DepthValue(s.succs[i].child, d)
  {
    if i < k - 1 {
      DepthChildValuesAt(s, d, k - 1, i);
    }
  }

  /** Folding in successor i's depth-d value extends the max fold over the first i successors. */
  lemma MaxOfDepthChildValuesSnoc(s: State, d: int, i: nat)
    requires i < |s.succs|
    ensures MaxOf(DepthChildValues(s, d, i + 1)) == Max(MaxOf(DepthChildValues(s, d, i)), DepthValue(s.succs[i].child, d))
  {
    MaxOfSnoc(DepthChildValues(s, d, i), DepthValue(s.succs[i].child, d));
  }

  /** Folding in successor i's depth-d value extends the min fold over the first i successors. */
  lemma MinOfDepthChildValuesSnoc(s: State, d: int, i: nat)
    requires i < |s.succs|
    ensures MinOf(DepthChildValues(s, d, i + 1)) == Min(MinOf(DepthChildValues(s, d, i)), DepthValue(s.succs[i].child, d))
  {
    MinOfSnoc(DepthChildValues(s, d, i), DepthValue(s.succs[i].child, d));
  }

  /** minimax_depth (agents.py:110-133). */
  method MinimaxDepth(s: State, depth: int) returns (v: Ext)
    ensures v == DepthValue(s, depth)
    decreases s
  {
    if depth > 0 {
      if s.full {
        return Fin(s.util);
      }
      assert DepthValue(s, depth) == Best(s.next, DepthChildValues(s, depth - 1, |s.succs|));
      if s.next == 1 {
        v := NegInf;
        for i := 0 to |s.succs|
          invariant v == MaxOf(DepthChildValues(s, depth - 1, i))
        {
          var util := MinimaxDepth(s.succs[i].child, depth - 1);
          MaxOfDepthChildValuesSnoc(s, depth - 1, i);
          v := Max(v, util);
        }
      } else {
        v := PosInf;
        for i := 0 to |s.succs|
          invariant v == MinOf(DepthChildValues(s, depth - 1, i))
        {
          var util := MinimaxDepth(s.succs[i].child, depth - 1);
          MinOfDepthChildValuesSnoc(s, depth - 1, i);
          v := Min(v, util);
        }
      }
    } else {
      if s.full {
        return Fin(s.util);
      } else {
        var score := Evaluator.Evaluation(s);
        return Fin(score);
      }
    }
  }

  /**
   * A full board is worth its utility whatever the depth; with no plies left a
   * non-full position is worth its heuristic score, and no successor is looked at.
   */
  lemma DepthCutOff(s: State, d: int)
    ensures s.full ==> DepthValue(s, d) == Fin(s.util)
    ensures !s.full && d <= 0 ==> DepthValue(s, d) == Fin(Evaluator.Score(s))
    ensures !s.full && d <= 0 ==> forall succs :: DepthValue(s.(succs := succs), d) == DepthValue(s, d)
  {
  }

  /** The number of plies below s: 0 at a full board, else one more than its highest child. */
  function Height(s: State): (r: nat)
    decreases s, 1
  {
    if s.full then 0 else 1 + MaxHeight(s, |s.succs|)
  }

  /** The greatest height among the first k successors of s (0 when k is 0). */
  function MaxHeight(s: State, k: nat): (h: nat)
    requires k <= |s.succs|
    ensures forall i :: 0 <= i < k ==> Height(s.succs[i].child) <= h
    decreases s, 0, k
  {
    if k == 0 then 0
    else
      var h := Height(s.succs[k - 1].child);
      var rest := MaxHeight(s, k - 1);
      if h < rest then rest else h
  }

  /**
   * With at least as many plies as the tree below s is high, the cut-off is
   * never reached at a non-full position: the depth-limited value is the exact
   * minimax value.
   */
  lemma {:induction false} DepthBeyondHeight(s: State, d: int)
    requires d >= Height(s)
    ensures DepthValue(s, d) == ExactSearch.MinimaxValue(s)
    decreases s
  {
    if !s.full {
      var n := |s.succs|;
      var dv, ev := DepthChildValues(s, d - 1, n), ExactSearch.ChildValues(s, n);
      forall i | 0 <= i < n
        ensures dv[i] == ev[i]
      {
        assert Height(s.succs[i].child) <= d - 1;
        DepthBeyondHeight(s.succs[i].child, d - 1);
        DepthChildValuesAt(s, d - 1, n, i);
        ExactSearch.ChildValuesAt(s, n, i);
      }
      assert dv == ev;
    }
  }

  /** What MinimaxHeuristicAgent.minimax actually does: a value, or the TypeError it raises. */
  datatype Outcome = Value(v: Ext) | TypeError

  /**
   * MinimaxHeuristicAgent.minimax as written (agents.py:105-108): with no
   * depth limit it calls MinimaxAgent.minimax(state) on the class, so `state`
   * is taken as `self`, the state argument is missing and the call fails.
   */
  method MinimaxAsWritten(depthLimit: Option<int>, s: State) returns (r: Outcome)
    ensures depthLimit.None? ==> r == TypeError
    ensures depthLimit.Some? ==> r == Value(DepthValue(s, depthLimit.value))
  {
    if depthLimit == None {
      return TypeError;
    } else {
      var v := MinimaxDepth(s, depthLimit.value);
      return Value(v);
    }
  }

  /** The value MinimaxHeuristicAgent.minimax is documented to return (agents.py:88-98). */
  function LimitedValue(depthLimit: Option<int>, s: State): (r: Ext) {
    match depthLimit
    case None => ExactSearch.MinimaxValue(s)
    case Some(d) => DepthValue(s, d)
  }

  /**
   * MinimaxHeuristicAgent.minimax as documented: with no depth limit the whole
   * tree is searched, giving the exact value; a depth limit of 0 only
   * evaluates a non-full position.
   */
  method Minimax(depthLimit: Option<int>, s: State) returns (v: Ext)
    ensures v == LimitedValue(depthLimit, s)
    ensures depthLimit.None? ==> v == ExactSearch.MinimaxValue(s)
    ensures depthLimit == Some(0) && !s.full ==> v == Fin(Evaluator.Score(s))
  {
    if depthLimit == None {
      v := ExactSearch.Minimax(s);
    } else {
      v := MinimaxDepth(s, depthLimit.value);
    }
  }

  /**
   * The documented agent without a depth limit searches the whole tree, and so
   * agrees with the agent given any limit at least the height of the tree;
   * this is the value the as-written agent fails to return.
   */
  lemma NoLimitMeansFullDepth(s: State)
    ensures var r := ExactSearch.MinimaxValue(s);
      LimitedValue(None, s) == r && (forall d :: d >= Height(s) ==> LimitedValue(Some(d), s) == r)
  {
    forall d | d >= Height(s)
      ensures LimitedValue(Some(d), s) == ExactSearch.MinimaxValue(s)
    {
      DepthBeyondHeight(s, d);
    }
  }
}
