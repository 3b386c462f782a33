// The minimax agent classes and the move selection they share.
//
// MinimaxAgent.get_move (agents.py:38-51), inherited by the heuristic and the
// pruning agent and copied verbatim into OtherMinimaxHeuristicAgent
// (agents.py:281-294), scores every successor with the agent's own minimax and
// keeps the first successor whose score is strictly better than the best so far.

module Agents {
  import opened GameTree
  import ExactSearch
  import Heuristic
  import Pruning

  /** The four search agents; the two heuristic ones carry their depth_limit. */
  datatype Agent =
    | Exact                                        // MinimaxAgent
    | DepthLimited(depthLimit: Option<int>)        // MinimaxHeuristicAgent
    | Prune                                        // MinimaxPruneAgent
    | OtherDepthLimited(depthLimit: Option<int>)   // OtherMinimaxHeuristicAgent (limit unused)

  /**
   * The value self.minimax(s) returns for each agent. A heuristic agent without
   * a depth limit searches the whole tree, as documented; the code as written
   * raises TypeError there instead (Heuristic.MinimaxAsWritten).
   */
  function AgentValue(agent: Agent, s: State): (r: Ext) {
    match agent
    case Exact => ExactSearch.MinimaxValue(s)
    case DepthLimited(limit) => Heuristic.LimitedValue(limit, s)
    case Prune => Pruning.AlphaBetaValue(s, NegInf, PosInf)
    case OtherDepthLimited(_) => ExactSearch.MinimaxValue(s)
  }

  /** self.minimax(s): the agent's own search, with the documented no-limit heuristic agent. */
  method AgentMinimax(agent: Agent, s: State) returns (v: Ext)
    ensures v == AgentValue(agent, s)
  {
    match agent
    case Exact => v := ExactSearch.Minimax(s);
    case DepthLimited(limit) => v := Heuristic.Minimax(limit, s);
    case Prune => v := Pruning.Minimax(s);
    case OtherDepthLimited(_) => v := ExactSearch.OtherMinimax(s);
  }

  /** The agent's values of the first k successors of s, in successor order. */
  function AgentValues(agent: Agent, s: State, k: nat): (vs: seq<Ext>)
    requires k <= |s.succs|
    ensures |vs| == k
  {
    if k == 0 then [] else AgentValues(agent, s, k - 1) + [AgentValue(agent, s.succs[k - 1].child)]
  }

  /** Entry i of the list is successor i's value. */
  lemma {:induction false} AgentValuesAt(agent: Agent, s: State, k: nat, i: nat)
    requires i < k <= |s.succs|
    ensures AgentValues(agent, s, k)[i] == AgentValue(agent, s.succs[i].child)
  {
    if i < k - 1 {
      AgentValuesAt(agent, s, k - 1, i);
    }
  }

  // ---------------------------------------------------------------------------
  // The selection loop on values.

  /** best_util's starting value: -inf for player +1, +inf for player -1. */
  function Sentinel(p: Player): (r: Ext) {
    if p == 1 then NegInf else PosInf
  }

  /** The test that replaces the best so far: util strictly better than best for player p. */
  predicate Better(p: Player, util: Ext, best: Ext) {
    (p == 1 && Lt(best, util)) || (p == -1 && Lt(util, best))
  }

  /** best_util and the position of the kept successor (None while nothing has been kept). */
  datatype Choice = Choice(util: Ext, index: Option<nat>)

  /** The selection loop over a list of values, left to right. */
  function Pick(p: Player, vs: seq<Ext>): (c: Choice)
    ensures c.index.Some? ==> c.index.value < |vs|
  {
    if vs == [] then Choice(Sentinel(p), None)
    else
      var c := Pick(p, vs[..|vs| - 1]);
      if Better(p, vs[|vs| - 1], c.util) then Choice(vs[|vs| - 1], Some(|vs| - 1)) else c
  }

  lemma PickSnoc(p: Player, vs: seq<Ext>, x: Ext)
    ensures Pick(p, vs + [x]) == if Better(p, x, Pick(p, vs).util) then Choice(x, Some(|vs|)) else Pick(p, vs)
  {
    assert (vs + [x])[..|vs|] == vs;
  }

  /** The selection keeps the best value: the max for player +1, the min for -1. */
  lemma {:induction false} PickIsBest(p: Player, vs: seq<Ext>)
    ensures Pick(p, vs).util == Best(p, vs)
  {
    if vs != [] {
      var init, x := vs[..|vs| - 1], vs[|vs| - 1];
      assert vs == init + [x];
      PickIsBest(p, init);
      if p == 1 {
        MaxOfSnoc(init, x);
      } else {
        MinOfSnoc(init, x);
      }
    }
  }

  /**
   * Nothing is kept exactly when every value is the sentinel (in particular
   * when there are no values); otherwise the kept position holds the best
   * value and is strictly better than every position before it, so it is the
   * first position where the best value occurs.
   */
  lemma {:induction false} PickIsFirstBest(p: Player, vs: seq<Ext>)
    ensures Pick(p, vs).index.None? <==> forall i :: 0 <= i < |vs| ==> vs[i] == Sentinel(p)
    ensures Pick(p, vs).index.Some? ==>
      var k := Pick(p, vs).index.value;
      vs[k] == Best(p, vs) && forall j :: 0 <= j < k ==> Better(p, vs[k], vs[j])
  {
    PickIsBest(p, vs);
    if vs != [] {
      var init, x := vs[..|vs| - 1], vs[|vs| - 1];
      assert vs == init + [x];
      PickIsFirstBest(p, init);
      PickIsBest(p, init);
      var c := Pick(p, init);
      if p == 1 {
        MaxOfIsMax(init);
      } else {
        MinOfIsMin(init);
      }
      if Better(p, x, c.util) {
        forall j | 0 <= j < |init|
          ensures Better(p, x, vs[j])
        {
          assert vs[j] == init[j];
        }
      } else {
        assert forall i :: 0 <= i < |init| ==> vs[i] == init[i];
      }
    }
  }

  // ---------------------------------------------------------------------------
  // get_move.

  /** The successor at the kept position, if any. */
  function ChosenEdge(s: State, c: Choice): (r: Option<Edge>)
    requires c.index.Some? ==> c.index.value < |s.succs|
  {
    match c.index
    case None => None
    case Some(k) => Some(s.succs[k])
  }

  /** The (move, state) pair get_move returns: (None, None) is None. */
  function Choose(agent: Agent, s: State): (r: Option<Edge>) {
    ChosenEdge(s, Pick(s.next, AgentValues(agent, s, |s.succs|)))
  }

  lemma PickAgentValuesSnoc(agent: Agent, s: State, i: nat)
    requires i < |s.succs|
    ensures var c := Pick(s.next, AgentValues(agent, s, i));
      var x := AgentValue(agent, s.succs[i].child);
      Pick(s.next, AgentValues(agent, s, i + 1)) == if Better(s.next, x, c.util) then Choice(x, Some(i)) else c
  {
    PickSnoc(s.next, AgentValues(agent, s, i), AgentValue(agent, s.succs[i].child));
  }

  /** MinimaxAgent.get_move (agents.py:38-51) and its copy (agents.py:281-294). */
  method GetMove(agent: Agent, s: State) returns (best: Option<Edge>)
    ensures best == Choose(agent, s)
  {
    var nextp := s.next;
    var bestUtil := if nextp == 1 then NegInf else PosInf;
    best := None;
    for i := 0 to |s.succs|
      invariant bestUtil == Pick(nextp, AgentValues(agent, s, i)).util
      invariant best == ChosenEdge(s, Pick(nextp, AgentValues(agent, s, i)))
    {
      var util := AgentMinimax(agent, s.succs[i].child);
      PickAgentValuesSnoc(agent, s, i);
      if (nextp == 1 && Lt(bestUtil, util)) || (nextp == -1 && Lt(util, bestUtil)) {
        bestUtil, best := util, Some(s.succs[i]);
      }
    }
  }

  /**
   * get_move returns (None, None) exactly when every successor's value is the
   * sentinel (so always when there are no successors); otherwise it returns a
   * successor of s whose value is the best for the player to move and strictly
   * better than that of every earlier successor.
   */
  lemma ChooseIsFirstOptimal(agent: Agent, s: State)
    ensures Choose(agent, s).None? <==>
      forall i :: 0 <= i < |s.succs| ==> AgentValue(agent, s.succs[i].child) == Sentinel(s.next)
    ensures Choose(agent, s).Some? ==> exists k :: (0 <= k < |s.succs| && Choose(agent, s) == Some(s.succs[k]) &&
      AgentValue(agent, s.succs[k].child) == Best(s.next, AgentValues(agent, s, |s.succs|)) &&
      forall j :: 0 <= j < k ==> Better(s.next, AgentValue(agent, s.succs[k].child), AgentValue(agent, s.succs[j].child)))
  {
    var n := |s.succs|;
    var vs := AgentValues(agent, s, n);
    PickIsFirstBest(s.next, vs);
    forall i | 0 <= i < n
      ensures vs[i] == AgentValue(agent, s.succs[i].child)
    {
      AgentValuesAt(agent, s, n, i);
    }
    var c := Pick(s.next, vs);
    if c.index.Some? {
      var k := c.index.value;
      assert Choose(agent, s) == Some(s.succs[k]);
    }
  }

  // ---------------------------------------------------------------------------
  // The agents compared.

  /**
   * The pruning agent, the copied agent and the documented heuristic agent without a
   * depth limit all compute the exact minimax value, and so does the heuristic
   * agent with a limit at least the height of the tree.
   */
  lemma ExactAgentsAgree(s: State, limit: Option<int>, d: int)
    requires d >= Heuristic.Height(s)
    ensures AgentValue(Prune, s) == AgentValue(Exact, s)
    ensures AgentValue(OtherDepthLimited(limit), s) == AgentValue(Exact, s)
    ensures AgentValue(DepthLimited(None), s) == AgentValue(Exact, s)
    ensures AgentValue(DepthLimited(Some(d)), s) == AgentValue(Exact, s)
  {
    Pruning.FullWindowIsExact(s);
    Heuristic.DepthBeyondHeight(s, d);
  }

  /**
   * With a depth limit at least the height of every successor, all four agents
   * pick the same move (the heuristic agent without a limit as documented).
   */
  lemma AgentsChooseAlike(s: State, limit: Option<int>, d: int)
    requires forall i :: 0 <= i < |s.succs| ==> d >= Heuristic.Height(s.succs[i].child)
    ensures Choose(Prune, s) == Choose(Exact, s)
    ensures Choose(OtherDepthLimited(limit), s) == Choose(Exact, s)
    ensures Choose(DepthLimited(None), s) == Choose(Exact, s)
    ensures Choose(DepthLimited(Some(d)), s) == Choose(Exact, s)
  {
    var n := |s.succs|;
    forall i | 0 <= i < n
      ensures AgentValues(Prune, s, n)[i] == AgentValues(Exact, s, n)[i]
      ensures AgentValues(OtherDepthLimited(limit), s, n)[i] == AgentValues(Exact, s, n)[i]
      ensures AgentValues(DepthLimited(None), s, n)[i] == AgentValues(Exact, s, n)[i]
      ensures AgentValues(DepthLimited(Some(d)), s, n)[i] == AgentValues(Exact, s, n)[i]
    {
      ExactAgentsAgree(s.succs[i].child, limit, d);
      AgentValuesAt(Prune, s, n, i);
      AgentValuesAt(OtherDepthLimited(limit), s, n, i);
      AgentValuesAt(DepthLimited(None), s, n, i);
      AgentValuesAt(DepthLimited(Some(d)), s, n, i);
      AgentValuesAt(Exact, s, n, i);
    }
    assert AgentValues(Prune, s, n) == AgentValues(Exact, s, n);
    assert AgentValues(OtherDepthLimited(limit), s, n) == AgentValues(Exact, s, n);
    assert AgentValues(DepthLimited(None), s, n) == AgentValues(Exact, s, n);
    assert AgentValues(DepthLimited(Some(d)), s, n) == AgentValues(Exact, s, n);
  }

  /**
   * The exact agent's move from a non-full position leads to a successor whose
   * minimax value is the position's own: the move is optimal.
   */
  lemma ExactMoveIsOptimal(s: State)
    requires !s.full
    ensures Choose(Exact, s).Some? ==>
      Choose(Exact, s).value in s.succs &&
      ExactSearch.MinimaxValue(Choose(Exact, s).value.child) == ExactSearch.MinimaxValue(s)
  {
    var n := |s.succs|;
    ChooseIsFirstOptimal(Exact, s);
    forall i | 0 <= i < n
      ensures AgentValues(Exact, s, n)[i] == ExactSearch.ChildValues(s, n)[i]
    {
      AgentValuesAt(Exact, s, n, i);
      ExactSearch.ChildValuesAt(s, n, i);
    }
    assert AgentValues(Exact, s, n) == ExactSearch.ChildValues(s, n);
  }
}
