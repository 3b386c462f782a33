// MinimaxPruneAgent: minimax with alpha-beta pruning. The maximizing branch
// passes its window down and stops once its value reaches beta; the minimizing
// branch evaluates each child through the agent's own minimax, i.e. with a
// fresh (-inf, +inf) window, and stops once its value falls to alpha.

module Pruning {
  import opened GameTree
  import ExactSearch

  /** alphabeta(s, a, b). */
  function AlphaBetaValue(s: State, a: Ext, b: Ext): (r: Ext)
    decreases s, 2
  {
    if s.full then Fin(s.util)
    else if s.next == 1 then AbMax(s, 0, NegInf, a, b)
    else AbMin(s, 0, PosInf, a, b)
  }

  /** The rest of the maximizing loop from successor i on, with v and alpha as they stand. */
  function AbMax(s: State, i: nat, v: Ext, a: Ext, b: Ext): (r: Ext)
    requires i <= |s.succs|
    decreases s, 1, |s.succs| - i
  {
    if i == |s.succs| then v
    else
      var v' := Max(v, AlphaBetaValue(s.succs[i].child, a, b));
      if Le(b, v') then v' else AbMax(s, i + 1, v', Max(a, v'), b)
  }

  /** The rest of the minimizing loop from successor i on: children get the full window. */
  function AbMin(s: State, i: nat, v: Ext, a: Ext, b: Ext): (r: Ext)
    requires i <= |s.succs|
    decreases s, 1, |s.succs| - i
  {
    if i == |s.succs| then v
    else
      var v' := Min(v, AlphaBetaValue(s.succs[i].child, NegInf, PosInf));
      if Le(v', a) then v' else AbMin(s, i + 1, v', a, Min(b, v'))
  }

  /** MinimaxPruneAgent.minimax (agents.py:221-244): alphabeta with the full window. */
  method Minimax(s: State) returns (v: Ext)
    ensures v == AlphaBetaValue(s, NegInf, PosInf)
    ensures v == ExactSearch.MinimaxValue(s)
    decreases s, 1
  {
    v := AlphaBeta(s, NegInf, PosInf);
    FullWindowIsExact(s);
  }

  /** MinimaxPruneAgent.alphabeta (agents.py:246-271). */
  method AlphaBeta(s: State, alpha: Ext, beta: Ext) returns (v: Ext)
    ensures v == AlphaBetaValue(s, alpha, beta)
    decreases s, 0
  {
    if s.full {
      return Fin(s.util);
    }
    if s.next == 1 {
      v := NegInf;
      var a := alpha;
      for i := 0 to |s.succs|
        invariant AbMax(s, i, v, a, beta) == AlphaBetaValue(s, alpha, beta)
      {
        var util := AlphaBeta(s.succs[i].child, a, beta);
        v := Max(v, util);
        if Le(beta, v) {
          return v;
        }
        a := Max(a, v);
      }
    } else {
      v := PosInf;
      var b := beta;
      for i := 0 to |s.succs|
        invariant AbMin(s, i, v, alpha, b) == AlphaBetaValue(s, alpha, beta)
      {
        var util := Minimax(s.succs[i].child);
        v := Min(v, util);
        if Le(v, alpha) {
          return v;
        }
        b := Min(b, v);
      }
    }
  }

  // ---------------------------------------------------------------------------
  // Fail-soft correctness.

  /**
   * r is a fail-soft answer for exact value m in the window (a, b): between m
   * and a when m <= a, exactly m when a < m < b, between b and m when m >= b.
   */
  predicate FailSoftBound(r: Ext, m: Ext, a: Ext, b: Ext) {
    (Le(m, a) ==> Le(m, r) && Le(r, a)) &&
    (Lt(a, m) && Lt(m, b) ==> r == m) &&
    (Le(b, m) ==> Le(b, r) && Le(r, m))
  }

  /** With the full window a fail-soft answer is the exact value. */
  lemma FullWindowBound(r: Ext, m: Ext)
    requires FailSoftBound(r, m, NegInf, PosInf)
    ensures r == m
  {
  }

  /**
   * alphabeta is fail-soft: for alpha < beta its answer is the exact minimax
   * value when that lies strictly inside the window, at most alpha (and at
   * least the exact value) when the exact value is at most alpha, and at least
   * beta (and at most the exact value) when the exact value is at least beta.
   */
  lemma {:induction false} FailSoft(s: State, a: Ext, b: Ext)
    requires Lt(a, b)
    ensures FailSoftBound(AlphaBetaValue(s, a, b), ExactSearch.MinimaxValue(s), a, b)
    decreases s, 2
  {
    if !s.full {
      if s.next == 1 {
        AbMaxSound(s, 0, NegInf, a, b, a);
      } else {
        AbMinSound(s, 0, PosInf, a, b, b);
      }
    }
  }

  // Steps of the two loops on values alone: mi / ni is the max / min of the
  // exact values seen so far, mc the exact value of the child at hand.

  /** One maximizing step: either a cut-off between beta and mc, or the loop conditions again. */
  lemma MaxStep(v: Ext, r: Ext, mc: Ext, mi: Ext, a0: Ext, b: Ext)
    requires Lt(a0, b) && Lt(v, b) && Le(mi, v) && Max(a0, v) == Max(a0, mi)
    requires FailSoftBound(r, mc, Max(a0, v), b)
    ensures var v' := Max(v, r);
      if Le(b, v') then Le(b, mc) && Le(v', mc)
      else (Lt(v', b) && Le(Max(mi, mc), v') && Max(a0, v') == Max(a0, Max(mi, mc)) &&
            Max(Max(a0, v), v') == Max(a0, v'))
  {
  }

  /** A maximizing cut-off at v', with v' at most the exact value m, answers fail-soft. */
  lemma MaxCut(v': Ext, m: Ext, a0: Ext, b: Ext)
    requires Lt(a0, b) && Le(b, v') && Le(v', m)
    ensures FailSoftBound(v', m, a0, b)
  {
  }

  /** A maximizing loop that ran to the end answers fail-soft. */
  lemma MaxEnd(v: Ext, m: Ext, a0: Ext, b: Ext)
    requires Lt(v, b) && Le(m, v) && Max(a0, v) == Max(a0, m)
    ensures FailSoftBound(v, m, a0, b)
  {
  }

  /** A minimizing cut-off at v' <= a, with the exact value m at most v', answers fail-soft. */
  lemma MinCut(v': Ext, m: Ext, a: Ext, b0: Ext)
    requires Lt(a, b0) && Le(v', a) && Le(m, v')
    ensures FailSoftBound(v', m, a, b0)
  {
  }

  /** A minimizing loop that ran to the end returns the exact value, which is above alpha. */
  lemma MinEnd(m: Ext, a: Ext, b0: Ext)
    requires Lt(a, m)
    ensures FailSoftBound(m, m, a, b0)
  {
  }

  /**
   * Taking successor i into the max of the first i exact values gives the max
   * of the first i + 1, and successor i's value is at most the node's.
   */
  lemma MaxOfNext(s: State, i: nat)
    requires !s.full && s.next == 1 && i < |s.succs|
    ensures var mc := ExactSearch.MinimaxValue(s.succs[i].child);
      MaxOf(ExactSearch.ChildValues(s, i + 1)) == Max(MaxOf(ExactSearch.ChildValues(s, i)), mc) &&
      Le(mc, ExactSearch.MinimaxValue(s))
  {
    ExactSearch.MaxOfChildValuesSnoc(s, i);
    MaxOfIsMax(ExactSearch.ChildValues(s, |s.succs|));
    ExactSearch.ChildValuesAt(s, |s.succs|, i);
  }

  /**
   * Taking successor i into the min of the first i exact values gives the min
   * of the first i + 1, and the node's value is at most that min.
   */
  lemma MinOfNext(s: State, i: nat)
    requires !s.full && s.next == -1 && i < |s.succs|
    ensures var mc := ExactSearch.MinimaxValue(s.succs[i].child);
      var ni := Min(MinOf(ExactSearch.ChildValues(s, i)), mc);
      MinOf(ExactSearch.ChildValues(s, i + 1)) == ni && Le(ExactSearch.MinimaxValue(s), ni)
  {
    var mc := ExactSearch.MinimaxValue(s.succs[i].child);
    var vs := ExactSearch.ChildValues(s, i + 1);
    ExactSearch.MinOfChildValuesSnoc(s, i);
    MinOfIsMin(vs);
    var j :| 0 <= j < i + 1 && vs[j] == MinOf(vs);
    ExactSearch.ChildValuesAt(s, i + 1, j);
    ExactSearch.ChildValuesAt(s, |s.succs|, j);
    MinOfIsMin(ExactSearch.ChildValues(s, |s.succs|));
  }

  /**
   * The maximizing loop from successor i on, entered with a0 < b, v below b,
   * v at least the max M of the first i exact values, and alpha = max(a0, v) =
   * max(a0, M), answers fail-soft for the window (a0, b).
   */
  lemma {:induction false} AbMaxSound(s: State, i: nat, v: Ext, a: Ext, b: Ext, a0: Ext)
    requires !s.full && s.next == 1 && i <= |s.succs|
    requires Lt(a0, b) && Lt(v, b) && a == Max(a0, v)
    requires Le(MaxOf(ExactSearch.ChildValues(s, i)), v)
    requires Max(a0, v) == Max(a0, MaxOf(ExactSearch.ChildValues(s, i)))
    ensures FailSoftBound(AbMax(s, i, v, a, b), ExactSearch.MinimaxValue(s), a0, b)
    decreases s, 1, |s.succs| - i, 1
  {
    if i == |s.succs| {
      MaxEnd(v, ExactSearch.MinimaxValue(s), a0, b);
    } else {
      AbMaxSoundStep(s, i, v, a, b, a0);
    }
  }

  /** AbMaxSound when successor i exists: search it, then cut off or go on. */
  lemma {:induction false} AbMaxSoundStep(s: State, i: nat, v: Ext, a: Ext, b: Ext, a0: Ext)
    requires !s.full && s.next == 1 && i < |s.succs|
    requires Lt(a0, b) && Lt(v, b) && a == Max(a0, v)
    requires Le(MaxOf(ExactSearch.ChildValues(s, i)), v)
    requires Max(a0, v) == Max(a0, MaxOf(ExactSearch.ChildValues(s, i)))
    ensures FailSoftBound(AbMax(s, i, v, a, b), ExactSearch.MinimaxValue(s), a0, b)
    decreases s, 1, |s.succs| - i, 0
  {
    var c := s.succs[i].child;
    var r := AlphaBetaValue(c, a, b);
    FailSoft(c, a, b);
    MaxOfNext(s, i);
    MaxStep(v, r, ExactSearch.MinimaxValue(c), MaxOf(ExactSearch.ChildValues(s, i)), a0, b);
    var v' := Max(v, r);
    if Le(b, v') {
      assert AbMax(s, i, v, a, b) == v';
      MaxCut(v', ExactSearch.MinimaxValue(s), a0, b);
    } else {
      assert AbMax(s, i, v, a, b) == AbMax(s, i + 1, v', Max(a, v'), b);
      AbMaxSound(s, i + 1, v', Max(a, v'), b, a0);
    }
  }

  /**
   * The minimizing loop from successor i on, entered with a < b0 and v the
   * exact min of the first i values and above a, answers fail-soft for the
   * window (a, b0).
   */
  lemma {:induction false} AbMinSound(s: State, i: nat, v: Ext, a: Ext, b: Ext, b0: Ext)
    requires !s.full && s.next == -1 && i <= |s.succs|
    requires Lt(a, b0) && Lt(a, v)
    requires v == MinOf(ExactSearch.ChildValues(s, i))
    ensures FailSoftBound(AbMin(s, i, v, a, b), ExactSearch.MinimaxValue(s), a, b0)
    decreases s, 1, |s.succs| - i, 1
  {
    if i == |s.succs| {
      MinEnd(ExactSearch.MinimaxValue(s), a, b0);
    } else {
      AbMinSoundStep(s, i, v, a, b, b0);
    }
  }

  /** AbMinSound when successor i exists: its exact value comes back, then cut off or go on. */
  lemma {:induction false} AbMinSoundStep(s: State, i: nat, v: Ext, a: Ext, b: Ext, b0: Ext)
    requires !s.full && s.next == -1 && i < |s.succs|
    requires Lt(a, b0) && Lt(a, v)
    requires v == MinOf(ExactSearch.ChildValues(s, i))
    ensures FailSoftBound(AbMin(s, i, v, a, b), ExactSearch.MinimaxValue(s), a, b0)
    decreases s, 1, |s.succs| - i, 0
  {
    var c := s.succs[i].child;
    FailSoft(c, NegInf, PosInf);
    FullWindowBound(AlphaBetaValue(c, NegInf, PosInf), ExactSearch.MinimaxValue(c));
    MinOfNext(s, i);
    var v' := Min(v, ExactSearch.MinimaxValue(c));
    if Le(v', a) {
      assert AbMin(s, i, v, a, b) == v';
      MinCut(v', ExactSearch.MinimaxValue(s), a, b0);
    } else {
      assert AbMin(s, i, v, a, b) == AbMin(s, i + 1, v', a, Min(b, v'));
      AbMinSound(s, i + 1, v', a, Min(b, v'), b0);
    }
  }

  /** alphabeta(s, -inf, +inf) is the exact minimax value (agents.py:224-225). */
  lemma FullWindowIsExact(s: State)
    ensures AlphaBetaValue(s, NegInf, PosInf) == ExactSearch.MinimaxValue(s)
  {
    FailSoft(s, NegInf, PosInf);
    FullWindowBound(AlphaBetaValue(s, NegInf, PosInf), ExactSearch.MinimaxValue(s));
  }
}
