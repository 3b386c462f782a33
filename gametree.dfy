// The game-tree interface the search agents consume, and the extended
// integers they fold over.
//
// A connect383 position is given only through what the agents ask of it:
// is_full(), utility(), next_player(), the raw lines of the board and the
// ordered successors(). A position is therefore a finite tree node carrying
// those answers; `util` is meaningful only when `full` holds.

module GameTree {

  /** A player: +1 moves first and maximizes, -1 minimizes. */
  type Player = p: int | p == 1 || p == -1 witness 1

  /** One (move, state) pair of successors(), in the order successors() yields it. */
  datatype Edge = Edge(move: int, child: State)

  datatype State = State(
    full: bool,           // is_full()
    util: int,            // utility(), read only when full
    next: Player,         // next_player()
    cols: seq<seq<int>>,  // get_cols()
    rows: seq<seq<int>>,  // get_rows()
    diags: seq<seq<int>>, // get_diags()
    succs: seq<Edge>      // successors()
  )

  datatype Option<T> = None | Some(value: T)

  /** A search value: an integer utility or one of the sentinels -inf / +inf. */
  datatype Ext = NegInf | Fin(n: int) | PosInf

  predicate Le(x: Ext, y: Ext) {
    x.NegInf? || y.PosInf? || (x.Fin? && y.Fin? && x.n <= y.n)
  }

  predicate Lt(x: Ext, y: Ext) {
    !Le(y, x)
  }

  /** Python's max(x, y) on these values. */
  function Max(x: Ext, y: Ext): (r: Ext)
    ensures Le(x, r) && Le(y, r)
    ensures r == x || r == y
  {
    if Le(x, y) then y else x
  }

  /** Python's min(x, y) on these values. */
  function Min(x: Ext, y: Ext): (r: Ext)
    ensures Le(r, x) && Le(r, y)
    ensures r == x || r == y
  {
    if Le(x, y) then x else y
  }

  /**
   * The loop `v = -inf; for ...: v = max(v, util)`, folded left to right
   * (MaxOfIsMax says what it computes).
   */
  function MaxOf(vs: seq<Ext>): (r: Ext) {
    if vs == [] then NegInf else Max(MaxOf(vs[..|vs| - 1]), vs[|vs| - 1])
  }

  /** The loop `v = inf; for ...: v = min(v, util)` (MinOfIsMin). */
  function MinOf(vs: seq<Ext>): (r: Ext) {
    if vs == [] then PosInf else Min(MinOf(vs[..|vs| - 1]), vs[|vs| - 1])
  }

  /** The max fold is the largest value, and one of them; -inf when there is none. */
  lemma {:induction false} MaxOfIsMax(vs: seq<Ext>)
    ensures forall i :: 0 <= i < |vs| ==> Le(vs[i], MaxOf(vs))
    ensures vs == [] ==> MaxOf(vs) == NegInf
    ensures vs != [] ==> MaxOf(vs) in vs
  {
    if vs != [] {
      var init := vs[..|vs| - 1];
      MaxOfIsMax(init);
      assert forall i :: 0 <= i < |init| ==> vs[i] == init[i];
    }
  }

  /** The min fold is the smallest value, and one of them; +inf when there is none. */
  lemma {:induction false} MinOfIsMin(vs: seq<Ext>)
    ensures forall i :: 0 <= i < |vs| ==> Le(MinOf(vs), vs[i])
    ensures vs == [] ==> MinOf(vs) == PosInf
    ensures vs != [] ==> MinOf(vs) in vs
  {
    if vs != [] {
      var init := vs[..|vs| - 1];
      MinOfIsMin(init);
      assert forall i :: 0 <= i < |init| ==> vs[i] == init[i];
    }
  }

  /** The fold a node applies to its children's values: max for +1, min for -1. */
  function Best(p: Player, vs: seq<Ext>): (r: Ext) {
    if p == 1 then MaxOf(vs) else MinOf(vs)
  }

  lemma MaxOfSnoc(vs: seq<Ext>, x: Ext)
    ensures MaxOf(vs + [x]) == Max(MaxOf(vs), x)
  {
    assert (vs + [x])[..|vs|] == vs;
  }

  lemma MinOfSnoc(vs: seq<Ext>, x: Ext)
    ensures MinOf(vs + [x]) == Min(MinOf(vs), x)
  {
    assert (vs + [x])[..|vs|] == vs;
  }
}
