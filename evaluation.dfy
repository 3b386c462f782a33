// MinimaxHeuristicAgent.evaluation: the streak-and-majority heuristic that
// depth-limited search returns at its cut-off.
//
// The scan runs over cols + rows + diags, in that order, with six counters.
// The two totals and the two running streaks are never reset between lines;
// only the two per-line mark counts are. So a streak runs on from the end of
// one line into the next, and a streak still open after the last cell is
// never scored (EvaluationSplits below).

module Evaluator {
  import opened GameTree

  /** The six counters of the scan. */
  datatype Tally = Tally(
    p1Total: int, p2Total: int,   // p1_total_streak, p2_total_streak
    p1Streak: int, p2Streak: int, // p1_curr_streak, p2_curr_streak
    p1Count: int, p2Count: int    // p1_counter, p2_counter
  )

  const START := Tally(0, 0, 0, 0, 0, 0)

  /** The counters' standing invariant: nothing negative, and at most one streak open. */
  predicate Sound(t: Tally) {
    t.p1Total >= 0 && t.p2Total >= 0 && t.p1Streak >= 0 && t.p2Streak >= 0 &&
    t.p1Count >= 0 && t.p2Count >= 0 && (t.p1Streak == 0 || t.p2Streak == 0)
  }

  /** Python's x**2. */
  function Square(x: int): (r: int) {
    x * x
  }

  /** Points for closing a streak: its square when it is at least 3 long. */
  function Closed(streak: int): (r: int) {
    if streak >= 3 then Square(streak) else 0
  }

  /** The number of cells of a line holding x. */
  function Count(line: seq<int>, x: int): (r: nat) {
    if line == [] then 0 else Count(line[..|line| - 1], x) + (if line[|line| - 1] == x then 1 else 0)
  }

  /** One cell of the inner loop, by its value: +1, -1, empty (0), anything else. */
  function Step(t: Tally, cell: int, next: Player): (r: Tally) {
    if cell == 1 then P1Mark(t)
    else if cell == -1 then P2Mark(t)
    else if cell == 0 then Empty(t, next)
    else Blocked(t)
  }

  /** A +1 mark: close and score -1's streak, extend +1's, count the mark. */
  function P1Mark(t: Tally): (r: Tally) {
    t.(p2Total := t.p2Total + Closed(t.p2Streak), p2Streak := 0,
       p1Streak := t.p1Streak + 1, p1Count := t.p1Count + 1)
  }

  /** A -1 mark: close and score +1's streak, extend -1's, count the mark. */
  function P2Mark(t: Tally): (r: Tally) {
    t.(p1Total := t.p1Total + Closed(t.p1Streak), p1Streak := 0,
       p2Streak := t.p2Streak + 1, p2Count := t.p2Count + 1)
  }

  /** An empty cell: extend the open streak, else the streak of the player to move. */
  function Empty(t: Tally, next: Player): (r: Tally) {
    if t.p1Streak > 0 then t.(p1Streak := t.p1Streak + 1)
    else if t.p2Streak > 0 then t.(p2Streak := t.p2Streak + 1)
    else if next == 1 then t.(p1Streak := t.p1Streak + 1)
    else t.(p2Streak := t.p2Streak + 1)
  }

  /** Any other cell value (a blocked cell): close and score both streaks. */
  function Blocked(t: Tally): (r: Tally) {
    t.(p1Total := t.p1Total + Closed(t.p1Streak), p1Streak := 0,
       p2Total := t.p2Total + Closed(t.p2Streak), p2Streak := 0)
  }

  /** The inner loop over the cells of one line. */
  function ScanLine(t: Tally, line: seq<int>, next: Player): (r: Tally) {
    if line == [] then t
    else Step(ScanLine(t, line[..|line| - 1], next), line[|line| - 1], next)
  }

  /** The end of a line: a player with strictly more marks on it gains that count squared; the counts restart. */
  function EndLine(t: Tally): (r: Tally) {
    var bonus1 := if t.p1Count > t.p2Count then Square(t.p1Count) else 0;
    var bonus2 := if t.p1Count < t.p2Count then Square(t.p2Count) else 0;
    t.(p1Total := t.p1Total + bonus1, p2Total := t.p2Total + bonus2, p1Count := 0, p2Count := 0)
  }

  /** The outer loop over the lines. */
  function ScanLines(t: Tally, lines: seq<seq<int>>, next: Player): (r: Tally) {
    if lines == [] then t
    else EndLine(ScanLine(ScanLines(t, lines[..|lines| - 1], next), lines[|lines| - 1], next))
  }

  function AllLines(s: State): (r: seq<seq<int>>) {
    s.cols + s.rows + s.diags
  }

  /** The heuristic value of a list of lines with `next` to move: player +1's total minus player -1's. */
  function LinesScore(lines: seq<seq<int>>, next: Player): (r: int) {
    var t := ScanLines(START, lines, next);
    t.p1Total - t.p2Total
  }

  function Score(s: State): (r: int) {
    LinesScore(AllLines(s), s.next)
  }

  lemma ScanLineSnoc(t: Tally, line: seq<int>, j: nat, next: Player)
    requires j < |line|
    ensures ScanLine(t, line[..j + 1], next) == Step(ScanLine(t, line[..j], next), line[j], next)
  {
    assert line[..j + 1][..j] == line[..j];
  }

  lemma ScanLinesSnoc(t: Tally, lines: seq<seq<int>>, i: nat, next: Player)
    requires i < |lines|
    ensures ScanLines(t, lines[..i + 1], next) == EndLine(ScanLine(ScanLines(t, lines[..i], next), lines[i], next))
  {
    assert lines[..i + 1][..i] == lines[..i];
  }

  /** The inner loop of evaluation over the cells of one line (agents.py:164-199). */
  method ScanCells(line: seq<int>, next: Player,
                   p1Total0: int, p2Total0: int, p1Streak0: int, p2Streak0: int, p1Count0: int, p2Count0: int)
    returns (p1Total: int, p2Total: int, p1Streak: int, p2Streak: int, p1Count: int, p2Count: int)
    ensures Tally(p1Total, p2Total, p1Streak, p2Streak, p1Count, p2Count)
      == ScanLine(Tally(p1Total0, p2Total0, p1Streak0, p2Streak0, p1Count0, p2Count0), line, next)
  {
    ghost var before := Tally(p1Total0, p2Total0, p1Streak0, p2Streak0, p1Count0, p2Count0);
    p1Total, p2Total, p1Streak, p2Streak, p1Count, p2Count := p1Total0, p2Total0, p1Streak0, p2Streak0, p1Count0, p2Count0;
    for j := 0 to |line|
      invariant Tally(p1Total, p2Total, p1Streak, p2Streak, p1Count, p2Count) == ScanLine(before, line[..j], next)
    {
      ScanLineSnoc(before, line, j, next);
      if line[j] == 1 {
        if p2Streak >= 3 {
          p2Total := p2Total + Square(p2Streak);
        }
        p2Streak := 0;
        p1Streak := p1Streak + 1;
        p1Count := p1Count + 1;
      } else if line[j] == -1 {
        if p1Streak >= 3 {
          p1Total := p1Total + Square(p1Streak);
        }
        p1Streak := 0;
        p2Streak := p2Streak + 1;
        p2Count := p2Count + 1;
      } else if line[j] == 0 {
        if p1Streak > 0 {
          p1Streak := p1Streak + 1;
        } else if p2Streak > 0 {
          p2Streak := p2Streak + 1;
        } else {
          if next == 1 {
            p1Streak := p1Streak + 1;
          } else {
            p2Streak := p2Streak + 1;
          }
        }
      } else {
        if p1Streak >= 3 {
          p1Total := p1Total + Square(p1Streak);
        }
        p1Streak := 0;
        if p2Streak >= 3 {
          p2Total := p2Total + Square(p2Streak);
        }
        p2Streak := 0;
      }
    }
    assert line[..|line|] == line;
  }

  /** evaluation (agents.py:135-213). */
  method Evaluation(s: State) returns (score: int)
    ensures score == Score(s)
  {
    var lines := AllLines(s);
    var p1Total, p2Total := 0, 0;
    var p1Streak, p2Streak := 0, 0;
    var p1Count, p2Count := 0, 0;
    for i := 0 to |lines|
      invariant Tally(p1Total, p2Total, p1Streak, p2Streak, p1Count, p2Count) == ScanLines(START, lines[..i], s.next)
    {
      ScanLinesSnoc(START, lines, i, s.next);
      p1Total, p2Total, p1Streak, p2Streak, p1Count, p2Count :=
        ScanCells(lines[i], s.next, p1Total, p2Total, p1Streak, p2Streak, p1Count, p2Count);
      if p1Count > p2Count {
        p1Total := p1Total + Square(p1Count);
      } else if p1Count < p2Count {
        p2Total := p2Total + Square(p2Count);
      }
      p1Count := 0;
      p2Count := 0;
    }
    assert lines[..|lines|] == lines;
    score := p1Total - p2Total;
  }

  // ---------------------------------------------------------------------------
  // What the scan keeps and what it computes.

  /**
   * An empty cell on sound counters adds exactly one to exactly one streak: the
   * open one, or the mover's when neither is open. Nothing else changes.
   */
  lemma EmptyExtendsOneStreak(t: Tally, next: Player)
    requires Sound(t)
    ensures var r := Empty(t, next);
      Sound(r) && r.(p1Streak := t.p1Streak, p2Streak := t.p2Streak) == t &&
      (if t.p1Streak > 0 || (t.p2Streak == 0 && next == 1)
       then r.p1Streak == t.p1Streak + 1 && r.p2Streak == 0
       else r.p2Streak == t.p2Streak + 1 && r.p1Streak == 0)
  {
  }

  /**
   * A streak is closed (reset to 0) by an opponent's mark or a blocked cell,
   * and by nothing else: an empty cell or the player's own mark never shortens
   * it. A total grows only when a closed streak is at least 3 long, and then
   * by that streak's square.
   */
  lemma StepScoresClosedStreaks(t: Tally, cell: int, next: Player)
    ensures var r := Step(t, cell, next);
      r.p1Total == t.p1Total + (if cell != 1 && cell != 0 && t.p1Streak >= 3 then t.p1Streak * t.p1Streak else 0) &&
      r.p2Total == t.p2Total + (if cell != -1 && cell != 0 && t.p2Streak >= 3 then t.p2Streak * t.p2Streak else 0)
    ensures var r := Step(t, cell, next);
      (if cell != 1 && cell != 0 then r.p1Streak == 0 else r.p1Streak >= t.p1Streak) &&
      (if cell != -1 && cell != 0 then r.p2Streak == 0 else r.p2Streak >= t.p2Streak)
  {
  }

  /** The inner loop keeps the counters sound, never lowers a total and counts each player's marks on the line. */
  lemma {:induction false} ScanLineKeeps(t: Tally, line: seq<int>, next: Player)
    requires Sound(t)
    ensures var r := ScanLine(t, line, next);
      Sound(r) && r.p1Total >= t.p1Total && r.p2Total >= t.p2Total &&
      r.p1Count == t.p1Count + Count(line, 1) && r.p2Count == t.p2Count + Count(line, -1)
  {
    if line != [] {
      ScanLineKeeps(t, line[..|line| - 1], next);
    }
  }

  /**
   * The whole scan keeps the counters sound and never lowers a total, and the
   * mark counts are back at 0 whenever a line has just ended.
   */
  lemma {:induction false} ScanLinesKeeps(t: Tally, lines: seq<seq<int>>, next: Player)
    requires Sound(t)
    ensures var r := ScanLines(t, lines, next);
      Sound(r) && r.p1Total >= t.p1Total && r.p2Total >= t.p2Total &&
      (lines != [] ==> r.p1Count == 0 && r.p2Count == 0)
  {
    if lines != [] {
      var init := lines[..|lines| - 1];
      ScanLinesKeeps(t, init, next);
      ScanLineKeeps(ScanLines(t, init, next), lines[|lines| - 1], next);
    }
  }

  /** The evaluation of any board is a difference of two non-negative totals. */
  lemma ScoreIsDifferenceOfTotals(s: State)
    ensures var t := ScanLines(START, AllLines(s), s.next);
      t.p1Total >= 0 && t.p2Total >= 0 && Score(s) == t.p1Total - t.p2Total
  {
    ScanLinesKeeps(START, AllLines(s), s.next);
  }

  /** All cells of all lines, in scan order. */
  function Flatten(lines: seq<seq<int>>): (r: seq<int>) {
    if lines == [] then [] else Flatten(lines[..|lines| - 1]) + lines[|lines| - 1]
  }

  /** Player +1's majority bonuses: count squared on each line where +1 has strictly more marks. */
  function P1Bonus(lines: seq<seq<int>>): (r: int) {
    if lines == [] then 0
    else
      var line := lines[|lines| - 1];
      P1Bonus(lines[..|lines| - 1]) + (if Count(line, 1) > Count(line, -1) then Square(Count(line, 1)) else 0)
  }

  /** Player -1's majority bonuses. */
  function P2Bonus(lines: seq<seq<int>>): (r: int) {
    if lines == [] then 0
    else
      var line := lines[|lines| - 1];
      P2Bonus(lines[..|lines| - 1]) + (if Count(line, 1) < Count(line, -1) then Square(Count(line, -1)) else 0)
  }

  /** u and w agree on both streaks, and u's totals exceed w's by d1 and d2. */
  predicate Shifted(u: Tally, w: Tally, d1: int, d2: int) {
    u.p1Streak == w.p1Streak && u.p2Streak == w.p2Streak &&
    u.p1Total == w.p1Total + d1 && u.p2Total == w.p2Total + d2
  }

  /** Streak scoring does not look at the mark counts or at the totals already reached. */
  lemma {:induction false} ScanLineShift(u: Tally, w: Tally, d1: int, d2: int, line: seq<int>, next: Player)
    requires Shifted(u, w, d1, d2)
    ensures Shifted(ScanLine(u, line, next), ScanLine(w, line, next), d1, d2)
  {
    if line != [] {
      ScanLineShift(u, w, d1, d2, line[..|line| - 1], next);
    }
  }

  lemma {:induction false} ScanLineAppend(t: Tally, xs: seq<int>, ys: seq<int>, next: Player)
    ensures ScanLine(t, xs + ys, next) == ScanLine(ScanLine(t, xs, next), ys, next)
  {
    if ys == [] {
      assert xs + ys == xs;
    } else {
      assert (xs + ys)[..|xs + ys| - 1] == xs + ys[..|ys| - 1];
      ScanLineAppend(t, xs, ys[..|ys| - 1], next);
    }
  }

  /** The inner loop adds each player's marks on the line to that player's count. */
  lemma {:induction false} ScanLineCounts(t: Tally, line: seq<int>, next: Player)
    ensures ScanLine(t, line, next).p1Count == t.p1Count + Count(line, 1)
    ensures ScanLine(t, line, next).p2Count == t.p2Count + Count(line, -1)
  {
    if line != [] {
      ScanLineCounts(t, line[..|line| - 1], next);
    }
  }

  /**
   * The scan of a list of lines, from counters with no marks counted, equals
   * the streak scan of all their cells run together as one line, plus each
   * line's majority bonus. Line ends close no streak.
   */
  lemma {:induction false} ScanLinesSplits(t: Tally, lines: seq<seq<int>>, next: Player)
    requires t.p1Count == 0 && t.p2Count == 0
    ensures Shifted(ScanLines(t, lines, next), ScanLine(t, Flatten(lines), next), P1Bonus(lines), P2Bonus(lines))
    ensures ScanLines(t, lines, next).p1Count == 0 && ScanLines(t, lines, next).p2Count == 0
  {
    if lines != [] {
      var init, line := lines[..|lines| - 1], lines[|lines| - 1];
      ScanLinesSplits(t, init, next);
      var u := ScanLines(t, init, next);
      var w := ScanLine(t, Flatten(init), next);
      ScanLineShift(u, w, P1Bonus(init), P2Bonus(init), line, next);
      ScanLineAppend(t, Flatten(init), line, next);
      ScanLineCounts(u, line, next);
    }
  }

  /**
   * The evaluation is player +1's streak points over all cells run together,
   * plus +1's majority bonuses, minus the same for player -1.
   */
  lemma EvaluationSplits(lines: seq<seq<int>>, next: Player)
    ensures var w := ScanLine(START, Flatten(lines), next);
      LinesScore(lines, next) == (w.p1Total + P1Bonus(lines)) - (w.p2Total + P2Bonus(lines))
  {
    ScanLinesSplits(START, lines, next);
  }
}
