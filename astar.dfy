/** A* search on a grid of free (0) and blocked cells with unit moves and
    the Manhattan heuristic. The open set is a priority multiset of
    (f, cell) entries from which the smallest entry in tuple order is popped;
    g-scores and parent links live in maps that the search updates. */
module AStar {
  import opened Sequences

  type Cell = (int, int)

  datatype Option<T> = None | Some(value: T)

  function Abs(x: int): nat {
    if x < 0 then -x else x
  }

  /** Python's `heuristic(a, b)`: the Manhattan distance. */
  function Heuristic(a: Cell, b: Cell): (h: nat)
    ensures h == 0 <==> a == b
  {
    Abs(a.0 - b.0) + Abs(a.1 - b.1)
  }

  /** The Manhattan distance is symmetric and obeys the triangle inequality. */
  lemma HeuristicMetric(a: Cell, b: Cell, c: Cell)
    ensures Heuristic(a, b) == Heuristic(b, a)
    ensures Heuristic(a, c) <= Heuristic(a, b) + Heuristic(b, c)
  {
  }

  /** The four unit moves, in the order the search tries them. */
  const Moves: seq<Cell> := [(1, 0), (-1, 0), (0, 1), (0, -1)]

  /** Python's `(current[0]+dx, current[1]+dy)`: the cell one move away. */
  function Step(c: Cell, move: Cell): Cell {
    (c.0 + move.0, c.1 + move.1)
  }

  /** b is one unit move away from a. */
  predicate Adjacent(a: Cell, b: Cell) {
    (b.0 - a.0, b.1 - a.1) in Moves
  }

  /** The four moves are exactly the steps of Manhattan length one. */
  lemma MovesAreUnitSteps(a: Cell, b: Cell)
    ensures Adjacent(a, b) <==> Heuristic(a, b) == 1
  {
  }

  /** Neighbouring cells are at Manhattan distance one. */
  lemma AdjacentDistance(a: Cell, b: Cell)
    requires Adjacent(a, b)
    ensures Heuristic(a, b) == 1 && Heuristic(b, a) == 1
  {
  }

  /** Every row has as many columns as the first one. */
  predicate Rectangular(grid: seq<seq<int>>) {
    |grid| >= 1 && forall r :: 0 <= r < |grid| ==> |grid[r]| == |grid[0]|
  }

  predicate InBounds(grid: seq<seq<int>>, c: Cell)
    requires Rectangular(grid)
  {
    0 <= c.0 < |grid| && 0 <= c.1 < |grid[0]|
  }

  /** An in-bounds cell holding 0. */
  predicate Free(grid: seq<seq<int>>, c: Cell)
    requires Rectangular(grid)
  {
    InBounds(grid, c) && grid[c.0][c.1] == 0
  }

  /** A walk of unit moves. */
  predicate Walk(path: seq<Cell>) {
    forall i :: 0 <= i < |path| - 1 ==> Adjacent(path[i], path[i + 1])
  }

  /** A path from start to goal: unit moves through free cells, where only
      the start cell itself is not required to be free. */
  predicate IsPath(grid: seq<seq<int>>, start: Cell, goal: Cell, path: seq<Cell>)
    requires Rectangular(grid)
  {
    && |path| >= 1 && path[0] == start && path[|path| - 1] == goal
    && Walk(path)
    && forall i :: 1 <= i < |path| ==> Free(grid, path[i])
  }

  /** A walk of k moves covers a Manhattan distance of at most k. */
  lemma {:induction false} WalkLength(path: seq<Cell>)
    requires |path| >= 1 && Walk(path)
    ensures Heuristic(path[0], path[|path| - 1]) <= |path| - 1
  {
    if |path| > 1 {
      var front := path[..|path| - 1];
      assert Walk(front) by {
        forall i | 0 <= i < |front| - 1 ensures Adjacent(front[i], front[i + 1]) {
          assert front[i] == path[i] && front[i + 1] == path[i + 1];
        }
      }
      WalkLength(front);
      AdjacentDistance(path[|path| - 2], path[|path| - 1]);
      HeuristicMetric(path[0], path[|path| - 2], path[|path| - 1]);
    }
  }

  /** An open-set entry: the f-score and the cell. */
  type Entry = (int, Cell)

  /** Python's tuple order on entries: by f, then by row, then by column. */
  predicate EntryLeq(a: Entry, b: Entry): (r: bool)
    ensures a.0 < b.0 ==> r
    ensures b.0 < a.0 ==> !r
  {
    a.0 < b.0 || (a.0 == b.0 && (a.1.0 < b.1.0 || (a.1.0 == b.1.0 && a.1.1 <= b.1.1)))
  }

  /** Tuple order is a total order, so the smallest entry is well defined. */
  lemma EntryLeqTotalOrder(a: Entry, b: Entry, c: Entry)
    ensures EntryLeq(a, a)
    ensures EntryLeq(a, b) || EntryLeq(b, a)
    ensures EntryLeq(a, b) && EntryLeq(b, a) ==> a == b
    ensures EntryLeq(a, b) && EntryLeq(b, c) ==> EntryLeq(a, c)
  {
  }

  /** `heappop`: the smallest entry and what remains of the open set. */
  function PopMin(open: seq<Entry>): (r: (Entry, seq<Entry>))
    requires |open| > 0
    ensures multiset(open) == multiset(r.1) + multiset{r.0}
    ensures forall e :: e in r.1 ==> EntryLeq(r.0, e)
    ensures |r.1| == |open| - 1
  {
    if |open| == 1 then (open[0], [])
    else
      var (m, rest) := PopMin(open[1..]);
      PopMinStep(open, m, rest);
      if EntryLeq(open[0], m) then (open[0], open[1..]) else (m, [open[0]] + rest)
  }

  /** The step of `PopMin` past the head: the head is kept when it is no
      larger than the least entry of the tail, and the tail's least entry
      is taken otherwise. */
  lemma PopMinStep(open: seq<Entry>, m: Entry, rest: seq<Entry>)
    requires |open| > 1
    requires multiset(open[1..]) == multiset(rest) + multiset{m}
    requires forall e :: e in rest ==> EntryLeq(m, e)
    ensures multiset(open) == multiset(open[1..]) + multiset{open[0]}
    ensures EntryLeq(open[0], m) ==> forall e :: e in open[1..] ==> EntryLeq(open[0], e)
    ensures !EntryLeq(open[0], m) ==>
              multiset(open) == multiset([open[0]] + rest) + multiset{m} &&
              forall e :: e in [open[0]] + rest ==> EntryLeq(m, e)
  {
    assert open == [open[0]] + open[1..];
    forall e | e in open[1..] ensures e == m || e in rest {
      assert e in multiset(open[1..]);
    }
  }

  /** The search tree kept in `g_score` and `came_from`: the start has score
      0 and no parent; every other recorded cell is free, has a recorded
      neighbour as parent, and scores at least one more than that parent. */
  ghost predicate Tree(grid: seq<seq<int>>, start: Cell, g: map<Cell, nat>, cameFrom: map<Cell, Option<Cell>>)
    requires Rectangular(grid)
  {
    && start in g && g[start] == 0 && start in cameFrom && cameFrom[start] == None
    && g.Keys == cameFrom.Keys
    && forall c :: c in cameFrom && c != start ==> HasParent(grid, g, cameFrom, c)
  }

  /** Recorded cell c has a recorded neighbour as parent and scores more. */
  ghost predicate HasParent(grid: seq<seq<int>>, g: map<Cell, nat>, cameFrom: map<Cell, Option<Cell>>, c: Cell)
    requires Rectangular(grid)
  {
    && c in cameFrom && c in g && cameFrom[c].Some? && cameFrom[c].value in g
    && Adjacent(cameFrom[c].value, c) && Free(grid, c)
    && g[c] >= g[cameFrom[c].value] + 1
  }

  /** Every cell in the open set has a score. */
  predicate Scored(open: seq<Entry>, g: map<Cell, nat>) {
    forall i :: 0 <= i < |open| ==> open[i].1 in g
  }

  /** All cells of a rows x cols grid. */
  function Cells(rows: nat, cols: nat): seq<Cell> {
    if rows == 0 then [] else Cells(rows - 1, cols) + seq(cols, y => (rows - 1, y))
  }

  lemma {:induction false} InCells(rows: nat, cols: nat, c: Cell)
    requires 0 <= c.0 < rows && 0 <= c.1 < cols
    ensures c in Cells(rows, cols)
  {
    var row := seq(cols, y => (rows - 1, y));
    if c.0 == rows - 1 {
      assert row[c.1] == c;
    } else {
      InCells(rows - 1, cols, c);
    }
  }

  /** How many of `cells` have no score yet. */
  function Unscored(g: map<Cell, nat>, cells: seq<Cell>): nat {
    if cells == [] then 0 else (if cells[0] in g then 0 else 1) + Unscored(g, cells[1..])
  }

  /** The sum of the scores of `cells`. */
  function ScoreSum(g: map<Cell, nat>, cells: seq<Cell>): nat {
    if cells == [] then 0 else (if cells[0] in g then g[cells[0]] else 0) + ScoreSum(g, cells[1..])
  }

  /** Recording a score for cell c never adds unscored cells, and removes one
      when c is a new cell among `cells`; lowering a recorded score keeps the
      unscored count and lowers the sum when c is among `cells`. */
  lemma {:induction false} RecordScore(g: map<Cell, nat>, cells: seq<Cell>, c: Cell, v: nat)
    ensures Unscored(g[c := v], cells) <= Unscored(g, cells)
    ensures c !in g && c in cells ==> Unscored(g[c := v], cells) < Unscored(g, cells)
    ensures c in g ==> Unscored(g[c := v], cells) == Unscored(g, cells)
    ensures c in g && v <= g[c] ==> ScoreSum(g[c := v], cells) <= ScoreSum(g, cells)
    ensures c in g && v < g[c] && c in cells ==> ScoreSum(g[c := v], cells) < ScoreSum(g, cells)
  {
    if cells != [] {
      RecordScore(g, cells[1..], c, v);
      if c in cells && cells[0] != c {
        assert c in cells[1..];
      }
    }
  }

  /** The termination measure went down: fewer unscored cells, or as many
      with a smaller score sum. */
  ghost predicate Decreased(grid: seq<seq<int>>, g': map<Cell, nat>, g: map<Cell, nat>)
    requires Rectangular(grid)
  {
    var cells := Cells(|grid|, |grid[0]|);
    Unscored(g', cells) < Unscored(g, cells) ||
    (Unscored(g', cells) == Unscored(g, cells) && ScoreSum(g', cells) < ScoreSum(g, cells))
  }

  /** Recording a better score for an in-bounds cell lowers the measure. */
  lemma ImproveDecreases(grid: seq<seq<int>>, g: map<Cell, nat>, c: Cell, v: nat)
    requires Rectangular(grid) && InBounds(grid, c)
    requires c !in g || v < g[c]
    ensures Decreased(grid, g[c := v], g)
  {
    InCells(|grid|, |grid[0]|, c);
    RecordScore(g, Cells(|grid|, |grid[0]|), c, v);
  }

  /** The body of Python's `for dx, dy in ...` loop for one move: a free
      neighbour that is new or reached more cheaply gets the new score, an
      open-set entry and `current` as parent. */
  method Relax(grid: seq<seq<int>>, start: Cell, goal: Cell, current: Cell, move: Cell,
               g: map<Cell, nat>, cameFrom: map<Cell, Option<Cell>>, open: seq<Entry>)
    returns (g': map<Cell, nat>, cameFrom': map<Cell, Option<Cell>>, open': seq<Entry>)
    requires Rectangular(grid) && Tree(grid, start, g, cameFrom) && Scored(open, g)
    requires current in g && move in Moves
    ensures Tree(grid, start, g', cameFrom') && Scored(open', g')
    ensures forall c :: c in g ==> c in g' && g'[c] <= g[c]
    ensures current in g' && g'[current] == g[current]
    ensures Free(grid, Step(current, move)) ==>
      Step(current, move) in g' && g'[Step(current, move)] <= g[current] + 1
    ensures var next := Step(current, move);
      Free(grid, next) && (next !in g || g[current] + 1 < g[next]) ==>
        g' == g[next := g[current] + 1] && cameFrom' == cameFrom[next := Some(current)] &&
        open' == open + [(g[current] + 1 + Heuristic(next, goal), next)] &&
        Decreased(grid, g', g)
    ensures var next := Step(current, move);
      !(Free(grid, next) && (next !in g || g[current] + 1 < g[next])) ==>
        g' == g && cameFrom' == cameFrom && open' == open
  {
    g', cameFrom', open' := g, cameFrom, open;
    var next := Step(current, move);
    if Free(grid, next) && (next !in g || g[current] + 1 < g[next]) {
      g' := g[next := g[current] + 1];
      cameFrom' := cameFrom[next := Some(current)];
      open' := open + [(g[current] + 1 + Heuristic(next, goal), next)];
      RecordImproves(grid, start, goal, current, move, g, cameFrom, open);
    }
  }

  /** Recording `g_score[next] = g_score[current] + 1` and
      `came_from[next] = current` for a free neighbour that is new or
      reached more cheaply keeps the search tree, lowers no score and
      lowers the termination measure. */
  lemma RecordImproves(grid: seq<seq<int>>, start: Cell, goal: Cell, current: Cell, move: Cell,
                       g: map<Cell, nat>, cameFrom: map<Cell, Option<Cell>>, open: seq<Entry>)
    requires Rectangular(grid) && Tree(grid, start, g, cameFrom) && current in g && move in Moves
    requires Free(grid, Step(current, move))
    requires Step(current, move) !in g || g[current] + 1 < g[Step(current, move)]
    requires Scored(open, g)
    ensures var next := Step(current, move);
      var g' := g[next := g[current] + 1];
      && Tree(grid, start, g', cameFrom[next := Some(current)])
      && Scored(open + [(g[current] + 1 + Heuristic(next, goal), next)], g')
      && (forall c :: c in g ==> c in g' && g'[c] <= g[c])
      && Decreased(grid, g', g)
  {
    var next := Step(current, move);
    var g', cameFrom' := g[next := g[current] + 1], cameFrom[next := Some(current)];
    assert (next.0 - current.0, next.1 - current.1) == move;
    assert next != start && next != current;
    forall c | c in cameFrom' && c != start ensures HasParent(grid, g', cameFrom', c) {
      if c != next {
        assert HasParent(grid, g, cameFrom, c);
      }
    }
    ImproveDecreases(grid, g, next, g[current] + 1);
  }

  /** Python's `for dx, dy in [(1,0),(-1,0),(0,1),(0,-1)]` around `current`:
      afterwards every free neighbour is scored at most one more than
      `current`, scores only go down, and either nothing changes or the
      measure drops. */
  method Expand(grid: seq<seq<int>>, start: Cell, goal: Cell, current: Cell,
                g: map<Cell, nat>, cameFrom: map<Cell, Option<Cell>>, open: seq<Entry>)
    returns (g': map<Cell, nat>, cameFrom': map<Cell, Option<Cell>>, open': seq<Entry>)
    requires Rectangular(grid) && Tree(grid, start, g, cameFrom) && Scored(open, g) && current in g
    ensures Tree(grid, start, g', cameFrom') && Scored(open', g')
    ensures forall c :: c in g ==> c in g' && g'[c] <= g[c]
    ensures (g' == g && cameFrom' == cameFrom && open' == open) || Decreased(grid, g', g)
    ensures current in g' && g'[current] == g[current]
    ensures forall j :: 0 <= j < |Moves| && Free(grid, Step(current, Moves[j])) ==>
      Step(current, Moves[j]) in g' && g'[Step(current, Moves[j])] <= g[current] + 1
  {
    g', cameFrom', open' := g, cameFrom, open;
    for k := 0 to |Moves|
      invariant Tree(grid, start, g', cameFrom') && Scored(open', g')
      invariant forall c :: c in g ==> c in g' && g'[c] <= g[c]
      invariant (g' == g && cameFrom' == cameFrom && open' == open) || Decreased(grid, g', g)
      invariant current in g' && g'[current] == g[current]
      invariant forall j :: 0 <= j < k && Free(grid, Step(current, Moves[j])) ==>
        Step(current, Moves[j]) in g' && g'[Step(current, Moves[j])] <= g[current] + 1
    {
      g', cameFrom', open' := Relax(grid, start, goal, current, Moves[k], g', cameFrom', open');
    }
  }

  /** Python's `while current: path.append(current); current =
      came_from[current]` followed by `path[::-1]`: the parent chain from
      the goal back to the start, reversed. */
  method Reconstruct(grid: seq<seq<int>>, start: Cell, goal: Cell, g: map<Cell, nat>, cameFrom: map<Cell, Option<Cell>>)
    returns (path: seq<Cell>)
    requires Rectangular(grid) && Tree(grid, start, g, cameFrom) && goal in cameFrom
    ensures IsPath(grid, start, goal, path)
    ensures goal == start ==> path == [start]
  {
    var current: Option<Cell> := Some(goal);
    var back: seq<Cell> := [];
    while current.Some?
      invariant current.Some? ==> current.value in g
      invariant back == [] <==> current == Some(goal)
      invariant back != [] ==> back[0] == goal
      invariant forall i :: 0 <= i < |back| - 1 ==> Adjacent(back[i + 1], back[i])
      invariant current.Some? && back != [] ==> Adjacent(current.value, back[|back| - 1])
      invariant forall i :: 0 <= i < |back| && (current.Some? || i < |back| - 1) ==> back[i] != start && Free(grid, back[i])
      invariant current.None? ==> back != [] && back[|back| - 1] == start
      decreases if current.Some? then g[current.value] + 1 else 0
    {
      var c := current.value;
      back := back + [c];
      if c != start {
        assert HasParent(grid, g, cameFrom, c);
      }
      current := cameFrom[c];
    }
    path := Reverse(back);
    ReversedChain(grid, start, goal, back);
  }

  /** The parent chain collected from the goal back to the start, read
      backwards, is a path from start to goal. */
  lemma ReversedChain(grid: seq<seq<int>>, start: Cell, goal: Cell, back: seq<Cell>)
    requires Rectangular(grid)
    requires back != [] && back[0] == goal && back[|back| - 1] == start
    requires forall i :: 0 <= i < |back| - 1 ==> Adjacent(back[i + 1], back[i])
    requires forall i :: 0 <= i < |back| - 1 ==> back[i] != start && Free(grid, back[i])
    ensures IsPath(grid, start, goal, Reverse(back))
    ensures goal == start ==> Reverse(back) == [start]
  {
    var path := Reverse(back);
    forall i | 0 <= i < |path| - 1 ensures Adjacent(path[i], path[i + 1]) {
      assert path[i] == back[|back| - 1 - i] && path[i + 1] == back[|back| - 2 - i];
    }
    forall i | 1 <= i < |path| ensures Free(grid, path[i]) {
      assert path[i] == back[|back| - 1 - i];
    }
  }

  /** Python's `astar(grid, start, goal)`: a path of unit moves through free
      cells from start to goal, or None once the open set is exhausted. */
  method Search(grid: seq<seq<int>>, start: Cell, goal: Cell) returns (result: Option<seq<Cell>>)
    requires Rectangular(grid)
    ensures result.Some? ==> IsPath(grid, start, goal, result.value)
    ensures result.Some? ==> |result.value| >= Heuristic(start, goal) + 1
    ensures start == goal ==> result == Some([start])
  {
    var open: seq<Entry> := [(0, start)];
    var cameFrom: map<Cell, Option<Cell>> := map[start := None];
    var g: map<Cell, nat> := map[start := 0];
    ghost var first := true;
    while |open| > 0
      invariant Tree(grid, start, g, cameFrom) && Scored(open, g)
      invariant first ==> open == [(0, start)] && cameFrom == map[start := None]
      invariant start == goal ==> first
      decreases Unscored(g, Cells(|grid|, |grid[0]|)), ScoreSum(g, Cells(|grid|, |grid[0]|)), |open|
    {
      ghost var prior := open;
      var (e, rest) := PopMin(open);
      assert e in multiset(prior);
      open := rest;
      var current := e.1;
      assert Scored(open, g) by {
        forall i | 0 <= i < |open| ensures open[i].1 in g {
          assert open[i] in multiset(prior);
          var j :| 0 <= j < |prior| && prior[j] == open[i];
        }
      }
      if current == goal {
        var path := Reconstruct(grid, start, goal, g, cameFrom);
        WalkLength(path);
        return Some(path);
      }
      g, cameFrom, open := Expand(grid, start, goal, current, g, cameFrom, open);
      first := false;
    }
    return None;
  }
}
