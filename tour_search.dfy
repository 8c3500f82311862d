/** Hill climbing for the travelling salesman problem on a square weight
    matrix: a tour visits every city once and returns to its first city;
    the search repeatedly swaps two positions of the current tour while that
    lowers the tour cost. */
module TourSearch {
  import opened Permutations

  /** Python's `generate_random_solution(n, min_val, max_val)`: n values
      drawn with `random.randint(min_val, max_val)`, which fails on an empty
      range; each draw is a free choice in the range. */
  method GenerateRandomSolution(n: int, lo: int, hi: int) returns (solution: seq<int>)
    requires n <= 0 || lo <= hi
    ensures |solution| == if n > 0 then n else 0
    ensures forall k :: 0 <= k < |solution| ==> lo <= solution[k] <= hi
  {
    solution := [];
    while |solution| < n
      invariant |solution| <= if n > 0 then n else 0
      invariant forall k :: 0 <= k < |solution| ==> lo <= solution[k] <= hi
      decreases n - |solution|
    {
      var x :| lo <= x <= hi;
      solution := solution + [x];
    }
  }

  /** Every row has one weight per city. */
  predicate Square(graph: seq<seq<int>>) {
    forall r :: 0 <= r < |graph| ==> |graph[r]| == |graph|
  }

  /** A non-empty sequence of cities of the graph. */
  predicate Tour(path: seq<int>, graph: seq<seq<int>>) {
    |path| >= 1 && forall k :: 0 <= k < |path| ==> 0 <= path[k] < |graph|
  }

  /** The weight of the open walk along `path`. */
  function WalkCost(path: seq<int>, graph: seq<seq<int>>): int
    requires Square(graph) && forall k :: 0 <= k < |path| ==> 0 <= path[k] < |graph|
  {
    if |path| <= 1 then 0
    else WalkCost(path[..|path| - 1], graph) + graph[path[|path| - 2]][path[|path| - 1]]
  }

  /** The weight of the closed tour: the walk plus the edge from the last
      city back to the first. */
  function CyclicCost(path: seq<int>, graph: seq<seq<int>>): (r: int)
    requires Square(graph) && Tour(path, graph)
    ensures r == WalkCost(path + [path[0]], graph)
  {
    assert (path + [path[0]])[..|path|] == path;
    WalkCost(path, graph) + graph[path[|path| - 1]][path[0]]
  }

  /** Python's `calculate_cost(path, graph)`: the sum of the edges between
      consecutive cities and of the closing edge. */
  method CalculateCost(path: seq<int>, graph: seq<seq<int>>) returns (cost: int)
    requires Square(graph) && Tour(path, graph)
    ensures cost == CyclicCost(path, graph)
  {
    cost := 0;
    for i := 0 to |path| - 1
      invariant cost == WalkCost(path[..i + 1], graph)
    {
      assert path[..i + 2][..i + 1] == path[..i + 1];
      cost := cost + graph[path[i]][path[i + 1]];
    }
    assert path[..|path|] == path;
    cost := cost + graph[path[|path| - 1]][path[0]];
  }

  /** The worked example: the tour 1, 3, 2, 0 on the four-city matrix costs
      25 + 30 + 15 + 10 = 80. */
  lemma ExampleCost()
    ensures CyclicCost([1, 3, 2, 0], [[0, 10, 15, 20], [10, 0, 35, 25], [15, 35, 0, 30], [20, 25, 30, 0]]) == 80
  {
    var g := [[0, 10, 15, 20], [10, 0, 35, 25], [15, 35, 0, 30], [20, 25, 30, 0]];
    var p := [1, 3, 2, 0];
    assert p[..3] == [1, 3, 2] && p[..3][..2] == [1, 3] && p[..3][..2][..1] == [1];
    assert WalkCost([1, 3], g) == 25;
    assert WalkCost([1, 3, 2], g) == 55;
  }

  /** The smallest weight of a row. */
  function RowMin(row: seq<int>): (m: int)
    requires |row| >= 1
    ensures forall j :: 0 <= j < |row| ==> m <= row[j]
    ensures exists j :: 0 <= j < |row| && m == row[j]
  {
    if |row| == 1 then row[0]
    else
      var m := RowMin(row[1..]);
      assert forall j :: 1 <= j < |row| ==> row[j] == row[1..][j - 1];
      if row[0] <= m then row[0] else m
  }

  /** The smallest weight of the matrix. */
  function MinWeight(graph: seq<seq<int>>): (m: int)
    requires |graph| >= 1 && Square(graph)
    ensures forall i, j :: 0 <= i < |graph| && 0 <= j < |graph| ==> m <= graph[i][j]
  {
    var mins := seq(|graph|, i requires 0 <= i < |graph| => RowMin(graph[i]));
    assert forall i, j :: 0 <= i < |graph| && 0 <= j < |graph| ==> mins[i] <= graph[i][j];
    RowMin(mins)
  }

  /** k times m, as a sum. */
  function Times(k: nat, m: int): int {
    if k == 0 then 0 else Times(k - 1, m) + m
  }

  /** A walk through k cities costs at least k - 1 times the smallest weight. */
  lemma {:induction false} WalkCostBound(path: seq<int>, graph: seq<seq<int>>)
    requires |graph| >= 1 && Square(graph) && Tour(path, graph)
    ensures WalkCost(path, graph) >= Times(|path| - 1, MinWeight(graph))
  {
    if |path| > 1 {
      var front := path[..|path| - 1];
      WalkCostBound(front, graph);
      assert graph[path[|path| - 2]][path[|path| - 1]] >= MinWeight(graph);
    }
  }

  /** A tour of k cities costs at least k times the smallest weight, which
      bounds the number of improving moves. */
  lemma CostBound(path: seq<int>, graph: seq<seq<int>>)
    requires |graph| >= 1 && Square(graph) && Tour(path, graph)
    ensures CyclicCost(path, graph) >= Times(|path|, MinWeight(graph))
  {
    WalkCostBound(path, graph);
    assert graph[path[|path| - 1]][path[0]] >= MinWeight(graph);
  }

  /** No swap of two positions gives a strictly cheaper tour. */
  ghost predicate SwapOptimal(path: seq<int>, graph: seq<seq<int>>)
    requires Square(graph) && Tour(path, graph)
  {
    forall i, j :: 0 <= i < j < |path| ==> CyclicCost(Swap(path, i, j), graph) >= CyclicCost(path, graph)
  }

  /** Python's `hill_climbing_tsp(graph)` from the shuffled tour `init`:
      passes over all pairs i < j accept every swap that lowers the cost,
      until a whole pass accepts none. */
  method HillClimbing(graph: seq<seq<int>>, init: seq<int>) returns (path: seq<int>, cost: int)
    requires |graph| >= 1 && Square(graph) && IsPermutation(init, |graph|)
    ensures IsPermutation(path, |graph|) && Tour(path, graph)
    ensures cost == CyclicCost(path, graph)
    ensures Tour(init, graph) && cost <= CyclicCost(init, graph)
    ensures SwapOptimal(path, graph)
  {
    var V := |graph|;
    PermutationFacts(init, V);
    path := init;
    cost := CalculateCost(path, graph);
    ghost var bound := Times(V, MinWeight(graph));
    CostBound(path, graph);
    var improved := true;
    while improved
      invariant IsPermutation(path, V) && Tour(path, graph) && |path| == V
      invariant cost == CyclicCost(path, graph) && cost <= CyclicCost(init, graph) && cost >= bound
      invariant !improved ==> SwapOptimal(path, graph)
      decreases cost - bound + (if improved then 1 else 0)
    {
      improved := false;
      ghost var passCost := cost;
      for i := 0 to V
        invariant IsPermutation(path, V) && Tour(path, graph) && |path| == V
        invariant cost == CyclicCost(path, graph) && cost <= passCost && cost >= bound
        invariant improved ==> cost < passCost
        invariant !improved ==> cost == passCost && SwappedBelow(path, graph, i)
      {
        path, cost, improved := ImproveAt(graph, path, cost, i, improved, bound);
        if !improved {
          SwappedBelowStep(path, graph, i);
        }
      }
    }
  }

  /** No swap of a position below i with a later one is cheaper. */
  ghost predicate SwappedBelow(path: seq<int>, graph: seq<seq<int>>, i: int)
    requires Square(graph) && Tour(path, graph)
  {
    forall i', j :: 0 <= i' < i && i' < j < |path| ==> CyclicCost(Swap(path, i', j), graph) >= CyclicCost(path, graph)
  }

  /** Extending the swaps checked from positions below i to position i. */
  lemma SwappedBelowStep(path: seq<int>, graph: seq<seq<int>>, i: int)
    requires Square(graph) && Tour(path, graph) && 0 <= i
    requires SwappedBelow(path, graph, i)
    requires SwappedAt(path, graph, i, |path|)
    ensures SwappedBelow(path, graph, i + 1)
  {
  }

  /** No swap of position i with a later position below j is cheaper. */
  ghost predicate SwappedAt(path: seq<int>, graph: seq<seq<int>>, i: int, j: int)
    requires Square(graph) && Tour(path, graph)
  {
    forall j' :: 0 <= i < j' < j && j' < |path| ==> CyclicCost(Swap(path, i, j'), graph) >= CyclicCost(path, graph)
  }

  /** Extending the swaps of position i checked below j to position j. */
  lemma SwappedAtStep(path: seq<int>, graph: seq<seq<int>>, i: int, j: int)
    requires Square(graph) && Tour(path, graph) && 0 <= i < j < |path|
    requires SwappedAt(path, graph, i, j)
    requires CyclicCost(Swap(path, i, j), graph) >= CyclicCost(path, graph)
    ensures SwappedAt(path, graph, i, j + 1)
  {
  }

  /** A tour of all cities of the graph with its cost, which is bounded
      below by the number of cities times the smallest weight. */
  ghost predicate Costed(path: seq<int>, cost: int, graph: seq<seq<int>>)
  {
    |graph| >= 1 && Square(graph) && IsPermutation(path, |graph|) && Tour(path, graph) && |path| == |graph|
    && cost == CyclicCost(path, graph) && cost >= Times(|graph|, MinWeight(graph))
  }

  /** One step `j` of the inner loop: the tour with positions i and j
      swapped replaces the current one exactly when it is cheaper. */
  method TrySwap(graph: seq<seq<int>>, path0: seq<int>, cost0: int, i: int, j: int)
    returns (path: seq<int>, cost: int)
    requires |graph| >= 1 && Square(graph) && IsPermutation(path0, |graph|) && Tour(path0, graph)
    requires cost0 == CyclicCost(path0, graph) && 0 <= i < j < |graph|
    ensures Costed(path, cost, graph)
    ensures cost < cost0 || (path == path0 && cost == cost0 && CyclicCost(Swap(path0, i, j), graph) >= cost0)
  {
    var V := |graph|;
    PermutationFacts(path0, V);
    var neighbor := Swap(path0, i, j);
    SwapIsPermutation(path0, V, i, j);
    PermutationFacts(neighbor, V);
    var neighborCost := CalculateCost(neighbor, graph);
    if neighborCost < cost0 {
      path, cost := neighbor, neighborCost;
    } else {
      path, cost := path0, cost0;
    }
    CostBound(path, graph);
  }

  /** The state of the inner loop of pass position i before step j, started
      from the tour path0 of cost cost0 with the flag improved0. */
  ghost predicate Scanned(graph: seq<seq<int>>, path0: seq<int>, cost0: int, i: int, improved0: bool,
                          path: seq<int>, cost: int, improved: bool, j: int)
  {
    Costed(path, cost, graph) && cost <= cost0
    && (improved <==> improved0 || cost < cost0)
    && (cost == cost0 ==> path == path0)
    && (!improved0 && !improved ==> SwappedAt(path, graph, i, j))
  }

  /** The body of the inner loop for one j. */
  method ScanStep(graph: seq<seq<int>>, ghost path0: seq<int>, ghost cost0: int, i: int, ghost improved0: bool,
                  path1: seq<int>, cost1: int, improved1: bool, j: int)
    returns (path: seq<int>, cost: int, improved: bool)
    requires Scanned(graph, path0, cost0, i, improved0, path1, cost1, improved1, j) && 0 <= i < j < |graph|
    ensures Scanned(graph, path0, cost0, i, improved0, path, cost, improved, j + 1)
  {
    path, cost := TrySwap(graph, path1, cost1, i, j);
    improved := improved1;
    if cost < cost1 {
      improved := true;
    } else if !improved0 && !improved1 {
      SwappedAtStep(path, graph, i, j);
    }
  }

  /** Python's inner loop `for j in range(i + 1, V)` of one pass: every swap
      of position i with a later position is tried against the current
      tour, and accepted when it is cheaper. */
  method ImproveAt(graph: seq<seq<int>>, path0: seq<int>, cost0: int, i: int, improved0: bool, ghost bound: int)
    returns (path: seq<int>, cost: int, improved: bool)
    requires |graph| >= 1 && Square(graph) && IsPermutation(path0, |graph|) && Tour(path0, graph)
    requires cost0 == CyclicCost(path0, graph) && bound == Times(|graph|, MinWeight(graph)) && 0 <= i < |graph|
    ensures IsPermutation(path, |graph|) && Tour(path, graph) && |path| == |graph|
    ensures cost == CyclicCost(path, graph) && cost <= cost0 && cost >= bound
    ensures improved <==> improved0 || cost < cost0
    ensures cost == cost0 ==> path == path0
    ensures !improved0 && !improved ==> SwappedAt(path, graph, i, |path|)
  {
    var V := |graph|;
    PermutationFacts(path0, V);
    path, cost, improved := path0, cost0, improved0;
    CostBound(path, graph);
    for j := i + 1 to V
      invariant Scanned(graph, path0, cost0, i, improved0, path, cost, improved, j)
    {
      path, cost, improved := ScanStep(graph, path0, cost0, i, improved0, path, cost, improved, j);
    }
  }
}
