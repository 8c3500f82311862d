/** Breadth-first and depth-first traversal of a graph given as a map from
    each node to the list of its neighbours. Both keep a list of pending
    nodes and a visited set; a node is emitted the first time it is taken
    from the pending list, and then its not yet visited neighbours are
    added. Breadth-first takes from the front of a queue, depth-first from
    the top of a stack onto which the neighbours are pushed in reverse. */
module GraphTraversal {
  import opened Sequences

  type Graph<N> = map<N, seq<N>>

  /** Which end of the pending list the next node is taken from. */
  datatype Discipline = Fifo | Lifo

  /** What a traversal emits: the visit order, or the order emitted up to
      and including a node that is not a key of the map, where Python
      raises `KeyError`. */
  datatype Outcome<N> = Traversal(order: seq<N>) | KeyError(order: seq<N>, key: N)

  /** A walk: consecutive nodes are joined by an edge of the map. */
  ghost predicate IsWalk<N(!new)>(graph: Graph<N>, w: seq<N>) {
    |w| >= 1 && forall k :: 0 <= k < |w| - 1 ==> w[k] in graph && w[k + 1] in graph[w[k]]
  }

  ghost predicate Reachable<N(!new)>(graph: Graph<N>, start: N, x: N) {
    exists w :: IsWalk(graph, w) && w[0] == start && w[|w| - 1] == x
  }

  /** Every neighbour is itself a key of the map. */
  ghost predicate Closed<N(!new)>(graph: Graph<N>) {
    forall v, nb :: v in graph && nb in graph[v] ==> nb in graph
  }

  /** `[nb for nb in ns if nb not in visited]`. */
  function Unvisited<N(==, !new)>(ns: seq<N>, visited: set<N>): (r: seq<N>)
    ensures |r| <= |ns|
    ensures forall x :: x in r <==> x in ns && x !in visited
  {
    if ns == [] then []
    else
      assert ns == [ns[0]] + ns[1..];
      if ns[0] in visited then Unvisited(ns[1..], visited)
      else [ns[0]] + Unvisited(ns[1..], visited)
  }

  /** The node taken next: `popleft()` of a queue, `pop()` of a stack. */
  function Take<N(==, !new)>(d: Discipline, pending: seq<N>): (x: N)
    requires |pending| > 0
    ensures x in pending
  {
    if d == Fifo then pending[0] else pending[|pending| - 1]
  }

  /** The pending list once the next node is taken. */
  function Rest<N(==, !new)>(d: Discipline, pending: seq<N>): (r: seq<N>)
    requires |pending| > 0
    ensures |r| == |pending| - 1
  {
    if d == Fifo then pending[1..] else pending[..|pending| - 1]
  }

  /** `queue.extend(added)` or `stack.extend(reversed(added))`. */
  function Push<N(==, !new)>(d: Discipline, rest: seq<N>, added: seq<N>): (r: seq<N>)
    ensures |r| == |rest| + |added| && r[..|rest|] == rest
  {
    if d == Fifo then rest + added else rest + Reverse(added)
  }

  /** Taking the next node leaves the other pending nodes. */
  lemma RestMembers<N(!new)>(d: Discipline, pending: seq<N>)
    requires |pending| > 0
    ensures forall x :: x in pending <==> x == Take(d, pending) || x in Rest(d, pending)
  {
    if d == Fifo {
      assert pending == [pending[0]] + pending[1..];
    } else {
      assert pending == pending[..|pending| - 1] + [pending[|pending| - 1]];
    }
  }

  /** Pushing adds exactly the given nodes, in whichever order. */
  lemma PushMembers<N(!new)>(d: Discipline, rest: seq<N>, added: seq<N>)
    ensures forall x :: x in Push(d, rest, added) <==> x in rest || x in added
  {
    var back := Reverse(added);
    forall x | x in added
      ensures x in back
    {
      var k :| 0 <= k < |added| && added[k] == x;
      assert back[|added| - 1 - k] == x;
    }
  }

  /** Visiting a key not yet visited leaves fewer keys to visit. */
  lemma FewerUnvisited<N>(keys: set<N>, visited: set<N>, node: N)
    requires node in keys && node !in visited
    ensures |keys - (visited + {node})| < |keys - visited|
  {
    assert keys - visited == (keys - (visited + {node})) + {node};
  }

  /** The traversal loop run to the end from a given pending list, visited
      set and emitted order. */
  ghost function Traverse<N(!new)>(d: Discipline, graph: Graph<N>, start: N, pending: seq<N>, visited: set<N>, order: seq<N>): (r: Outcome<N>)
    ensures |order| <= |r.order| && r.order[..|order|] == order
    decreases |graph.Keys - visited|, |pending|
  {
    if pending == [] then Traversal(order)
    else
      var node := Take(d, pending);
      var rest := Rest(d, pending);
      if node in visited then Traverse(d, graph, start, rest, visited, order)
      else if node !in graph then KeyError(order + [node], node)
      else
        var visited' := visited + {node};
        var pending' := Push(d, rest, Unvisited(graph[node], visited'));
        FewerUnvisited(graph.Keys, visited, node);
        Traverse(d, graph, start, pending', visited', order + [node])
  }

  /** Python's `bfs(graph, start)`, with the printed nodes returned. */
  method Bfs<N(==, !new)>(graph: Graph<N>, start: N) returns (result: Outcome<N>)
    ensures result == Traverse(Fifo, graph, start, [start], {}, [])
    ensures Sound(graph, start, result)
    ensures Closed(graph) && start in graph ==> result.Traversal?
  {
    var queue, visited, order := [start], {}, [];
    while queue != []
      invariant Traverse(Fifo, graph, start, queue, visited, order) == Traverse(Fifo, graph, start, [start], {}, [])
      decreases |graph.Keys - visited|, |queue|
    {
      var node := queue[0];
      assert node == Take(Fifo, queue);
      queue := Rest(Fifo, queue);
      if node !in visited {
        order := order + [node];
        visited := visited + {node};
        if node !in graph {
          result := KeyError(order, node);
          Facts(Fifo, graph, start);
          return;
        }
        queue := queue + Unvisited(graph[node], visited);
        FewerUnvisited(graph.Keys, visited - {node}, node);
      }
    }
    result := Traversal(order);
    Facts(Fifo, graph, start);
  }

  /** Python's `dfs(graph, start)`, with the printed nodes returned. */
  method Dfs<N(==, !new)>(graph: Graph<N>, start: N) returns (result: Outcome<N>)
    ensures result == Traverse(Lifo, graph, start, [start], {}, [])
    ensures Sound(graph, start, result)
    ensures Closed(graph) && start in graph ==> result.Traversal?
  {
    var stack, visited, order := [start], {}, [];
    while stack != []
      invariant Traverse(Lifo, graph, start, stack, visited, order) == Traverse(Lifo, graph, start, [start], {}, [])
      decreases |graph.Keys - visited|, |stack|
    {
      var node := stack[|stack| - 1];
      assert node == Take(Lifo, stack);
      stack := Rest(Lifo, stack);
      if node !in visited {
        order := order + [node];
        visited := visited + {node};
        if node !in graph {
          result := KeyError(order, node);
          Facts(Lifo, graph, start);
          return;
        }
        stack := stack + Reverse(Unvisited(graph[node], visited));
        FewerUnvisited(graph.Keys, visited - {node}, node);
      }
    }
    result := Traversal(order);
    Facts(Lifo, graph, start);
  }

  /** What holds of every state the traversal loop passes through. */
  ghost predicate Invariant<N(!new)>(graph: Graph<N>, start: N, pending: seq<N>, visited: set<N>, order: seq<N>) {
    && (forall x :: x in order <==> x in visited)
    && NoDup(order)
    && (order == [] ==> pending == [start] && visited == {})
    && (order != [] ==> order[0] == start)
    && (forall x :: x in visited ==> x in graph && Reachable(graph, start, x))
    && (forall x :: x in pending ==> Reachable(graph, start, x))
    && (forall v, nb :: v in visited && v in graph && nb in graph[v] ==> nb in visited || nb in pending)
    && (start in visited || start in pending)
  }

  /** The properties of a traversal from `start` alone. */
  lemma Facts<N(!new)>(d: Discipline, graph: Graph<N>, start: N)
    ensures Sound(graph, start, Traverse(d, graph, start, [start], {}, []))
    ensures Closed(graph) && start in graph ==> Traverse(d, graph, start, [start], {}, []).Traversal?
  {
    assert IsWalk(graph, [start]);
    assert Invariant(graph, start, [start], {}, []);
    TraverseSound(d, graph, start, [start], {}, []);
    if Closed(graph) && start in graph {
      TraverseTotal(d, graph, start, [start], {}, []);
    }
  }

  lemma ReachableNeighbour<N(!new)>(graph: Graph<N>, start: N, v: N, nb: N)
    requires Reachable(graph, start, v) && v in graph && nb in graph[v]
    ensures Reachable(graph, start, nb)
  {
    var w :| IsWalk(graph, w) && w[0] == start && w[|w| - 1] == v;
    var w' := w + [nb];
    assert IsWalk(graph, w') by {
      forall k | 0 <= k < |w'| - 1
        ensures w'[k] in graph && w'[k + 1] in graph[w'[k]]
      {
        if k < |w| - 1 {
          assert w'[k] == w[k] && w'[k + 1] == w[k + 1];
        }
      }
    }
    assert w'[0] == start && w'[|w'| - 1] == nb;
  }

  /** A walk from a member of a set closed under edges stays in the set. */
  lemma {:induction false} WalkStaysIn<N(!new)>(graph: Graph<N>, w: seq<N>, s: set<N>, k: nat)
    requires IsWalk(graph, w) && w[0] in s && k < |w|
    requires forall v, nb :: v in s && v in graph && nb in graph[v] ==> nb in s
    ensures w[k] in s
  {
    if k > 0 {
      WalkStaysIn(graph, w, s, k - 1);
    }
  }

  /** A set holding `start` and closed under edges holds every node
      reachable from `start`. */
  lemma ClosedContainsReachable<N(!new)>(graph: Graph<N>, start: N, s: set<N>)
    requires start in s
    requires forall v, nb :: v in s && v in graph && nb in graph[v] ==> nb in s
    ensures forall x :: Reachable(graph, start, x) ==> x in s
  {
    forall x | Reachable(graph, start, x)
      ensures x in s
    {
      var w :| IsWalk(graph, w) && w[0] == start && w[|w| - 1] == x;
      WalkStaysIn(graph, w, s, |w| - 1);
    }
  }

  /** Appending a node not yet emitted keeps the order free of repeats. */
  lemma AppendDistinct<N>(order: seq<N>, node: N)
    requires NoDup(order) && node !in order
    ensures NoDup(order + [node]) && forall x :: x in order + [node] <==> x in order || x == node
  {
    var order' := order + [node];
    forall i, j | 0 <= i < j < |order'|
      ensures order'[i] != order'[j]
    {
      assert order'[i] == order[i] && order[i] in order;
    }
  }

  /** Taking an already visited node keeps the invariant. */
  lemma SkipStep<N(!new)>(d: Discipline, graph: Graph<N>, start: N, pending: seq<N>, visited: set<N>, order: seq<N>)
    requires Invariant(graph, start, pending, visited, order)
    requires |pending| > 0 && Take(d, pending) in visited
    ensures Invariant(graph, start, Rest(d, pending), visited, order)
  {
    RestMembers(d, pending);
  }

  /** Emitting a new node that is a key, and adding its unvisited
      neighbours, keeps the invariant. */
  lemma VisitStep<N(!new)>(d: Discipline, graph: Graph<N>, start: N, pending: seq<N>, visited: set<N>, order: seq<N>)
    requires Invariant(graph, start, pending, visited, order)
    requires |pending| > 0 && Take(d, pending) !in visited && Take(d, pending) in graph
    ensures var node := Take(d, pending);
      Invariant(graph, start, Push(d, Rest(d, pending), Unvisited(graph[node], visited + {node})), visited + {node}, order + [node])
  {
    var node := Take(d, pending);
    var rest := Rest(d, pending);
    var visited' := visited + {node};
    var added := Unvisited(graph[node], visited');
    var pending' := Push(d, rest, added);
    var order' := order + [node];
    RestMembers(d, pending);
    PushMembers(d, rest, added);
    forall x | x in added
      ensures Reachable(graph, start, x)
    {
      ReachableNeighbour(graph, start, node, x);
    }
    AppendDistinct(order, node);
    if order == [] {
      assert node == start;
    }
  }

  /** A traversal outcome emits `start` first, emits no node twice and only
      reachable ones; a finished traversal emits every reachable node, and
      a failed one stops at a node that is not a key. */
  ghost predicate Sound<N(!new)>(graph: Graph<N>, start: N, r: Outcome<N>) {
    && |r.order| >= 1 && r.order[0] == start && NoDup(r.order)
    && (forall x :: x in r.order ==> Reachable(graph, start, x))
    && (r.Traversal? ==> forall x :: x in r.order <==> Reachable(graph, start, x))
    && (r.KeyError? ==> r.key !in graph && r.order[|r.order| - 1] == r.key)
  }

  /** Every run of the loop from a state meeting the invariant ends soundly. */
  lemma {:induction false} TraverseSound<N(!new)>(d: Discipline, graph: Graph<N>, start: N, pending: seq<N>, visited: set<N>, order: seq<N>)
    requires Invariant(graph, start, pending, visited, order)
    ensures Sound(graph, start, Traverse(d, graph, start, pending, visited, order))
    decreases |graph.Keys - visited|, |pending|
  {
    if pending == [] {
      EndSound(graph, start, visited, order);
    } else {
      var node := Take(d, pending);
      var rest := Rest(d, pending);
      if node in visited {
        SkipStep(d, graph, start, pending, visited, order);
        TraverseSound(d, graph, start, rest, visited, order);
      } else if node !in graph {
        FailSound(d, graph, start, pending, visited, order);
      } else {
        var visited' := visited + {node};
        var pending' := Push(d, rest, Unvisited(graph[node], visited'));
        VisitStep(d, graph, start, pending, visited, order);
        FewerUnvisited(graph.Keys, visited, node);
        TraverseSound(d, graph, start, pending', visited', order + [node]);
      }
    }
  }

  /** A loop that ends with nothing pending has emitted every reachable
      node. */
  lemma EndSound<N(!new)>(graph: Graph<N>, start: N, visited: set<N>, order: seq<N>)
    requires Invariant(graph, start, [], visited, order)
    ensures Sound(graph, start, Traversal(order))
  {
    ClosedContainsReachable(graph, start, visited);
  }

  /** A loop that takes a new node that is not a key stops soundly. */
  lemma FailSound<N(!new)>(d: Discipline, graph: Graph<N>, start: N, pending: seq<N>, visited: set<N>, order: seq<N>)
    requires Invariant(graph, start, pending, visited, order)
    requires |pending| > 0 && Take(d, pending) !in visited && Take(d, pending) !in graph
    ensures Sound(graph, start, KeyError(order + [Take(d, pending)], Take(d, pending)))
  {
    var node := Take(d, pending);
    AppendDistinct(order, node);
    if order == [] {
      assert node == start;
    }
  }

  /** When every neighbour is a key and so is `start`, no `KeyError` is
      raised. */
  lemma {:induction false} TraverseTotal<N(!new)>(d: Discipline, graph: Graph<N>, start: N, pending: seq<N>, visited: set<N>, order: seq<N>)
    requires Closed(graph) && forall x :: x in pending ==> x in graph
    ensures Traverse(d, graph, start, pending, visited, order).Traversal?
    decreases |graph.Keys - visited|, |pending|
  {
    if pending != [] {
      var node := Take(d, pending);
      var rest := Rest(d, pending);
      RestMembers(d, pending);
      if node in visited {
        TraverseTotal(d, graph, start, rest, visited, order);
      } else {
        var visited' := visited + {node};
        var pending' := Push(d, rest, Unvisited(graph[node], visited'));
        PushMembers(d, rest, Unvisited(graph[node], visited'));
        FewerUnvisited(graph.Keys, visited, node);
        TraverseTotal(d, graph, start, pending', visited', order + [node]);
      }
    }
  }

  /** The six-node example graph. */
  function ExampleGraph(): Graph<char> {
    map['A' := "BC", 'B' := "FDE", 'C' := "AF", 'D' := "B", 'E' := "BF", 'F' := "CE"]
  }

  /** When none of the neighbours is visited, all are added, in order. */
  lemma {:induction false} UnvisitedNone<N(!new)>(ns: seq<N>, visited: set<N>)
    requires forall k :: 0 <= k < |ns| ==> ns[k] !in visited
    ensures Unvisited(ns, visited) == ns
  {
    if ns != [] {
      UnvisitedNone(ns[1..], visited);
    }
  }

  /** One step of the loop that emits a new node which is a key, with the
      node, the neighbours it adds and the next state given. */
  lemma VisitUnfold<N(!new)>(d: Discipline, graph: Graph<N>, start: N, pending: seq<N>, visited: set<N>, order: seq<N>,
                             node: N, added: seq<N>, pending': seq<N>, visited': set<N>, order': seq<N>)
    requires |pending| > 0
    requires node == Take(d, pending) && node !in visited && node in graph
    requires visited' == visited + {node} && order' == order + [node]
    requires added == Unvisited(graph[node], visited') && pending' == Push(d, Rest(d, pending), added)
    ensures Traverse(d, graph, start, pending, visited, order) == Traverse(d, graph, start, pending', visited', order')
  {
  }

  /** One step of the loop that takes an already visited node. */
  lemma SkipUnfold<N(!new)>(d: Discipline, graph: Graph<N>, start: N, pending: seq<N>, visited: set<N>, order: seq<N>)
    requires |pending| > 0
    requires Take(d, pending) in visited
    ensures Traverse(d, graph, start, pending, visited, order) == Traverse(d, graph, start, Rest(d, pending), visited, order)
  {
  }

  /** Breadth-first from A: A is emitted first. */
  lemma BfsTrace1()
    ensures Traverse(Fifo, ExampleGraph(), 'A', "A", {}, "")
         == Traverse(Fifo, ExampleGraph(), 'A', "BC", {'A'}, "A")
  {
    var g := ExampleGraph();
    UnvisitedNone("BC", {'A'});
    assert Unvisited("BC", {'A'}) == "BC";
    VisitUnfold(Fifo, g, 'A', "A", {}, "", 'A', "BC", "BC", {'A'}, "A");
  }

  /** Then B. */
  lemma BfsTrace2()
    ensures Traverse(Fifo, ExampleGraph(), 'A', "BC", {'A'}, "A")
         == Traverse(Fifo, ExampleGraph(), 'A', "CFDE", {'A', 'B'}, "AB")
  {
    var g := ExampleGraph();
    UnvisitedNone("FDE", {'A', 'B'});
    assert Unvisited("FDE", {'A', 'B'}) == "FDE";
    VisitUnfold(Fifo, g, 'A', "BC", {'A'}, "A", 'B', "FDE", "CFDE", {'A', 'B'}, "AB");
  }

  /** Then C, which adds F again. */
  lemma BfsTrace3()
    ensures Traverse(Fifo, ExampleGraph(), 'A', "CFDE", {'A', 'B'}, "AB")
         == Traverse(Fifo, ExampleGraph(), 'A', "FDEF", {'A', 'B', 'C'}, "ABC")
  {
    var g := ExampleGraph();
    UnvisitedNone("F", {'A', 'B', 'C'});
    assert Unvisited("AF", {'A', 'B', 'C'}) == "F";
    VisitUnfold(Fifo, g, 'A', "CFDE", {'A', 'B'}, "AB", 'C', "F", "FDEF", {'A', 'B', 'C'}, "ABC");
  }

  /** Then F, which adds E again. */
  lemma BfsTrace4()
    ensures Traverse(Fifo, ExampleGraph(), 'A', "FDEF", {'A', 'B', 'C'}, "ABC")
         == Traverse(Fifo, ExampleGraph(), 'A', "DEFE", {'A', 'B', 'C', 'F'}, "ABCF")
  {
    var g := ExampleGraph();
    UnvisitedNone("E", {'A', 'B', 'C', 'F'});
    assert Unvisited("CE", {'A', 'B', 'C', 'F'}) == "E";
    VisitUnfold(Fifo, g, 'A', "FDEF", {'A', 'B', 'C'}, "ABC", 'F', "E", "DEFE", {'A', 'B', 'C', 'F'}, "ABCF");
  }

  /** Then D and E, which add nothing. */
  lemma BfsTrace5()
    ensures Traverse(Fifo, ExampleGraph(), 'A', "DEFE", {'A', 'B', 'C', 'F'}, "ABCF")
         == Traverse(Fifo, ExampleGraph(), 'A', "FE", {'A', 'B', 'C', 'F', 'D', 'E'}, "ABCFDE")
  {
    var g := ExampleGraph();
    VisitUnfold(Fifo, g, 'A', "DEFE", {'A', 'B', 'C', 'F'}, "ABCF", 'D', "", "EFE", {'A', 'B', 'C', 'F', 'D'}, "ABCFD");
    VisitUnfold(Fifo, g, 'A', "EFE", {'A', 'B', 'C', 'F', 'D'}, "ABCFD", 'E', "", "FE", {'A', 'B', 'C', 'F', 'D', 'E'}, "ABCFDE");
  }

  /** Breadth-first from A emits A B C F D E; the second F and E are
      skipped. */
  lemma BfsExample()
    ensures Traverse(Fifo, ExampleGraph(), 'A', "A", {}, "") == Traversal("ABCFDE")
  {
    var g := ExampleGraph();
    var all := {'A', 'B', 'C', 'F', 'D', 'E'};
    BfsTrace1();
    BfsTrace2();
    BfsTrace3();
    BfsTrace4();
    BfsTrace5();
    SkipUnfold(Fifo, g, 'A', "FE", all, "ABCFDE");
    SkipUnfold(Fifo, g, 'A', "E", all, "ABCFDE");
  }

  /** Depth-first from A: A, whose neighbours are stacked in reverse. */
  lemma DfsTrace1()
    ensures Traverse(Lifo, ExampleGraph(), 'A', "A", {}, "")
         == Traverse(Lifo, ExampleGraph(), 'A', "CB", {'A'}, "A")
  {
    var g := ExampleGraph();
    UnvisitedNone("BC", {'A'});
    assert Unvisited("BC", {'A'}) == "BC" && Reverse("BC") == "CB";
    VisitUnfold(Lifo, g, 'A', "A", {}, "", 'A', "BC", "CB", {'A'}, "A");
  }

  /** Then B, from the top of the stack. */
  lemma DfsTrace2()
    ensures Traverse(Lifo, ExampleGraph(), 'A', "CB", {'A'}, "A")
         == Traverse(Lifo, ExampleGraph(), 'A', "CEDF", {'A', 'B'}, "AB")
  {
    var g := ExampleGraph();
    UnvisitedNone("FDE", {'A', 'B'});
    assert Unvisited("FDE", {'A', 'B'}) == "FDE" && Reverse("FDE") == "EDF";
    VisitUnfold(Lifo, g, 'A', "CB", {'A'}, "A", 'B', "FDE", "CEDF", {'A', 'B'}, "AB");
  }

  /** Then F, stacking E and C. */
  lemma DfsTrace3()
    ensures Traverse(Lifo, ExampleGraph(), 'A', "CEDF", {'A', 'B'}, "AB")
         == Traverse(Lifo, ExampleGraph(), 'A', "CEDEC", {'A', 'B', 'F'}, "ABF")
  {
    var g := ExampleGraph();
    UnvisitedNone("CE", {'A', 'B', 'F'});
    assert Unvisited("CE", {'A', 'B', 'F'}) == "CE" && Reverse("CE") == "EC";
    VisitUnfold(Lifo, g, 'A', "CEDF", {'A', 'B'}, "AB", 'F', "CE", "CEDEC", {'A', 'B', 'F'}, "ABF");
  }

  /** Then C, which adds nothing. */
  lemma DfsTrace4()
    ensures Traverse(Lifo, ExampleGraph(), 'A', "CEDEC", {'A', 'B', 'F'}, "ABF")
         == Traverse(Lifo, ExampleGraph(), 'A', "CEDE", {'A', 'B', 'F', 'C'}, "ABFC")
  {
    var g := ExampleGraph();
    assert Unvisited("AF", {'A', 'B', 'F', 'C'}) == "";
    VisitUnfold(Lifo, g, 'A', "CEDEC", {'A', 'B', 'F'}, "ABF", 'C', "", "CEDE", {'A', 'B', 'F', 'C'}, "ABFC");
  }

  /** Then E and D, which add nothing either. */
  lemma DfsTrace5()
    ensures Traverse(Lifo, ExampleGraph(), 'A', "CEDE", {'A', 'B', 'F', 'C'}, "ABFC")
         == Traverse(Lifo, ExampleGraph(), 'A', "CE", {'A', 'B', 'F', 'C', 'E', 'D'}, "ABFCED")
  {
    var g := ExampleGraph();
    assert Unvisited("BF", {'A', 'B', 'F', 'C', 'E'}) == "";
    VisitUnfold(Lifo, g, 'A', "CEDE", {'A', 'B', 'F', 'C'}, "ABFC", 'E', "", "CED", {'A', 'B', 'F', 'C', 'E'}, "ABFCE");
    assert Unvisited("B", {'A', 'B', 'F', 'C', 'E', 'D'}) == "";
    VisitUnfold(Lifo, g, 'A', "CED", {'A', 'B', 'F', 'C', 'E'}, "ABFCE", 'D', "", "CE", {'A', 'B', 'F', 'C', 'E', 'D'}, "ABFCED");
  }

  /** Depth-first from A emits A B F C E D; the stacked E and C are
      skipped. */
  lemma DfsExample()
    ensures Traverse(Lifo, ExampleGraph(), 'A', "A", {}, "") == Traversal("ABFCED")
  {
    var g := ExampleGraph();
    var all := {'A', 'B', 'F', 'C', 'E', 'D'};
    DfsTrace1();
    DfsTrace2();
    DfsTrace3();
    DfsTrace4();
    DfsTrace5();
    SkipUnfold(Lifo, g, 'A', "CE", all, "ABFCED");
    SkipUnfold(Lifo, g, 'A', "C", all, "ABFCED");
  }
}
