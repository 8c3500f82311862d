/** Pareto dominance between objective vectors and the fast non-dominated
    sort that peels a population into fronts. An individual is named by its
    index in `values`, the list of objective vectors (both minimised). */
module Dominance {
  import opened Sequences

  /** Python's `dominates(u, v)`: u is no worse on both objectives and
      strictly better on at least one. */
  predicate Dominates(u: (int, int), v: (int, int)): (r: bool)
    ensures r ==> u.0 + u.1 < v.0 + v.1
  {
    (u.0 <= v.0 && u.1 <= v.1) && (u.0 < v.0 || u.1 < v.1)
  }

  lemma DominatesIrreflexive(u: (int, int))
    ensures !Dominates(u, u)
  {
  }

  lemma DominatesAsymmetric(u: (int, int), v: (int, int))
    requires Dominates(u, v)
    ensures !Dominates(v, u)
  {
  }

  lemma DominatesTransitive(u: (int, int), v: (int, int), w: (int, int))
    requires Dominates(u, v) && Dominates(v, w)
    ensures Dominates(u, w)
  {
  }

  /** x is a member of one of the fronts 0 .. k-1. */
  ghost predicate InFrontBelow(fronts: seq<seq<int>>, k: int, x: int)
    requires 0 <= k <= |fronts|
  {
    exists k' :: 0 <= k' < k && x in fronts[k']
  }

  /** Some member of `front` dominates individual y. */
  ghost predicate DominatedFrom(values: seq<(int, int)>, front: seq<int>, y: int) {
    exists x :: x in front && 0 <= x < |values| && 0 <= y < |values| && Dominates(values[x], values[y])
  }

  /** What the sort promises: the fronts are non-empty and partition the
      indices of `values`; every member of front k > 0 is dominated by a member
      of front k - 1; whoever dominates a member of front k sits in an earlier
      front. */
  ghost predicate IsFrontSorting(values: seq<(int, int)>, fronts: seq<seq<int>>) {
    && (forall k :: 0 <= k < |fronts| ==> fronts[k] != [] && NoDup(fronts[k]))
    && MembersInRange(values, fronts)
    && (forall x :: 0 <= x < |values| ==> InFrontBelow(fronts, |fronts|, x))
    && Disjoint(fronts)
    && Chained(values, fronts)
    && DominatorsEarlier(values, fronts)
  }

  /** Every member of a front indexes `values`. */
  ghost predicate MembersInRange(values: seq<(int, int)>, fronts: seq<seq<int>>) {
    forall k, x :: 0 <= k < |fronts| && x in fronts[k] ==> 0 <= x < |values|
  }

  /** No individual sits in two fronts. */
  ghost predicate Disjoint(fronts: seq<seq<int>>) {
    forall k, k', x :: 0 <= k < k' < |fronts| && x in fronts[k] ==> x !in fronts[k']
  }

  /** Every member of front k > 0 is dominated by a member of front k - 1. */
  ghost predicate Chained(values: seq<(int, int)>, fronts: seq<seq<int>>) {
    forall k :: 1 <= k < |fronts| ==> Linked(values, fronts, k)
  }

  /** Every member of front k is dominated by a member of front k - 1. */
  ghost predicate Linked(values: seq<(int, int)>, fronts: seq<seq<int>>, k: int)
    requires 1 <= k < |fronts|
  {
    forall y :: y in fronts[k] ==> DominatedFrom(values, fronts[k - 1], y)
  }

  /** Whoever dominates a member of front k sits in a front before k. */
  ghost predicate DominatorsEarlier(values: seq<(int, int)>, fronts: seq<seq<int>>) {
    forall k :: 0 <= k < |fronts| ==> DominatorsBefore(values, fronts, k)
  }

  /** Whoever dominates a member of front k sits in a front before k. */
  ghost predicate DominatorsBefore(values: seq<(int, int)>, fronts: seq<seq<int>>, k: int)
    requires 0 <= k < |fronts|
  {
    forall x, y ::
      (y in fronts[k] && 0 <= x < |values| && 0 <= y < |values| && Dominates(values[x], values[y])) ==>
      InFrontBelow(fronts, k, x)
  }

  /** Individual q is dominated by nobody in the population. */
  ghost predicate Undominated(values: seq<(int, int)>, q: int)
    requires 0 <= q < |values|
  {
    forall x :: 0 <= x < |values| ==> !Dominates(values[x], values[q])
  }

  /** Front 0 is exactly the set of undominated individuals. */
  lemma FirstFrontIsUndominated(values: seq<(int, int)>, fronts: seq<seq<int>>)
    requires IsFrontSorting(values, fronts)
    requires |values| > 0
    ensures |fronts| > 0
    ensures forall q :: 0 <= q < |values| ==> (q in fronts[0] <==> Undominated(values, q))
  {
    assert InFrontBelow(fronts, |fronts|, 0);
    forall q | 0 <= q < |values| ensures q in fronts[0] <==> Undominated(values, q) {
      assert InFrontBelow(fronts, |fronts|, q);
      var k :| 0 <= k < |fronts| && q in fronts[k];
      if q in fronts[0] {
        assert DominatorsBefore(values, fronts, 0);
      } else {
        assert k > 0 && Linked(values, fronts, k);
        assert DominatedFrom(values, fronts[k - 1], q);
      }
    }
  }

  /** No member of a front dominates another member of the same front. */
  lemma NoDominanceWithinFront(values: seq<(int, int)>, fronts: seq<seq<int>>, k: int, x: int, y: int)
    requires IsFrontSorting(values, fronts)
    requires 0 <= k < |fronts| && x in fronts[k] && y in fronts[k]
    ensures !Dominates(values[x], values[y])
  {
    if Dominates(values[x], values[y]) {
      DominatorInEarlierFront(values, fronts, k, x, y);
    }
  }

  /** Whoever dominates a member of front k belongs to a front before k, and
      so not to front k itself. */
  lemma DominatorInEarlierFront(values: seq<(int, int)>, fronts: seq<seq<int>>, k: int, x: int, y: int)
    requires IsFrontSorting(values, fronts)
    requires 0 <= k < |fronts| && y in fronts[k] && 0 <= x < |values|
    requires Dominates(values[x], values[y])
    ensures x !in fronts[k]
  {
    assert DominatorsBefore(values, fronts, k);
    assert InFrontBelow(fronts, k, x);
    var k' :| 0 <= k' < k && x in fronts[k'];
  }

  /** An individual's front in one front sorting is no later than in another. */
  lemma {:induction false} LevelAtMost(values: seq<(int, int)>, A: seq<seq<int>>, B: seq<seq<int>>, x: int, k: int, j: int)
    requires Chained(values, A) && DominatorsEarlier(values, B)
    requires 0 <= k < |A| && x in A[k] && 0 <= j < |B| && x in B[j] && 0 <= x < |values|
    ensures k <= j
    decreases k
  {
    if k > 0 {
      var y := ChainedDominator(values, A, k, x);
      var j' := EarlierFront(values, B, j, x, y);
      LevelAtMost(values, A, B, y, k - 1, j');
    }
  }

  /** A member of front k > 0 of a chained sorting has a dominator in front k - 1. */
  lemma ChainedDominator(values: seq<(int, int)>, A: seq<seq<int>>, k: int, x: int) returns (y: int)
    requires Chained(values, A) && 1 <= k < |A| && x in A[k] && 0 <= x < |values|
    ensures y in A[k - 1] && 0 <= y < |values| && Dominates(values[y], values[x])
  {
    assert Linked(values, A, k);
    assert DominatedFrom(values, A[k - 1], x);
    y :| y in A[k - 1] && 0 <= y < |values| && Dominates(values[y], values[x]);
  }

  /** A dominator of a member of front j sits in some front j' < j. */
  lemma EarlierFront(values: seq<(int, int)>, B: seq<seq<int>>, j: int, x: int, y: int) returns (j': int)
    requires DominatorsEarlier(values, B) && 0 <= j < |B| && x in B[j]
    requires 0 <= x < |values| && 0 <= y < |values| && Dominates(values[y], values[x])
    ensures 0 <= j' < j && y in B[j']
  {
    assert DominatorsBefore(values, B, j);
    assert InFrontBelow(B, j, y);
    j' :| 0 <= j' < j && y in B[j'];
  }

  lemma LevelIn(values: seq<(int, int)>, A: seq<seq<int>>, B: seq<seq<int>>, k: int, x: int)
    requires IsFrontSorting(values, A) && IsFrontSorting(values, B)
    requires 0 <= k < |A| && x in A[k]
    ensures k < |B| && x in B[k]
  {
    assert InFrontBelow(B, |B|, x);
    var j :| 0 <= j < |B| && x in B[j];
    LevelAtMost(values, A, B, x, k, j);
    LevelAtMost(values, B, A, x, j, k);
  }

  /** The fronts are determined by the values: sorting the same objective
      list twice gives the same fronts, as sets, in the same order. */
  lemma FrontSortingUnique(values: seq<(int, int)>, A: seq<seq<int>>, B: seq<seq<int>>)
    requires IsFrontSorting(values, A) && IsFrontSorting(values, B)
    ensures |A| == |B|
    ensures forall k, x :: 0 <= k < |A| ==> (x in A[k] <==> x in B[k])
  {
    forall k, x | 0 <= k < |A| && x in A[k] ensures k < |B| && x in B[k] {
      LevelIn(values, A, B, k, x);
    }
    forall k, x | 0 <= k < |B| && x in B[k] ensures k < |A| && x in A[k] {
      LevelIn(values, B, A, k, x);
    }
    if |A| > 0 {
      LevelIn(values, A, B, |A| - 1, A[|A| - 1][0]);
    }
    if |B| > 0 {
      LevelIn(values, B, A, |B| - 1, B[|B| - 1][0]);
    }
  }

  // ---------------------------------------------------------------------------
  // Well-foundedness: dominance strictly lowers the sum of the objectives.

  function MinSum(values: seq<(int, int)>): (r: int)
    requires |values| > 0
    ensures forall i :: 0 <= i < |values| ==> r <= values[i].0 + values[i].1
  {
    if |values| == 1 then values[0].0 + values[0].1
    else
      var m := MinSum(values[1..]);
      if values[0].0 + values[0].1 < m then values[0].0 + values[0].1 else m
  }

  /** Every group of individuals containing q has a member that no one in
      the group dominates. */
  lemma {:induction false} HasUndominatedMember(values: seq<(int, int)>, s: set<int>, q: int)
    requires forall y :: y in s ==> 0 <= y < |values|
    requires q in s
    ensures exists m :: m in s && forall x :: x in s ==> !Dominates(values[x], values[m])
    decreases values[q].0 + values[q].1 - MinSum(values)
  {
    if exists x :: x in s && Dominates(values[x], values[q]) {
      var x :| x in s && Dominates(values[x], values[q]);
      HasUndominatedMember(values, s, x);
    }
  }

  // ---------------------------------------------------------------------------
  // Domination counts: n[q] in the sort is the number of dominators of q that
  // have not been released yet.

  /** The number of indices below m that dominate q and are not in `done`. */
  function Alive(values: seq<(int, int)>, q: int, done: set<int>, m: nat): nat
    requires 0 <= q < |values| && m <= |values|
  {
    if m == 0 then 0
    else Alive(values, q, done, m - 1) + (if Dominates(values[m - 1], values[q]) && m - 1 !in done then 1 else 0)
  }

  lemma {:induction false} AliveRelease(values: seq<(int, int)>, q: int, done: set<int>, p: int, m: nat)
    requires 0 <= q < |values| && m <= |values| && 0 <= p < |values| && p !in done
    ensures Alive(values, q, done, m) ==
            Alive(values, q, done + {p}, m) + (if Dominates(values[p], values[q]) && p < m then 1 else 0)
  {
    if m > 0 {
      AliveRelease(values, q, done, p, m - 1);
    }
  }

  lemma {:induction false} AliveZero(values: seq<(int, int)>, q: int, done: set<int>, m: nat)
    requires 0 <= q < |values| && m <= |values|
    ensures Alive(values, q, done, m) == 0 <==>
            forall x :: 0 <= x < m && Dominates(values[x], values[q]) ==> x in done
  {
    if m > 0 {
      AliveZero(values, q, done, m - 1);
    }
  }

  /** `row` lists, without repetition, exactly the individuals p dominates. */
  ghost predicate IsDominatedRow(values: seq<(int, int)>, p: int, row: seq<int>)
    requires 0 <= p < |values|
  {
    && (forall q :: q in row <==> 0 <= q < |values| && Dominates(values[p], values[q]))
    && NoDup(row)
  }

  ghost predicate DominatedSets(values: seq<(int, int)>, S: seq<seq<int>>) {
    && |S| == |values|
    && (forall p :: 0 <= p < |values| ==> IsDominatedRow(values, p, S[p]))
  }

  /** Individual x has no unreleased dominator left and sits in front k. */
  predicate Placed(n: seq<int>, rank: seq<int>, x: int, k: int) {
    0 <= x < |n| && x < |rank| && n[x] == 0 && rank[x] == k
  }

  /** `done` holds exactly the individuals placed before front f. */
  ghost predicate DoneBelow(n: seq<int>, rank: seq<int>, done: set<int>, f: int)
    requires |n| == |rank|
  {
    forall x :: x in done <==> 0 <= x < |n| && n[x] == 0 && rank[x] < f
  }

  /** Every member of a front is placed in it. */
  ghost predicate FrontsPlaced(n: seq<int>, rank: seq<int>, fronts: seq<seq<int>>) {
    forall k, x :: 0 <= k < |fronts| && x in fronts[k] ==> Placed(n, rank, x, k)
  }

  /** Every individual with count zero is in the front its rank names. */
  ghost predicate ZerosInFronts(n: seq<int>, rank: seq<int>, fronts: seq<seq<int>>)
    requires |n| == |rank|
  {
    forall x :: 0 <= x < |n| && n[x] == 0 ==> 0 <= rank[x] < |fronts| && x in fronts[rank[x]]
  }

  /** Every front is repetition-free and each member of a later front is
      dominated by a member of the front before. */
  ghost predicate Layered(values: seq<(int, int)>, fronts: seq<seq<int>>) {
    && (forall k :: 0 <= k < |fronts| ==> NoDup(fronts[k]))
    && Chained(values, fronts)
  }

  /** A dominator of an individual with count zero has count zero and a
      strictly smaller rank. */
  ghost predicate RankOrdered(values: seq<(int, int)>, n: seq<int>, rank: seq<int>)
    requires |n| == |values| && |rank| == |values|
  {
    forall x, y :: 0 <= x < |values| && 0 <= y < |values| && n[y] == 0 && Dominates(values[x], values[y]) ==>
      n[x] == 0 && rank[x] < rank[y]
  }

  /** The state of the sort at the head of its `while fronts[f]` loop, with
      f = |fronts| - 1 and `done` the members of the fronts before f. An index
      x is placed in a front exactly when n[x] == 0, and then rank[x] names it. */
  ghost predicate Stage(values: seq<(int, int)>, S: seq<seq<int>>, n: seq<int>, rank: seq<int>,
                        fronts: seq<seq<int>>, done: set<int>)
  {
    var N := |values|;
    && DominatedSets(values, S)
    && |n| == N && |rank| == N && |fronts| >= 1
    && DoneBelow(n, rank, done, |fronts| - 1)
    && (forall q :: 0 <= q < N ==> n[q] == Alive(values, q, done, N))
    && FrontsPlaced(n, rank, fronts)
    && ZerosInFronts(n, rank, fronts)
    && Layered(values, fronts)
    && RankOrdered(values, n, rank)
  }

  /** One row of the first loop of `fast_sort`: the individuals p dominates,
      in index order, and the number of individuals dominating p. */
  method DominationRow(values: seq<(int, int)>, p: int) returns (row: seq<int>, count: int)
    requires 0 <= p < |values|
    ensures IsDominatedRow(values, p, row)
    ensures count == Alive(values, p, {}, |values|)
  {
    row, count := [], 0;
    for q := 0 to |values|
      invariant forall x :: x in row <==> 0 <= x < q && Dominates(values[p], values[x])
      invariant forall i :: 0 <= i < |row| ==> row[i] < q
      invariant NoDup(row)
      invariant count == Alive(values, p, {}, q)
    {
      if Dominates(values[p], values[q]) {
        row := row + [q];
      } else if Dominates(values[q], values[p]) {
        count := count + 1;
      }
    }
  }

  /** The first loop of `fast_sort`: for every p, collect the individuals it
      dominates and count those dominating it; the undominated form front 0. */
  method CountDomination(values: seq<(int, int)>) returns (S: seq<seq<int>>, n: seq<int>, rank: seq<int>, front0: seq<int>)
    ensures Stage(values, S, n, rank, [front0], {})
  {
    var N := |values|;
    S := seq(N, _ => []);
    n := seq(N, _ => 0);
    rank := seq(N, _ => 0);
    front0 := [];
    for p := 0 to N
      invariant |S| == N && |n| == N && |rank| == N
      invariant forall r :: 0 <= r < N ==> rank[r] == 0
      invariant forall r :: 0 <= r < p ==> IsDominatedRow(values, r, S[r])
      invariant forall r :: 0 <= r < p ==> n[r] == Alive(values, r, {}, N)
      invariant forall i :: 0 <= i < |front0| ==> 0 <= front0[i] < p && n[front0[i]] == 0
      invariant forall r :: 0 <= r < p && n[r] == 0 ==> r in front0
      invariant NoDup(front0)
    {
      var row, count := DominationRow(values, p);
      S := S[p := row];
      n := n[p := count];
      if count == 0 {
        front0 := front0 + [p];
      }
    }
    forall y | 0 <= y < N && n[y] == 0
      ensures forall x :: 0 <= x < N ==> !Dominates(values[x], values[y])
    {
      AliveZero(values, y, {}, N);
    }
  }

  lemma NoDupSuffix(s: seq<int>, t: int)
    requires NoDup(s) && 0 <= t < |s|
    ensures s[t] !in s[t + 1..]
    ensures forall x :: x in s[t..] <==> x == s[t] || x in s[t + 1..]
  {
    assert s[t..] == [s[t]] + s[t + 1..];
  }

  /** How the second phase of `fast_sort` has moved from (n0, rank0) to
      (n, rank) while building the next front: counts only go down, the ranks
      of individuals already placed are kept, and `next` holds, without
      repetition and each with rank f + 1, exactly the individuals whose count
      has just dropped to zero, each dominated by a member of front f. */
  ghost predicate Progress(values: seq<(int, int)>, n0: seq<int>, rank0: seq<int>, fronts: seq<seq<int>>,
                           n: seq<int>, rank: seq<int>, next: seq<int>)
    requires |fronts| >= 1
  {
    var N, f := |values|, |fronts| - 1;
    && |n0| == N && |rank0| == N && |n| == N && |rank| == N
    && (forall x :: 0 <= x < N ==> n[x] <= n0[x])
    && (forall x :: 0 <= x < N && n0[x] == 0 ==> rank[x] == rank0[x])
    && (forall x :: 0 <= x < N && n[x] == 0 && n0[x] != 0 ==> x in next)
    && (forall x :: x in next ==>
          0 <= x < N && n0[x] != 0 && n[x] == 0 && rank[x] == f + 1 && DominatedFrom(values, fronts[f], x))
    && NoDup(next)
  }

  /** The counts `n` are the unreleased dominators of every individual, plus
      one for each individual still listed in `rest`. */
  ghost predicate Counted(values: seq<(int, int)>, done: set<int>, rest: seq<int>, n: seq<int>) {
    |n| == |values| &&
    forall x :: 0 <= x < |values| ==> n[x] == Alive(values, x, done, |values|) + (if x in rest then 1 else 0)
  }

  /** The inner loop of the second phase for one member p of front f:
      decrement the count of every individual p dominates, and move those
      reaching zero into the next front. */
  method ReleaseMember(values: seq<(int, int)>, S: seq<seq<int>>, fronts: seq<seq<int>>, p: int,
                       n: seq<int>, rank: seq<int>, next: seq<int>,
                       ghost n0: seq<int>, ghost rank0: seq<int>, ghost released: set<int>)
    returns (n': seq<int>, rank': seq<int>, next': seq<int>)
    requires DominatedSets(values, S) && |fronts| >= 1
    requires p in fronts[|fronts| - 1] && 0 <= p < |values| && p !in released
    requires Progress(values, n0, rank0, fronts, n, rank, next)
    requires forall x :: 0 <= x < |values| ==> n[x] == Alive(values, x, released, |values|)
    ensures Progress(values, n0, rank0, fronts, n', rank', next')
    ensures forall x :: 0 <= x < |values| ==> n'[x] == Alive(values, x, released + {p}, |values|)
  {
    var N := |values|;
    var row := S[p];
    assert IsDominatedRow(values, p, row);
    forall x | 0 <= x < N
      ensures n[x] == Alive(values, x, released + {p}, N) + (if x in row[0..] then 1 else 0)
    {
      AliveRelease(values, x, released, p, N);
      assert row[0..] == row;
    }
    n', rank', next' := n, rank, next;
    for t := 0 to |row|
      invariant Progress(values, n0, rank0, fronts, n', rank', next')
      invariant Counted(values, released + {p}, row[t..], n')
    {
      n', rank', next' := ReleaseOne(values, fronts, p, row, t, n', rank', next', n0, rank0, released + {p});
    }
    assert row[|row|..] == [];
  }

  /** One step of the inner loop: the count of the t-th individual p
      dominates drops by one, and when it reaches zero that individual joins
      the next front with rank f + 1. */
  method ReleaseOne(values: seq<(int, int)>, fronts: seq<seq<int>>, p: int, row: seq<int>, t: int,
                    n: seq<int>, rank: seq<int>, next: seq<int>,
                    ghost n0: seq<int>, ghost rank0: seq<int>, ghost done: set<int>)
    returns (n': seq<int>, rank': seq<int>, next': seq<int>)
    requires |fronts| >= 1 && p in fronts[|fronts| - 1] && 0 <= p < |values|
    requires IsDominatedRow(values, p, row) && 0 <= t < |row|
    requires Progress(values, n0, rank0, fronts, n, rank, next)
    requires Counted(values, done, row[t..], n)
    ensures Progress(values, n0, rank0, fronts, n', rank', next')
    ensures Counted(values, done, row[t + 1..], n')
  {
    var q := row[t];
    NoDupSuffix(row, t);
    assert q in row;
    n', rank', next' := n[q := n[q] - 1], rank, next;
    if n'[q] == 0 {
      rank' := rank'[q := |fronts|];
      next' := next' + [q];
    }
  }

  /** Closing one round of the second phase: once every member of front f
      has been released, the state is again a `Stage`, one front further on. */
  lemma StageAdvance(values: seq<(int, int)>, S: seq<seq<int>>, n0: seq<int>, rank0: seq<int>,
                     fronts: seq<seq<int>>, done: set<int>, n: seq<int>, rank: seq<int>, next: seq<int>,
                     done': set<int>)
    requires Stage(values, S, n0, rank0, fronts, done)
    requires Progress(values, n0, rank0, fronts, n, rank, next)
    requires forall x :: x in done' <==> x in done || x in fronts[|fronts| - 1]
    requires forall x :: 0 <= x < |values| ==> n[x] == Alive(values, x, done', |values|)
    ensures Stage(values, S, n, rank, fronts + [next], done')
  {
    AdvanceFronts(values, S, n0, rank0, fronts, done, n, rank, next);
    AdvanceDone(values, S, n0, rank0, fronts, done, n, rank, next, done');
    AdvanceOrder(values, S, n0, rank0, fronts, done, n, rank, next, done');
  }

  /** The fronts of the next stage: the old ones and `next` keep their
      members placed, repetition-free and dominated from the front before. */
  lemma AdvanceFronts(values: seq<(int, int)>, S: seq<seq<int>>, n0: seq<int>, rank0: seq<int>,
                      fronts: seq<seq<int>>, done: set<int>, n: seq<int>, rank: seq<int>, next: seq<int>)
    requires Stage(values, S, n0, rank0, fronts, done)
    requires Progress(values, n0, rank0, fronts, n, rank, next)
    requires forall x :: 0 <= x < |values| ==> n[x] >= 0
    ensures FrontsPlaced(n, rank, fronts + [next]) && Layered(values, fronts + [next])
  {
    var f := |fronts| - 1;
    var fronts' := fronts + [next];
    forall k, x | 0 <= k <= f + 1 && x in fronts'[k] ensures Placed(n, rank, x, k) {
      if k <= f {
        assert x in fronts[k];
        assert Placed(n0, rank0, x, k);
      } else {
        assert x in next;
      }
    }
    forall k | 0 <= k <= f + 1 ensures NoDup(fronts'[k]) {
      if k <= f {
        assert fronts'[k] == fronts[k];
      }
    }
    forall k | 1 <= k <= f + 1 ensures Linked(values, fronts', k) {
      assert fronts'[k - 1] == fronts[k - 1];
      if k <= f {
        assert Linked(values, fronts, k) && fronts'[k] == fronts[k];
      }
    }
  }

  /** The released set of the next stage holds exactly the individuals
      placed before front f + 1, and every individual with count zero sits in
      the front its rank names. */
  lemma AdvanceDone(values: seq<(int, int)>, S: seq<seq<int>>, n0: seq<int>, rank0: seq<int>,
                    fronts: seq<seq<int>>, done: set<int>, n: seq<int>, rank: seq<int>, next: seq<int>,
                    done': set<int>)
    requires Stage(values, S, n0, rank0, fronts, done)
    requires Progress(values, n0, rank0, fronts, n, rank, next)
    requires forall x :: x in done' <==> x in done || x in fronts[|fronts| - 1]
    requires forall x :: 0 <= x < |values| ==> n[x] == Alive(values, x, done', |values|)
    ensures DoneBelow(n, rank, done', |fronts|) && ZerosInFronts(n, rank, fronts + [next])
  {
    var N, f := |values|, |fronts| - 1;
    var fronts' := fronts + [next];
    assert DoneBelow(n0, rank0, done, f) && ZerosInFronts(n0, rank0, fronts) && FrontsPlaced(n0, rank0, fronts);
    forall x | 0 <= x < N && n[x] == 0
      ensures 0 <= rank[x] < |fronts'| && x in fronts'[rank[x]]
    {
      if n0[x] != 0 {
        assert x in next;
      } else {
        assert x in fronts[rank0[x]];
      }
    }
    forall x | 0 <= x < N && n0[x] == 0 ensures x in done || x in fronts[f] {
      assert x in fronts[rank0[x]];
    }
    forall x ensures x in done' <==> 0 <= x < N && n[x] == 0 && rank[x] < f + 1 {
      if x in done {
        assert 0 <= x < N && n0[x] == 0 && rank0[x] < f;
      } else if x in fronts[f] {
        assert Placed(n0, rank0, x, f);
      }
    }
  }

  /** A dominator of an individual with count zero has count zero too and a
      strictly smaller rank, in the next stage as in the last. */
  lemma AdvanceOrder(values: seq<(int, int)>, S: seq<seq<int>>, n0: seq<int>, rank0: seq<int>,
                     fronts: seq<seq<int>>, done: set<int>, n: seq<int>, rank: seq<int>, next: seq<int>,
                     done': set<int>)
    requires Stage(values, S, n0, rank0, fronts, done)
    requires Progress(values, n0, rank0, fronts, n, rank, next)
    requires forall x :: x in done' <==> x in done || x in fronts[|fronts| - 1]
    requires forall x :: 0 <= x < |values| ==> n[x] == Alive(values, x, done', |values|)
    ensures RankOrdered(values, n, rank)
  {
    var N, f := |values|, |fronts| - 1;
    forall x, y | 0 <= x < N && 0 <= y < N && n[y] == 0 && Dominates(values[x], values[y])
      ensures n[x] == 0 && rank[x] < rank[y]
    {
      if n0[y] != 0 {
        AliveZero(values, y, done', N);
        assert x in done';
        assert x in done || x in fronts[f];
        if x !in done {
          assert Placed(n0, rank0, x, f);
        }
      }
    }
  }

  /** The second phase of one round of `fast_sort`: release every member of
      the last front and collect the next front. `done'` is the set of
      individuals placed in the fronts before the new last one. */
  method ReleaseFront(values: seq<(int, int)>, S: seq<seq<int>>, n0: seq<int>, rank0: seq<int>,
                      fronts: seq<seq<int>>, ghost done: set<int>)
    returns (n: seq<int>, rank: seq<int>, next: seq<int>, ghost done': set<int>)
    requires Stage(values, S, n0, rank0, fronts, done)
    ensures forall x :: x in done' <==> x in done || x in fronts[|fronts| - 1]
    ensures Stage(values, S, n, rank, fronts + [next], done')
  {
    var N, f := |values|, |fronts| - 1;
    var front := fronts[f];
    n, rank, next := n0, rank0, [];
    done' := done;
    assert Layered(values, fronts) && FrontsPlaced(n0, rank0, fronts) && DoneBelow(n0, rank0, done, f);
    assert NoDup(front);
    for i := 0 to |front|
      invariant Progress(values, n0, rank0, fronts, n, rank, next)
      invariant forall x :: x in done' <==> x in done || x in front[..i]
      invariant forall x :: 0 <= x < N ==> n[x] == Alive(values, x, done', N)
    {
      var p := front[i];
      assert p !in front[..i];
      assert Placed(n0, rank0, p, f);
      assert p !in done';
      n, rank, next := ReleaseMember(values, S, fronts, p, n, rank, next, n0, rank0, done');
      done' := done' + {p};
      assert front[..i + 1] == front[..i] + [p];
    }
    assert front[..|front|] == front;
    StageAdvance(values, S, n0, rank0, fronts, done, n, rank, next, done');
  }

  /** When the last front of a stage comes out empty, every individual has
      been placed in an earlier front: otherwise take an unplaced individual
      that no unplaced individual dominates; its count is positive, so an
      individual outside `done` dominates it, and that one is unplaced too. */
  lemma AllPlaced(values: seq<(int, int)>, S: seq<seq<int>>, n: seq<int>, rank: seq<int>,
                  fronts: seq<seq<int>>, done: set<int>)
    requires Stage(values, S, n, rank, fronts, done)
    requires fronts[|fronts| - 1] == []
    ensures forall x :: 0 <= x < |values| ==> x in done
  {
    var N := |values|;
    var pending := set x | 0 <= x < N && x !in done;
    forall q | 0 <= q < N ensures q in done {
      if q !in done {
        assert q in pending;
        HasUndominatedMember(values, pending, q);
        var m :| m in pending && forall x :: x in pending ==> !Dominates(values[x], values[m]);
        assert n[m] != 0;
        AliveZero(values, m, done, N);
      }
    }
  }

  /** A stage whose last front came out empty, all earlier ones not, is a
      finished front sorting once the empty front is dropped. */
  lemma StageFinal(values: seq<(int, int)>, S: seq<seq<int>>, n: seq<int>, rank: seq<int>,
                   fronts: seq<seq<int>>, done: set<int>)
    requires Stage(values, S, n, rank, fronts, done)
    requires fronts[|fronts| - 1] == []
    requires forall k :: 0 <= k < |fronts| - 1 ==> fronts[k] != []
    ensures IsFrontSorting(values, fronts[..|fronts| - 1])
  {
    var N, f := |values|, |fronts| - 1;
    var F := fronts[..f];
    AllPlaced(values, S, n, rank, fronts, done);
    forall x | 0 <= x < N ensures InFrontBelow(F, f, x) {
      assert x in done;
      assert x in F[rank[x]];
    }
    forall k | 0 <= k < f ensures DominatorsBefore(values, F, k) {
      forall x, y | y in F[k] && 0 <= x < N && 0 <= y < N && Dominates(values[x], values[y])
        ensures InFrontBelow(F, k, x)
      {
        assert y in fronts[k];
        assert x in F[rank[x]];
      }
    }
    forall k | 1 <= k < f ensures Linked(values, F, k) {
      assert Linked(values, fronts, k) && F[k] == fronts[k] && F[k - 1] == fronts[k - 1];
    }
  }

  /** Python's `fast_sort`: the fronts it returns form the front sorting of
      `values` (which is unique, by FrontSortingUnique). */
  method FastSort(values: seq<(int, int)>) returns (fronts: seq<seq<int>>)
    ensures IsFrontSorting(values, fronts)
    ensures |values| > 0 ==> |fronts| > 0
  {
    var N := |values|;
    var S, n, rank, front0 := CountDomination(values);
    fronts := [front0];
    ghost var done: set<int> := {};
    while fronts[|fronts| - 1] != []
      invariant Stage(values, S, n, rank, fronts, done)
      invariant forall k :: 0 <= k < |fronts| - 1 ==> fronts[k] != []
      decreases set x | 0 <= x < N && x !in done
    {
      assert forall k :: 0 <= k < |fronts| ==> fronts[k] != [];
      ghost var before := set x | 0 <= x < N && x !in done;
      var p := fronts[|fronts| - 1][0];
      assert FrontsPlaced(n, rank, fronts) && DoneBelow(n, rank, done, |fronts| - 1);
      assert Placed(n, rank, p, |fronts| - 1);
      var next;
      n, rank, next, done := ReleaseFront(values, S, n, rank, fronts, done);
      assert p in before && p !in set x | 0 <= x < N && x !in done;
      fronts := fronts + [next];
    }
    StageFinal(values, S, n, rank, fronts, done);
    fronts := fronts[..|fronts| - 1];
    if N > 0 {
      assert InFrontBelow(fronts, |fronts|, 0);
    }
  }
}
