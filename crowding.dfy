/** Crowding distance inside one front: for each objective the front is
    ordered by that objective, its two ends get an infinite distance and every
    other member gains the normalised gap between its two neighbours. */
module Crowding {
  import opened Sequences
  import opened Dominance

  /** A crowding distance: a finite (non-negative) real or Python's `inf`. */
  datatype Dist = Fin(r: real) | Inf

  /** Added to the range of an objective so that the division never fails. */
  const Eps: real := 0.000000001

  /** Python's float addition restricted to these values: inf absorbs. */
  function Add(a: Dist, b: Dist): (r: Dist)
    ensures r == Inf <==> a == Inf || b == Inf
  {
    if a.Inf? || b.Inf? then Inf else Fin(a.r + b.r)
  }

  /** Python's `a > b` on distances: inf is greater than every finite
      distance and not greater than itself; finite distances compare as
      reals. */
  predicate Greater(a: Dist, b: Dist): (r: bool)
    ensures a.Inf? && b.Fin? ==> r
    ensures b.Inf? ==> !r
    ensures a.Fin? && b.Fin? ==> (r <==> a.r > b.r)
  {
    match (a, b)
    case (Inf, Fin(_)) => true
    case (Fin(x), Fin(y)) => x > y
    case _ => false
  }

  predicate NonNegative(a: Dist) {
    a.Inf? || a.r >= 0.0
  }

  /** Every distance in the map is infinite or a non-negative real. */
  predicate AllNonNegative(dist: map<int, Dist>) {
    forall x :: x in dist ==> NonNegative(dist[x])
  }

  predicate InRange(values: seq<(int, int)>, s: seq<int>) {
    forall i :: 0 <= i < |s| ==> 0 <= s[i] < |values|
  }

  /** Objective m (0 or 1) of individual x: Python's `values[x][m]`. */
  function Key(values: seq<(int, int)>, m: int, x: int): int
    requires 0 <= x < |values|
  {
    if m == 0 then values[x].0 else values[x].1
  }

  predicate SortedBy(values: seq<(int, int)>, m: int, s: seq<int>)
    requires InRange(values, s)
  {
    forall i, j :: 0 <= i < j < |s| ==> Key(values, m, s[i]) <= Key(values, m, s[j])
  }

  /** Insert x into a list sorted by objective m, before the first element
      whose objective is not smaller, so that equal keys keep their order. */
  function InsertBy(values: seq<(int, int)>, m: int, x: int, s: seq<int>): (r: seq<int>)
    requires 0 <= x < |values| && InRange(values, s)
    ensures multiset(r) == multiset(s) + multiset{x}
    ensures |r| == |s| + 1 && InRange(values, r)
  {
    if s == [] || Key(values, m, x) <= Key(values, m, s[0]) then [x] + s
    else
      assert s == [s[0]] + s[1..];
      [s[0]] + InsertBy(values, m, x, s[1..])
  }

  /** Python's `sorted(front, key=lambda x: values[x][m])`, a stable sort. */
  function SortBy(values: seq<(int, int)>, m: int, s: seq<int>): (r: seq<int>)
    requires InRange(values, s)
    ensures multiset(r) == multiset(s)
    ensures |r| == |s| && InRange(values, r)
  {
    if s == [] then []
    else
      assert s == [s[0]] + s[1..];
      InsertBy(values, m, s[0], SortBy(values, m, s[1..]))
  }

  lemma {:induction false} InsertBySorted(values: seq<(int, int)>, m: int, x: int, s: seq<int>)
    requires 0 <= x < |values| && InRange(values, s) && SortedBy(values, m, s)
    ensures SortedBy(values, m, InsertBy(values, m, x, s))
  {
    if s != [] && Key(values, m, x) > Key(values, m, s[0]) {
      var t := InsertBy(values, m, x, s[1..]);
      InsertBySorted(values, m, x, s[1..]);
      forall i | 0 <= i < |t| ensures Key(values, m, s[0]) <= Key(values, m, t[i]) {
        assert t[i] in multiset(s[1..]) + multiset{x};
        if t[i] != x {
          assert t[i] in s[1..];
        }
      }
    }
  }

  /** The order SortBy produces is sorted by objective m. */
  lemma {:induction false} SortBySorted(values: seq<(int, int)>, m: int, s: seq<int>)
    requires InRange(values, s)
    ensures SortedBy(values, m, SortBy(values, m, s))
  {
    if s != [] {
      SortBySorted(values, m, s[1..]);
      InsertBySorted(values, m, s[0], SortBy(values, m, s[1..]));
    }
  }

  /** The members of s whose objective m equals k, in their order in s. */
  function WithKey(values: seq<(int, int)>, m: int, k: int, s: seq<int>): seq<int>
    requires InRange(values, s)
  {
    if s == [] then []
    else (if Key(values, m, s[0]) == k then [s[0]] else []) + WithKey(values, m, k, s[1..])
  }

  /** InsertBy places x ahead of every member with the same key, and only
      members with a smaller key ahead of x. */
  lemma {:induction false} InsertByWithKey(values: seq<(int, int)>, m: int, k: int, x: int, s: seq<int>)
    requires 0 <= x < |values| && InRange(values, s)
    ensures WithKey(values, m, k, InsertBy(values, m, x, s))
         == (if Key(values, m, x) == k then [x] else []) + WithKey(values, m, k, s)
  {
    var r := InsertBy(values, m, x, s);
    if s == [] || Key(values, m, x) <= Key(values, m, s[0]) {
      assert r[1..] == s;
    } else {
      assert r[1..] == InsertBy(values, m, x, s[1..]);
      InsertByWithKey(values, m, k, x, s[1..]);
    }
  }

  /** SortBy is stable: members with equal objective m keep their relative
      order from the input. */
  lemma {:induction false} SortByStable(values: seq<(int, int)>, m: int, k: int, s: seq<int>)
    requires InRange(values, s)
    ensures WithKey(values, m, k, SortBy(values, m, s)) == WithKey(values, m, k, s)
  {
    if s != [] {
      SortByStable(values, m, k, s[1..]);
      InsertByWithKey(values, m, k, s[0], SortBy(values, m, s[1..]));
    }
  }

  lemma NoDupByMultiset(s: seq<int>, t: seq<int>)
    requires multiset(s) == multiset(t) && NoDup(s)
    ensures NoDup(t)
  {
    forall i, j | 0 <= i < j < |t| ensures t[i] != t[j] {
      if t[i] == t[j] {
        assert t == t[..j] + [t[j]] + t[j + 1..];
        assert t[..j] == t[..i] + [t[i]] + t[i + 1..j];
        assert multiset(t)[t[i]] >= 2;
        NoDupMultiplicity(s, t[i]);
      }
    }
  }

  lemma {:induction false} NoDupMultiplicity(s: seq<int>, v: int)
    requires NoDup(s)
    ensures multiset(s)[v] <= 1
  {
    if s != [] {
      var n := |s| - 1;
      assert s == s[..n] + [s[n]];
      assert NoDup(s[..n]);
      NoDupMultiplicity(s[..n], v);
      if s[n] == v {
        assert v !in s[..n];
      }
    }
  }

  /** Python's `gap / (mx - mn + 1e-9)` on exact reals. */
  function Normalised(gap: int, range: int): (r: real)
    ensures gap >= 0 && range >= 0 ==> r >= 0.0
    ensures gap == 0 ==> r == 0.0
  {
    gap as real / (range as real + Eps)
  }

  /** What position j of the order `f` by objective m contributes: inf at the
      two ends, elsewhere the gap between the neighbours over the range of
      the objective (plus Eps). */
  function Term(values: seq<(int, int)>, m: int, f: seq<int>, j: int): Dist
    requires InRange(values, f) && 0 <= j < |f|
  {
    if j == 0 || j == |f| - 1 then Inf
    else
      var gap := Key(values, m, f[j + 1]) - Key(values, m, f[j - 1]);
      var range := Key(values, m, f[|f| - 1]) - Key(values, m, f[0]);
      Fin(Normalised(gap, range))
  }

  lemma TermNonNegative(values: seq<(int, int)>, m: int, f: seq<int>, j: int)
    requires InRange(values, f) && SortedBy(values, m, f) && 0 <= j < |f|
    ensures NonNegative(Term(values, m, f, j))
  {
    if 0 < j < |f| - 1 {
      var gap := Key(values, m, f[j + 1]) - Key(values, m, f[j - 1]);
      var range := Key(values, m, f[|f| - 1]) - Key(values, m, f[0]);
    }
  }

  /** The contribution of an inner position, as the loop body computes it. */
  lemma InnerTerm(values: seq<(int, int)>, m: int, f: seq<int>, i: int)
    requires InRange(values, f) && 0 < i < |f| - 1
    ensures Terms(values, m, f)[i] ==
            Fin(Normalised(Key(values, m, f[i + 1]) - Key(values, m, f[i - 1]),
                           Key(values, m, f[|f| - 1]) - Key(values, m, f[0])))
  {
  }

  /** Every contribution is inf or a non-negative real. */
  predicate NonNegativeTerms(t: seq<Dist>) {
    forall j :: 0 <= j < |t| ==> NonNegative(t[j])
  }

  /** The contributions of an order: inf at both ends, and inf or a
      non-negative real everywhere when the order is sorted by objective m. */
  lemma TermsFacts(values: seq<(int, int)>, m: int, f: seq<int>)
    requires InRange(values, f)
    ensures |Terms(values, m, f)| == |f|
    ensures |f| >= 1 ==> Terms(values, m, f)[0] == Inf && Terms(values, m, f)[|f| - 1] == Inf
    ensures SortedBy(values, m, f) ==> NonNegativeTerms(Terms(values, m, f))
  {
    if SortedBy(values, m, f) {
      forall j | 0 <= j < |f| ensures NonNegative(Terms(values, m, f)[j]) {
        TermNonNegative(values, m, f, j);
      }
    }
  }

  /** The first position of x in s. */
  function IndexOf(s: seq<int>, x: int): (i: int)
    requires x in s
    ensures 0 <= i < |s| && s[i] == x
    ensures forall k :: 0 <= k < i ==> s[k] != x
  {
    if s[0] == x then 0 else 1 + IndexOf(s[1..], x)
  }

  /** The front ordered by each objective: `orders[m]` is Python's
      `sorted(front, key=lambda x: values[x][m])`. */
  function Orders(values: seq<(int, int)>, front: seq<int>): (orders: seq<seq<int>>)
    requires InRange(values, front)
    ensures |orders| == 2
    ensures forall m :: 0 <= m < 2 ==> InRange(values, orders[m]) && multiset(orders[m]) == multiset(front)
  {
    [SortBy(values, 0, front), SortBy(values, 1, front)]
  }

  predicate OrdersOf(values: seq<(int, int)>, orders: seq<seq<int>>, x: int) {
    |orders| == 2 && forall m :: 0 <= m < 2 ==> InRange(values, orders[m]) && x in orders[m]
  }

  /** The distance Python's `crowding` accumulates for member x over the
      objectives 0 .. m-1, given the order of the front by each objective. */
  function Accumulated(values: seq<(int, int)>, orders: seq<seq<int>>, x: int, m: nat): Dist
    requires OrdersOf(values, orders, x) && m <= 2
  {
    if m == 0 then Fin(0.0)
    else
      var f := orders[m - 1];
      Add(Accumulated(values, orders, x, m - 1), Term(values, m - 1, f, IndexOf(f, x)))
  }

  /** The crowding distance of member x of a front of more than two members. */
  function CrowdingDistance(values: seq<(int, int)>, front: seq<int>, x: int): Dist
    requires InRange(values, front) && x in front
  {
    var orders := Orders(values, front);
    assert x in multiset(orders[0]) && x in multiset(orders[1]);
    Accumulated(values, orders, x, 2)
  }

  /** In an order without repetition, the first position of the member at
      position j is j. */
  lemma IndexOfDistinct(f: seq<int>, j: int)
    requires NoDup(f) && 0 <= j < |f|
    ensures IndexOf(f, f[j]) == j
  {
    var i := IndexOf(f, f[j]);
    assert !(i < j);
  }

  lemma {:induction false} AccumulatedAtEnd(values: seq<(int, int)>, orders: seq<seq<int>>, m: int, j: int, k: nat)
    requires |orders| == 2 && 0 <= m < k <= 2 && 0 <= j < |orders[m]| && OrdersOf(values, orders, orders[m][j])
    requires NoDup(orders[m]) && (j == 0 || j == |orders[m]| - 1)
    ensures Accumulated(values, orders, orders[m][j], k) == Inf
  {
    IndexOfDistinct(orders[m], j);
    if k - 1 > m {
      AccumulatedAtEnd(values, orders, m, j, k - 1);
    }
  }

  /** The ends of the order by either objective get an infinite distance. */
  lemma BoundaryIsInfinite(values: seq<(int, int)>, front: seq<int>, m: int, j: int)
    requires InRange(values, front) && NoDup(front) && 0 <= m <= 1
    requires 0 <= j < |front| && (j == 0 || j == |front| - 1)
    ensures Orders(values, front)[m][j] in front
    ensures CrowdingDistance(values, front, Orders(values, front)[m][j]) == Inf
  {
    var orders := Orders(values, front);
    var x := orders[m][j];
    assert x in multiset(front);
    assert x in multiset(orders[0]) && x in multiset(orders[1]);
    NoDupByMultiset(front, orders[m]);
    AccumulatedAtEnd(values, orders, m, j, 2);
  }

  lemma AddNonNegative(a: Dist, b: Dist)
    requires NonNegative(a) && NonNegative(b)
    ensures NonNegative(Add(a, b))
  {
  }

  /** Every accumulated crowding distance is infinite or a non-negative real. */
  lemma {:induction false} AccumulatedNonNegative(values: seq<(int, int)>, orders: seq<seq<int>>, x: int, m: nat)
    requires OrdersOf(values, orders, x) && m <= 2
    requires forall k :: 0 <= k < 2 ==> SortedBy(values, k, orders[k])
    ensures NonNegative(Accumulated(values, orders, x, m))
  {
    if m > 0 {
      AccumulatedNonNegative(values, orders, x, m - 1);
      var f := orders[m - 1];
      TermNonNegative(values, m - 1, f, IndexOf(f, x));
      AddNonNegative(Accumulated(values, orders, x, m - 1), Term(values, m - 1, f, IndexOf(f, x)));
    }
  }

  /** Every crowding distance is infinite or a non-negative real. */
  lemma CrowdingDistanceNonNegative(values: seq<(int, int)>, front: seq<int>, x: int)
    requires InRange(values, front) && x in front
    ensures NonNegative(CrowdingDistance(values, front, x))
  {
    var orders := Orders(values, front);
    assert x in multiset(orders[0]) && x in multiset(orders[1]);
    SortBySorted(values, 0, front);
    SortBySorted(values, 1, front);
    AccumulatedNonNegative(values, orders, x, 2);
  }

  /** The term of every position of the order `f` by objective m. */
  function Terms(values: seq<(int, int)>, m: int, f: seq<int>): seq<Dist>
    requires InRange(values, f)
  {
    seq(|f|, j requires 0 <= j < |f| => Term(values, m, f, j))
  }

  /** The distances after the first i - 1 steps of one objective pass of
      `crowding` with increments `inc`: the two ends of the order `f` set to
      inf, then positions 1 .. i-1 each increased by their increment. */
  function Pass(f: seq<int>, inc: seq<Dist>, dist: map<int, Dist>, i: int): (r: map<int, Dist>)
    requires |inc| == |f| > 2 && 1 <= i <= |f| - 1
    requires forall j :: 0 <= j < |f| ==> f[j] in dist
    ensures r.Keys == dist.Keys
    decreases i
  {
    if i == 1 then dist[f[0] := Inf][f[|f| - 1] := Inf]
    else
      var d := Pass(f, inc, dist, i - 1);
      d[f[i - 1] := Add(d[f[i - 1]], inc[i - 1])]
  }

  /** Setting one distance to a non-negative value keeps all of them
      non-negative. */
  lemma UpdateNonNegative(d: map<int, Dist>, k: int, v: Dist)
    requires AllNonNegative(d) && NonNegative(v)
    ensures AllNonNegative(d[k := v])
  {
  }

  /** A pass keeps every distance non-negative. */
  lemma {:induction false} PassNonNegative(f: seq<int>, inc: seq<Dist>, dist: map<int, Dist>, i: int)
    requires |inc| == |f| > 2 && 1 <= i <= |f| - 1
    requires forall j :: 0 <= j < |f| ==> f[j] in dist
    requires forall j :: 0 <= j < |f| ==> NonNegative(inc[j])
    requires AllNonNegative(dist)
    ensures AllNonNegative(Pass(f, inc, dist, i))
  {
    if i == 1 {
      UpdateNonNegative(dist, f[0], Inf);
      UpdateNonNegative(dist[f[0] := Inf], f[|f| - 1], Inf);
    } else {
      PassNonNegative(f, inc, dist, i - 1);
      var d := Pass(f, inc, dist, i - 1);
      var x := f[i - 1];
      assert x in d;
      AddNonNegative(d[x], inc[i - 1]);
      UpdateNonNegative(d, x, Add(d[x], inc[i - 1]));
    }
  }

  /** With no repetition in the order, a pass has set both ends to inf, added
      to the member at every inner position it has reached the increment of
      that position, and left the others alone. */
  lemma {:induction false} PassValue(f: seq<int>, inc: seq<Dist>, dist: map<int, Dist>, i: int, j: int)
    requires |inc| == |f| > 2 && 1 <= i <= |f| - 1 && NoDup(f)
    requires forall k :: 0 <= k < |f| ==> f[k] in dist
    requires 0 <= j < |f|
    ensures Pass(f, inc, dist, i)[f[j]] ==
            if j == 0 || j == |f| - 1 then Inf else if j < i then Add(dist[f[j]], inc[j]) else dist[f[j]]
  {
    if i > 1 {
      PassValue(f, inc, dist, i - 1, j);
      if j != i - 1 {
        assert f[j] != f[i - 1];
      } else {
        PassValue(f, inc, dist, i - 1, i - 1);
      }
    }
  }

  /** One pass of the objective loop of `crowding`: with `f` the front
      ordered by objective m, its two ends become inf and every other member
      gains its normalised neighbour gap. */
  method AddObjective(values: seq<(int, int)>, m: int, f: seq<int>, dist: map<int, Dist>)
    returns (dist': map<int, Dist>)
    requires InRange(values, f) && |f| > 2
    requires forall j :: 0 <= j < |f| ==> f[j] in dist
    ensures dist' == Pass(f, Terms(values, m, f), dist, |f| - 1)
  {
    ghost var inc := Terms(values, m, f);
    dist' := dist[f[0] := Inf][f[|f| - 1] := Inf];
    var mn := Key(values, m, f[0]);
    var mx := Key(values, m, f[|f| - 1]);
    for i := 1 to |f| - 1
      invariant dist' == Pass(f, inc, dist, i)
    {
      var gap := Fin(Normalised(Key(values, m, f[i + 1]) - Key(values, m, f[i - 1]), mx - mn));
      InnerTerm(values, m, f, i);
      dist' := dist'[f[i] := Add(dist'[f[i]], gap)];
    }
  }

  /** The body of the objective loop of `crowding` for objective m: the
      distances keep their keys and stay non-negative, and each member gains
      the term of its position in the order by objective m. */
  method ObjectivePass(values: seq<(int, int)>, front: seq<int>, ghost orders: seq<seq<int>>, m: int,
                       dist: map<int, Dist>) returns (dist': map<int, Dist>)
    requires InRange(values, front) && |front| > 2 && 0 <= m < 2
    requires orders == Orders(values, front)
    requires forall x :: x in front ==> OrdersOf(values, orders, x)
    requires dist.Keys == set x | x in front
    requires AllNonNegative(dist)
    requires NoDup(front) ==> forall x :: x in front ==> dist[x] == Accumulated(values, orders, x, m)
    ensures dist'.Keys == set x | x in front
    ensures AllNonNegative(dist')
    ensures NoDup(front) ==> forall x :: x in front ==> dist'[x] == Accumulated(values, orders, x, m + 1)
  {
    var f := SortBy(values, m, front);
    assert f == orders[m];
    assert forall j :: 0 <= j < |f| ==> f[j] in multiset(front);
    dist' := AddObjective(values, m, f, dist);
    SortBySorted(values, m, front);
    PassKeepsNonNegative(values, m, f, dist);
    if NoDup(front) {
      PassAccumulates(values, front, orders, m, dist, dist');
    }
  }

  /** Python's `crowding(values, front)`: the distance of every member of the
      front; fronts of at most two members get distance 0 throughout. */
  method CrowdingDistances(values: seq<(int, int)>, front: seq<int>) returns (dist: map<int, Dist>)
    requires InRange(values, front)
    ensures dist.Keys == set x | x in front
    ensures |front| <= 2 ==> forall x :: x in dist ==> dist[x] == Fin(0.0)
    ensures |front| > 2 && NoDup(front) ==> forall x :: x in front ==> dist[x] == CrowdingDistance(values, front, x)
    ensures forall x :: x in dist ==> NonNegative(dist[x])
  {
    dist := map x | x in front :: Fin(0.0);
    if |front| <= 2 {
      return;
    }
    ghost var orders := Orders(values, front);
    forall x | x in front ensures OrdersOf(values, orders, x) {
      assert x in multiset(orders[0]) && x in multiset(orders[1]);
    }
    for m := 0 to 2
      invariant dist.Keys == set x | x in front
      invariant AllNonNegative(dist)
      invariant NoDup(front) ==> forall x :: x in front ==> dist[x] == Accumulated(values, orders, x, m)
    {
      dist := ObjectivePass(values, front, orders, m, dist);
    }
    if NoDup(front) {
      AccumulatedIsCrowdingDistance(values, front, dist);
    }
  }

  /** A pass over a front sorted by objective m keeps the distances
      non-negative. */
  lemma PassKeepsNonNegative(values: seq<(int, int)>, m: int, f: seq<int>, prev: map<int, Dist>)
    requires InRange(values, f) && SortedBy(values, m, f) && |f| > 2
    requires AllNonNegative(prev)
    requires forall j :: 0 <= j < |f| ==> f[j] in prev
    ensures AllNonNegative(Pass(f, Terms(values, m, f), prev, |f| - 1))
  {
    forall j | 0 <= j < |f| ensures NonNegative(Terms(values, m, f)[j]) {
      TermNonNegative(values, m, f, j);
    }
    PassNonNegative(f, Terms(values, m, f), prev, |f| - 1);
  }

  /** With no repetition in the front, the pass for objective m adds to every
      member the term of its position in the order by objective m. */
  lemma PassAccumulates(values: seq<(int, int)>, front: seq<int>, orders: seq<seq<int>>, m: int,
                        prev: map<int, Dist>, dist: map<int, Dist>)
    requires InRange(values, front) && |front| > 2 && 0 <= m < 2 && NoDup(front)
    requires orders == Orders(values, front)
    requires forall x :: x in front ==> OrdersOf(values, orders, x) && x in prev && prev[x] == Accumulated(values, orders, x, m)
    requires forall j :: 0 <= j < |orders[m]| ==> orders[m][j] in prev
    requires dist == Pass(orders[m], Terms(values, m, orders[m]), prev, |front| - 1)
    ensures forall x :: x in front ==> x in dist && dist[x] == Accumulated(values, orders, x, m + 1)
  {
    var f := orders[m];
    NoDupByMultiset(front, f);
    PassValues(values, m, f, prev);
    AccumulateStep(values, front, orders, m, prev, dist);
  }

  /** The full pass over an order without repetition, position by position. */
  lemma PassValues(values: seq<(int, int)>, m: int, f: seq<int>, prev: map<int, Dist>)
    requires InRange(values, f) && |f| > 2 && NoDup(f)
    requires forall j :: 0 <= j < |f| ==> f[j] in prev
    ensures forall j :: 0 <= j < |f| ==>
              (f[j] in Pass(f, Terms(values, m, f), prev, |f| - 1) &&
               Pass(f, Terms(values, m, f), prev, |f| - 1)[f[j]] == Add(prev[f[j]], Term(values, m, f, j)))
  {
    var inc := Terms(values, m, f);
    forall j | 0 <= j < |f|
      ensures f[j] in Pass(f, inc, prev, |f| - 1) && Pass(f, inc, prev, |f| - 1)[f[j]] == Add(prev[f[j]], inc[j])
    {
      PassValue(f, inc, prev, |f| - 1, j);
    }
  }

  /** One objective pass adds, to every member, the term of its position in
      the order by that objective. */
  lemma AccumulateStep(values: seq<(int, int)>, front: seq<int>, orders: seq<seq<int>>, m: int,
                       prev: map<int, Dist>, dist: map<int, Dist>)
    requires 0 <= m < 2 && |orders| == 2 && InRange(values, orders[m]) && NoDup(orders[m])
    requires multiset(orders[m]) == multiset(front)
    requires forall x :: x in front ==> OrdersOf(values, orders, x) && x in prev && prev[x] == Accumulated(values, orders, x, m)
    requires forall j :: 0 <= j < |orders[m]| ==>
               (orders[m][j] in dist && orders[m][j] in prev &&
                dist[orders[m][j]] == Add(prev[orders[m][j]], Term(values, m, orders[m], j)))
    ensures forall x :: x in front ==> x in dist && dist[x] == Accumulated(values, orders, x, m + 1)
  {
    var f := orders[m];
    forall x | x in front ensures x in dist && dist[x] == Accumulated(values, orders, x, m + 1) {
      assert x in multiset(f);
      var j := IndexOf(f, x);
    }
  }

  /** After both passes the accumulated distance is the crowding distance. */
  lemma AccumulatedIsCrowdingDistance(values: seq<(int, int)>, front: seq<int>, dist: map<int, Dist>)
    requires InRange(values, front)
    requires forall x :: x in front ==>
               (OrdersOf(values, Orders(values, front), x) && x in dist &&
                dist[x] == Accumulated(values, Orders(values, front), x, 2))
    ensures forall x :: x in front ==> dist[x] == CrowdingDistance(values, front, x)
  {
  }
}
