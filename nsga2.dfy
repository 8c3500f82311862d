/** The NSGA-II generational loop over job sequences: each generation sorts
    the population into fronts, computes crowding distances front by front,
    breeds a new population by binary tournaments, order crossover and swap
    mutation, and re-evaluates it; the result is the final population, its
    objective vectors and the indices of its first front. Every random draw
    of the original is an explicit input. */
module Nsga2 {
  import opened Permutations
  import opened Evaluation
  import opened GeneticOperators
  import opened Sequences
  import opened Dominance
  import opened Crowding

  /** Python's `next(i for i, fr in enumerate(fronts) if a in fr)`: the
      position of the first front that holds a. */
  function FrontIndex(fronts: seq<seq<int>>, a: int): (r: int)
    requires InFrontBelow(fronts, |fronts|, a)
    ensures 0 <= r < |fronts| && a in fronts[r]
    ensures forall k :: 0 <= k < r ==> a !in fronts[k]
    decreases |fronts|
  {
    if a in fronts[0] then 0
    else
      assert InFrontBelow(fronts[1..], |fronts| - 1, a) by {
        var k :| 0 <= k < |fronts| && a in fronts[k];
        assert fronts[1..][k - 1] == fronts[k];
      }
      1 + FrontIndex(fronts[1..], a)
  }

  /** In a front sorting, the front index of a member of front k is k. */
  lemma FrontIndexOfMember(values: seq<(int, int)>, fronts: seq<seq<int>>, k: int, x: int)
    requires IsFrontSorting(values, fronts)
    requires 0 <= k < |fronts| && x in fronts[k]
    ensures InFrontBelow(fronts, |fronts|, x) && FrontIndex(fronts, x) == k
  {
    assert InFrontBelow(fronts, |fronts|, x);
    var r := FrontIndex(fronts, x);
    assert x in fronts[r];
  }

  /** The distance `crowding(values, front)` gives to member x. */
  function FrontDistance(values: seq<(int, int)>, front: seq<int>, x: int): Dist
    requires InRange(values, front) && x in front
  {
    if |front| <= 2 then Fin(0.0) else CrowdingDistance(values, front, x)
  }

  /** Python's `cd = {}; for f in fronts: cd.update(crowding(objs, f))`:
      every individual gets the crowding distance of its own front. */
  method AllCrowding(values: seq<(int, int)>, fronts: seq<seq<int>>) returns (cd: map<int, Dist>)
    requires IsFrontSorting(values, fronts)
    ensures forall x :: x in cd <==> 0 <= x < |values|
    ensures Assigned(values, fronts, cd, |fronts|)
    ensures AllNonNegative(cd)
  {
    cd := map[];
    for k := 0 to |fronts|
      invariant Crowded(values, fronts, cd, k)
    {
      assert NoDup(fronts[k]);
      cd := CrowdFront(values, fronts, cd, k);
    }
    forall x ensures x in cd <==> 0 <= x < |values| {
      if x in cd {
        var k :| 0 <= k < |fronts| && x in fronts[k];
      }
    }
  }

  /** The distances of the members of the first k fronts, and no others. */
  ghost predicate Crowded(values: seq<(int, int)>, fronts: seq<seq<int>>, cd: map<int, Dist>, k: int)
    requires 0 <= k <= |fronts|
  {
    && (forall x :: x in cd <==> InFrontBelow(fronts, k, x))
    && Assigned(values, fronts, cd, k)
    && AllNonNegative(cd)
  }

  /** One iteration of the loop over the fronts: the distances of front k
      join those of the fronts before it. */
  method CrowdFront(values: seq<(int, int)>, fronts: seq<seq<int>>, cd: map<int, Dist>, k: int)
    returns (cd': map<int, Dist>)
    requires 0 <= k < |fronts| && MembersInRange(values, fronts) && Disjoint(fronts) && NoDup(fronts[k])
    requires Crowded(values, fronts, cd, k)
    ensures Crowded(values, fronts, cd', k + 1)
  {
    forall i | 0 <= i < |fronts[k]| ensures 0 <= fronts[k][i] < |values| {
      assert fronts[k][i] in fronts[k];
    }
    var dk := CrowdingDistances(values, fronts[k]);
    cd' := cd + dk;
    forall x ensures x in cd' <==> InFrontBelow(fronts, k + 1, x) {
      if InFrontBelow(fronts, k + 1, x) && x !in fronts[k] {
        var k' :| 0 <= k' < k + 1 && x in fronts[k'];
        assert InFrontBelow(fronts, k, x);
      }
    }
    CrowdingStep(values, fronts, k, cd, dk);
  }

  /** Every member of the first k fronts has the distance of its front. */
  ghost predicate Assigned(values: seq<(int, int)>, fronts: seq<seq<int>>, cd: map<int, Dist>, k: int)
    requires 0 <= k <= |fronts|
  {
    forall k', x :: 0 <= k' < k && x in fronts[k'] ==>
      InRange(values, fronts[k']) && x in cd && cd[x] == FrontDistance(values, fronts[k'], x)
  }

  /** Merging the distances of front k into those of the fronts before it
      keeps every earlier distance, since the fronts are disjoint. */
  lemma CrowdingStep(values: seq<(int, int)>, fronts: seq<seq<int>>, k: int, prev: map<int, Dist>, dk: map<int, Dist>)
    requires 0 <= k < |fronts| && InRange(values, fronts[k]) && NoDup(fronts[k])
    requires forall k', x :: 0 <= k' < k && x in fronts[k'] ==> x !in fronts[k]
    requires Assigned(values, fronts, prev, k)
    requires dk.Keys == set x | x in fronts[k]
    requires |fronts[k]| <= 2 ==> forall x :: x in dk ==> dk[x] == Fin(0.0)
    requires |fronts[k]| > 2 && NoDup(fronts[k]) ==> forall x :: x in fronts[k] ==> dk[x] == CrowdingDistance(values, fronts[k], x)
    ensures Assigned(values, fronts, prev + dk, k + 1)
  {
    forall k', x | 0 <= k' < k + 1 && x in fronts[k']
      ensures InRange(values, fronts[k']) && x in prev + dk && (prev + dk)[x] == FrontDistance(values, fronts[k'], x)
    {
      if k' == k {
        OwnFrontDistance(values, fronts[k], prev, dk, x);
      } else {
        assert x in prev && x !in dk;
        assert (prev + dk)[x] == prev[x] == FrontDistance(values, fronts[k'], x);
      }
    }
  }

  /** A member of the front just crowded gets its distance in that front. */
  lemma OwnFrontDistance(values: seq<(int, int)>, front: seq<int>, prev: map<int, Dist>, dk: map<int, Dist>, x: int)
    requires InRange(values, front) && NoDup(front) && x in front
    requires dk.Keys == set x | x in front
    requires |front| <= 2 ==> forall x :: x in dk ==> dk[x] == Fin(0.0)
    requires |front| > 2 && NoDup(front) ==> forall x :: x in front ==> dk[x] == CrowdingDistance(values, front, x)
    ensures x in prev + dk && (prev + dk)[x] == FrontDistance(values, front, x)
  {
    assert x in dk && (prev + dk)[x] == dk[x];
    if |front| <= 2 {
      assert dk[x] == Fin(0.0);
    }
  }

  /** Python's inner `select` once a and b are drawn: the binary tournament
      under the crowded comparison, returning the index of the winner. The
      winner's front comes first; within one front the larger distance wins
      and a tie goes to b. */
  function Tournament(fronts: seq<seq<int>>, cd: map<int, Dist>, a: int, b: int): (w: int)
    requires InFrontBelow(fronts, |fronts|, a) && InFrontBelow(fronts, |fronts|, b)
    requires a in cd && b in cd
    ensures w == a || w == b
    ensures FrontIndex(fronts, w) <= FrontIndex(fronts, a) && FrontIndex(fronts, w) <= FrontIndex(fronts, b)
    ensures FrontIndex(fronts, a) == FrontIndex(fronts, b) ==>
              (Greater(cd[a], cd[b]) ==> w == a) && (!Greater(cd[a], cd[b]) ==> w == b)
  {
    var ra := FrontIndex(fronts, a);
    var rb := FrontIndex(fronts, b);
    if ra < rb then a
    else if rb < ra then b
    else if Greater(cd[a], cd[b]) then a
    else b
  }

  /** A tournament between two individuals one of which dominates the other
      is always won by the dominating one, whichever is drawn first. */
  lemma TournamentPrefersDominator(values: seq<(int, int)>, fronts: seq<seq<int>>, cd: map<int, Dist>, a: int, b: int)
    requires IsFrontSorting(values, fronts)
    requires 0 <= a < |values| && 0 <= b < |values| && a in cd && b in cd
    requires Dominates(values[a], values[b])
    ensures InFrontBelow(fronts, |fronts|, a) && InFrontBelow(fronts, |fronts|, b)
    ensures Tournament(fronts, cd, a, b) == a && Tournament(fronts, cd, b, a) == a
  {
    assert InFrontBelow(fronts, |fronts|, a) && InFrontBelow(fronts, |fronts|, b);
    var rb := FrontIndex(fronts, b);
    assert DominatorsBefore(values, fronts, rb);
    assert InFrontBelow(fronts, rb, a);
    var k' :| 0 <= k' < rb && a in fronts[k'];
    assert FrontIndex(fronts, a) <= k';
  }

  /** The draws of `random.random()` for each position and of
      `random.randrange(n)` for the positions that swap, in one mutation. */
  predicate MutationDraws(coins: seq<real>, targets: seq<int>, n: int) {
    |coins| == n && |targets| == n && forall i :: 0 <= i < n ==> 0.0 <= coins[i] < 1.0 && 0 <= targets[i] < n
  }

  /** The random draws behind one pass of the offspring loop: the two
      tournaments, the crossover coin, the two cut points of the crossover
      and the draws of the two mutations. */
  datatype PairDraws = PairDraws(a1: int, b1: int, a2: int, b2: int, cxCoin: real, cutLo: int, cutHi: int,
                                 coins1: seq<real>, targets1: seq<int>, coins2: seq<real>, targets2: seq<int>)

  /** The four `random.randrange(popsize)` draws of the two tournaments. */
  predicate TournamentDraws(r: PairDraws, popsize: int) {
    0 <= r.a1 < popsize && 0 <= r.b1 < popsize && 0 <= r.a2 < popsize && 0 <= r.b2 < popsize
  }

  /** Draws the random generator can produce for a population of `popsize`
      sequences of n jobs. */
  predicate ValidDraws(r: PairDraws, popsize: int, n: int, cx: real) {
    TournamentDraws(r, popsize) && VariationDraws(r, n, cx)
  }

  /** The crossover coin, the cut points (two distinct sorted positions
      whenever the crossover happens: `random.sample` fails otherwise) and
      the draws of both mutations. */
  predicate VariationDraws(r: PairDraws, n: int, cx: real) {
    && 0.0 <= r.cxCoin < 1.0
    && (r.cxCoin < cx ==> 0 <= r.cutLo < r.cutHi < n)
    && MutationDraws(r.coins1, r.targets1, n) && MutationDraws(r.coins2, r.targets2, n)
  }

  /** Every index below popsize is in some front and has a distance. */
  ghost predicate Ranked(fronts: seq<seq<int>>, cd: map<int, Dist>, popsize: int) {
    forall x :: 0 <= x < popsize ==> InFrontBelow(fronts, |fronts|, x) && x in cd
  }

  /** The tournament winner that parents child i of the offspring loop. */
  function Parent(fronts: seq<seq<int>>, cd: map<int, Dist>, popsize: int, draws: seq<PairDraws>, i: int): (w: int)
    requires 0 <= i < 2 * |draws| && Ranked(fronts, cd, popsize)
    requires forall t :: 0 <= t < |draws| ==> TournamentDraws(draws[t], popsize)
    ensures 0 <= w < popsize
  {
    var r := draws[i / 2];
    assert TournamentDraws(r, popsize);
    if i % 2 == 0 then Tournament(fronts, cd, r.a1, r.b1) else Tournament(fronts, cd, r.a2, r.b2)
  }

  /** Each child so far is a plain copy of the tournament winner that
      parents it. */
  ghost predicate ParentsCopied(pop: seq<seq<int>>, fronts: seq<seq<int>>, cd: map<int, Dist>,
                                draws: seq<PairDraws>, newpop: seq<seq<int>>)
    requires Ranked(fronts, cd, |pop|) && |newpop| <= 2 * |draws|
    requires forall t :: 0 <= t < |draws| ==> TournamentDraws(draws[t], |pop|)
  {
    forall i :: 0 <= i < |newpop| ==> newpop[i] == pop[Parent(fronts, cd, |pop|, draws, i)]
  }

  /** One pass of the offspring loop before the appends: order crossover of
      the two winners when the coin falls below cx (plain copies otherwise),
      then the mutation of each child. Children of permutations are
      permutations; with neither crossover nor mutation they are copies. */
  method Breed(p1: seq<int>, p2: seq<int>, n: nat, cx: real, mut: real, r: PairDraws) returns (c1: seq<int>, c2: seq<int>)
    requires IsPermutation(p1, n) && IsPermutation(p2, n)
    requires VariationDraws(r, n, cx)
    ensures IsPermutation(c1, n) && IsPermutation(c2, n)
    ensures cx <= 0.0 && mut <= 0.0 ==> c1 == p1 && c2 == p2
  {
    PermutationFacts(p1, n);
    PermutationFacts(p2, n);
    var x1, x2;
    if r.cxCoin < cx {
      x1, x2 := OrderCrossover(p1, p2, r.cutLo, r.cutHi);
    } else {
      x1, x2 := p1, p2;
    }
    c1 := Mutation(x1, mut, r.coins1, r.targets1);
    c2 := Mutation(x2, mut, r.coins2, r.targets2);
  }

  /** Every member of the population orders all the jobs of the instance. */
  predicate Population(pop: seq<seq<int>>, jobs: nat) {
    forall i :: 0 <= i < |pop| ==> IsPermutation(pop[i], jobs)
  }

  /** Appending a permutation to a population keeps it a population. */
  lemma PopulationAppend(pop: seq<seq<int>>, c: seq<int>, n: nat)
    requires Population(pop, n) && IsPermutation(c, n)
    ensures Population(pop + [c], n)
  {
    forall i | 0 <= i < |pop + [c]| ensures IsPermutation((pop + [c])[i], n) {
      if i < |pop| {
        assert (pop + [c])[i] == pop[i];
      }
    }
  }

  /** Appending a copy of the next child's parent keeps every child a copy
      of its parent. */
  lemma CopiedAppend(pop: seq<seq<int>>, fronts: seq<seq<int>>, cd: map<int, Dist>,
                     draws: seq<PairDraws>, newpop: seq<seq<int>>, c: seq<int>)
    requires Ranked(fronts, cd, |pop|) && |newpop| < 2 * |draws|
    requires forall t :: 0 <= t < |draws| ==> TournamentDraws(draws[t], |pop|)
    requires ParentsCopied(pop, fronts, cd, draws, newpop)
    requires c == pop[Parent(fronts, cd, |pop|, draws, |newpop|)]
    ensures ParentsCopied(pop, fronts, cd, draws, newpop + [c])
  {
    forall i | 0 <= i < |newpop + [c]|
      ensures (newpop + [c])[i] == pop[Parent(fronts, cd, |pop|, draws, i)]
    {
      if i < |newpop| {
        assert (newpop + [c])[i] == newpop[i];
      }
    }
  }

  /** The two children of pass t of the offspring loop: both orders of all
      n jobs, and without crossover or mutation the two tournament winners. */
  method Pair(pop: seq<seq<int>>, n: nat, fronts: seq<seq<int>>, cd: map<int, Dist>,
              cx: real, mut: real, draws: seq<PairDraws>, t: int) returns (c1: seq<int>, c2: seq<int>)
    requires Population(pop, n)
    requires Ranked(fronts, cd, |pop|) && 0 <= t < |draws|
    requires forall t :: 0 <= t < |draws| ==> TournamentDraws(draws[t], |pop|)
    requires VariationDraws(draws[t], n, cx)
    ensures IsPermutation(c1, n) && IsPermutation(c2, n)
    ensures cx <= 0.0 && mut <= 0.0 ==>
              c1 == pop[Parent(fronts, cd, |pop|, draws, 2 * t)] && c2 == pop[Parent(fronts, cd, |pop|, draws, 2 * t + 1)]
  {
    var r := draws[t];
    assert TournamentDraws(r, |pop|);
    var w1 := Tournament(fronts, cd, r.a1, r.b1);
    var w2 := Tournament(fronts, cd, r.a2, r.b2);
    c1, c2 := Breed(pop[w1], pop[w2], n, cx, mut, r);
    assert (2 * t) / 2 == t && (2 * t) % 2 == 0 && (2 * t + 1) / 2 == t && (2 * t + 1) % 2 == 1;
    assert Parent(fronts, cd, |pop|, draws, 2 * t) == w1;
    assert Parent(fronts, cd, |pop|, draws, 2 * t + 1) == w2;
  }

  /** Python's offspring loop `while len(newpop) < popsize`: pairs of
      tournament winners are crossed over (when the coin falls below cx),
      mutated and appended, the second child only while there is room. */
  method Offspring(pop: seq<seq<int>>, n: nat, fronts: seq<seq<int>>, cd: map<int, Dist>,
                   cx: real, mut: real, draws: seq<PairDraws>) returns (newpop: seq<seq<int>>)
    requires |pop| >= 1 && Population(pop, n)
    requires Ranked(fronts, cd, |pop|)
    requires |draws| == (|pop| + 1) / 2
    requires forall t :: 0 <= t < |draws| ==> TournamentDraws(draws[t], |pop|)
    requires forall t :: 0 <= t < |draws| ==> VariationDraws(draws[t], n, cx)
    ensures |newpop| == |pop| && Population(newpop, n)
    ensures cx <= 0.0 && mut <= 0.0 ==> ParentsCopied(pop, fronts, cd, draws, newpop)
  {
    var popsize := |pop|;
    newpop := [];
    var t := 0;
    while |newpop| < popsize
      invariant 0 <= t <= |draws| && |newpop| <= popsize
      invariant |newpop| == 2 * t || (|newpop| == popsize && 2 * t == popsize + 1)
      invariant Population(newpop, n)
      invariant cx <= 0.0 && mut <= 0.0 ==> ParentsCopied(pop, fronts, cd, draws, newpop)
      decreases popsize - |newpop|
    {
      assert t < (popsize + 1) / 2;
      newpop := OffspringPass(pop, n, fronts, cd, cx, mut, draws, newpop, t);
      t := t + 1;
    }
  }

  /** One pass of the offspring loop: two children bred from pass t's
      draws, the second appended only while there is room. */
  method OffspringPass(pop: seq<seq<int>>, n: nat, fronts: seq<seq<int>>, cd: map<int, Dist>,
                       cx: real, mut: real, draws: seq<PairDraws>, newpop: seq<seq<int>>, t: int)
    returns (newpop': seq<seq<int>>)
    requires Population(pop, n) && Ranked(fronts, cd, |pop|)
    requires |pop| <= 2 * |draws| && 0 <= t < |draws|
    requires forall t :: 0 <= t < |draws| ==> TournamentDraws(draws[t], |pop|)
    requires VariationDraws(draws[t], n, cx)
    requires |newpop| == 2 * t < |pop| && Population(newpop, n)
    requires cx <= 0.0 && mut <= 0.0 ==> ParentsCopied(pop, fronts, cd, draws, newpop)
    ensures |newpop'| == 2 * (t + 1) <= |pop| || (|newpop'| == |pop| && 2 * (t + 1) == |pop| + 1)
    ensures Population(newpop', n)
    ensures cx <= 0.0 && mut <= 0.0 ==> ParentsCopied(pop, fronts, cd, draws, newpop')
  {
    var c1, c2 := Pair(pop, n, fronts, cd, cx, mut, draws, t);
    newpop' := AppendChild(pop, n, fronts, cd, cx, mut, draws, newpop, c1);
    if |newpop'| < |pop| {
      newpop' := AppendChild(pop, n, fronts, cd, cx, mut, draws, newpop', c2);
    }
  }

  /** Python's `newpop.append(c)` for the next child c of the offspring loop. */
  method AppendChild(pop: seq<seq<int>>, n: nat, fronts: seq<seq<int>>, cd: map<int, Dist>,
                     cx: real, mut: real, draws: seq<PairDraws>, newpop: seq<seq<int>>, c: seq<int>)
    returns (newpop': seq<seq<int>>)
    requires Ranked(fronts, cd, |pop|) && |newpop| < 2 * |draws|
    requires forall t :: 0 <= t < |draws| ==> TournamentDraws(draws[t], |pop|)
    requires Population(newpop, n) && IsPermutation(c, n)
    requires cx <= 0.0 && mut <= 0.0 ==> ParentsCopied(pop, fronts, cd, draws, newpop)
    requires cx <= 0.0 && mut <= 0.0 ==> c == pop[Parent(fronts, cd, |pop|, draws, |newpop|)]
    ensures newpop' == newpop + [c] && Population(newpop', n)
    ensures cx <= 0.0 && mut <= 0.0 ==> ParentsCopied(pop, fronts, cd, draws, newpop')
  {
    PopulationAppend(newpop, c, n);
    if cx <= 0.0 && mut <= 0.0 {
      CopiedAppend(pop, fronts, cd, draws, newpop, c);
    }
    newpop' := newpop + [c];
  }

  /** The objective vectors of a population (Python's
      `[evaluate(ind, p, d) for ind in pop]`). */
  ghost predicate Scored(p: seq<int>, d: seq<int>, pop: seq<seq<int>>, objs: seq<(int, int)>) {
    && |objs| == |pop|
    && (forall i :: 0 <= i < |pop| ==> ValidSequence(pop[i], p, d))
    && (forall i :: 0 <= i < |pop| ==> objs[i] == Objectives(p, d, pop[i]))
  }

  /** Python's `objs = [evaluate(ind, p, d) for ind in pop]`. */
  method EvaluateAll(pop: seq<seq<int>>, p: seq<int>, d: seq<int>) returns (objs: seq<(int, int)>)
    requires Population(pop, |p|) && |p| <= |d|
    ensures Scored(p, d, pop, objs)
    ensures forall i :: 0 <= i < |objs| ==> objs[i].1 >= 0
  {
    objs := [];
    for i := 0 to |pop|
      invariant |objs| == i
      invariant forall j :: 0 <= j < i ==> ValidSequence(pop[j], p, d) && objs[j] == Objectives(p, d, pop[j])
      invariant forall j :: 0 <= j < i ==> objs[j].1 >= 0
    {
      PermutationFacts(pop[i], |p|);
      var c, t := Evaluate(pop[i], p, d);
      objs := objs + [(c, t)];
    }
  }

  /** One iteration of Python's `for g in range(gen)`: sort, crowd, breed and
      re-evaluate. */
  method Generation(p: seq<int>, d: seq<int>, pop: seq<seq<int>>, objs: seq<(int, int)>,
                    cx: real, mut: real, draws: seq<PairDraws>)
    returns (pop': seq<seq<int>>, objs': seq<(int, int)>, ghost fronts: seq<seq<int>>, ghost cd: map<int, Dist>)
    requires |pop| >= 1 && Population(pop, |p|) && |p| <= |d|
    requires |objs| == |pop|
    requires |draws| == (|pop| + 1) / 2
    requires forall t :: 0 <= t < |draws| ==> TournamentDraws(draws[t], |pop|)
    requires forall t :: 0 <= t < |draws| ==> VariationDraws(draws[t], |p|, cx)
    ensures IsFrontSorting(objs, fronts)
    ensures (forall x :: x in cd <==> 0 <= x < |objs|) && Assigned(objs, fronts, cd, |fronts|)
    ensures Ranked(fronts, cd, |pop|)
    ensures |pop'| == |pop| && Population(pop', |p|)
    ensures cx <= 0.0 && mut <= 0.0 ==> ParentsCopied(pop, fronts, cd, draws, pop')
    ensures Scored(p, d, pop', objs')
  {
    var fronts' := FastSort(objs);
    var cd' := AllCrowding(objs, fronts');
    fronts, cd := fronts', cd';
    forall x | 0 <= x < |pop| ensures InFrontBelow(fronts, |fronts|, x) && x in cd {
    }
    pop' := Offspring(pop, |p|, fronts', cd', cx, mut, draws);
    objs' := EvaluateAll(pop', p, d);
  }

  /** Python's `nsga2(p, d, popsize, gen, cx, mut)` with the initial random
      permutations and every generation's draws given: it returns a
      population of `popsize` job orders, their objective vectors and the
      indices of exactly the individuals no other one dominates. */
  method Nsga2(p: seq<int>, d: seq<int>, popsize: int, gen: nat, cx: real, mut: real,
               init: seq<seq<int>>, draws: seq<seq<PairDraws>>)
    returns (pop: seq<seq<int>>, objs: seq<(int, int)>, pareto: seq<int>)
    requires |p| <= |d| && popsize >= 1
    requires |init| == popsize && Population(init, |p|)
    requires |draws| == gen
    requires forall g :: 0 <= g < gen ==> |draws[g]| == (popsize + 1) / 2
    requires forall g, t :: 0 <= g < gen && 0 <= t < |draws[g]| ==> ValidDraws(draws[g][t], popsize, |p|, cx)
    ensures |pop| == popsize && Population(pop, |p|)
    ensures gen == 0 ==> pop == init
    ensures Scored(p, d, pop, objs)
    ensures NoDup(pareto) && |pareto| > 0
    ensures forall i :: i in pareto <==> 0 <= i < popsize && Undominated(objs, i)
  {
    pop := init;
    objs := EvaluateAll(pop, p, d);
    for g := 0 to gen
      invariant |pop| == popsize && Population(pop, |p|)
      invariant g == 0 ==> pop == init
      invariant Scored(p, d, pop, objs)
    {
      ghost var sorted, crowding;
      pop, objs, sorted, crowding := Generation(p, d, pop, objs, cx, mut, draws[g]);
    }
    var fronts := FastSort(objs);
    FirstFrontIsUndominated(objs, fronts);
    pareto := fronts[0];
    forall i ensures i in pareto <==> 0 <= i < popsize && Undominated(objs, i) {
      if i in pareto {
        assert 0 <= i < |objs|;
      }
    }
  }
}
