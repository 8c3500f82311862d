/** The single-machine objective evaluator: a job sequence is processed
    back to back from time 0; it is scored by its total completion time and
    its total tardiness. Job j has processing time p[j] and due date d[j]. */
module Evaluation {
  import opened Permutations

  /** Every job named in `s` has a processing time and a due date. */
  predicate ValidSequence(s: seq<int>, p: seq<int>, d: seq<int>) {
    forall k :: 0 <= k < |s| ==> 0 <= s[k] < |p| && s[k] < |d|
  }

  /** Total processing time of the jobs in `s`. */
  function Work(p: seq<int>, s: seq<int>): int
    requires forall k :: 0 <= k < |s| ==> 0 <= s[k] < |p|
  {
    if s == [] then 0 else Work(p, s[..|s| - 1]) + p[s[|s| - 1]]
  }

  /** Sum of all processing times. */
  function Sum(p: seq<int>): int {
    if p == [] then 0 else Sum(p[..|p| - 1]) + p[|p| - 1]
  }

  /** Sum over the jobs of `s` of their completion times; the completion time
      of the job at position k is the work of the prefix s[..k+1]. */
  function TotalCompletion(p: seq<int>, s: seq<int>): int
    requires forall k :: 0 <= k < |s| ==> 0 <= s[k] < |p|
  {
    if s == [] then 0 else TotalCompletion(p, s[..|s| - 1]) + Work(p, s)
  }

  function Max0(x: int): int {
    if x > 0 then x else 0
  }

  /** Sum over the jobs of `s` of max(completion - due date, 0). */
  function TotalTardiness(p: seq<int>, d: seq<int>, s: seq<int>): (r: int)
    requires ValidSequence(s, p, d)
    ensures r >= 0
  {
    if s == [] then 0
    else TotalTardiness(p, d, s[..|s| - 1]) + Max0(Work(p, s) - d[s[|s| - 1]])
  }

  /** The objective vector (total completion time, total tardiness). */
  function Objectives(p: seq<int>, d: seq<int>, s: seq<int>): (r: (int, int))
    requires ValidSequence(s, p, d)
    ensures r.1 >= 0
    ensures s == [] ==> r == (0, 0)
  {
    (TotalCompletion(p, s), TotalTardiness(p, d, s))
  }

  /** Python's `evaluate`: one pass accumulating the clock t and both totals. */
  method Evaluate(s: seq<int>, p: seq<int>, d: seq<int>) returns (totalC: int, totalT: int)
    requires ValidSequence(s, p, d)
    ensures (totalC, totalT) == Objectives(p, d, s)
    ensures s == [] ==> totalC == 0 && totalT == 0
    ensures totalT >= 0
  {
    var t := 0;
    totalC, totalT := 0, 0;
    for i := 0 to |s|
      invariant t == Work(p, s[..i])
      invariant totalC == TotalCompletion(p, s[..i])
      invariant totalT == TotalTardiness(p, d, s[..i])
    {
      var j := s[i];
      assert s[..i + 1][..i] == s[..i];
      t := t + p[j];
      totalC := totalC + t;
      totalT := totalT + Max0(t - d[j]);
    }
    assert s[..|s|] == s;
  }

  /** With non-negative processing times the total completion time is at
      least the total work of the sequence. */
  lemma {:induction false} CompletionAtLeastWork(p: seq<int>, s: seq<int>)
    requires forall k :: 0 <= k < |s| ==> 0 <= s[k] < |p|
    requires forall j :: 0 <= j < |p| ==> p[j] >= 0
    ensures TotalCompletion(p, s) >= Work(p, s) >= 0
  {
    if s != [] {
      CompletionAtLeastWork(p, s[..|s| - 1]);
    }
  }

  lemma {:induction false} WorkAppend(p: seq<int>, a: seq<int>, b: seq<int>)
    requires forall k :: 0 <= k < |a| ==> 0 <= a[k] < |p|
    requires forall k :: 0 <= k < |b| ==> 0 <= b[k] < |p|
    ensures Work(p, a + b) == Work(p, a) + Work(p, b)
  {
    if b == [] {
      assert a + b == a;
    } else {
      assert (a + b)[..|a + b| - 1] == a + b[..|b| - 1];
      WorkAppend(p, a, b[..|b| - 1]);
    }
  }

  lemma WorkRemove(p: seq<int>, t: seq<int>, i: int)
    requires forall k :: 0 <= k < |t| ==> 0 <= t[k] < |p|
    requires 0 <= i < |t|
    ensures Work(p, t) == Work(p, t[..i] + t[i + 1..]) + p[t[i]]
  {
    assert t == t[..i] + [t[i]] + t[i + 1..];
    WorkAppend(p, t[..i] + [t[i]], t[i + 1..]);
    WorkAppend(p, t[..i], [t[i]]);
    WorkAppend(p, t[..i], t[i + 1..]);
    assert [t[i]][..0] == [];
  }

  lemma MultisetRemove(t: seq<int>, i: int)
    requires 0 <= i < |t|
    ensures multiset(t[..i] + t[i + 1..]) == multiset(t) - multiset{t[i]}
  {
    assert t == t[..i] + [t[i]] + t[i + 1..];
  }

  /** A rearrangement of job indices holds job indices only. */
  lemma SameRange(p: seq<int>, s: seq<int>, t: seq<int>)
    requires forall k :: 0 <= k < |s| ==> 0 <= s[k] < |p|
    requires multiset(s) == multiset(t)
    ensures forall k :: 0 <= k < |t| ==> 0 <= t[k] < |p|
  {
    forall k | 0 <= k < |t| ensures 0 <= t[k] < |p| {
      assert t[k] in multiset(t);
    }
  }

  /** A position of v in t, for a v that t holds. */
  lemma IndexIn(t: seq<int>, v: int) returns (i: int)
    requires v in multiset(t)
    ensures 0 <= i < |t| && t[i] == v
  {
    i :| 0 <= i < |t| && t[i] == v;
  }

  /** The work of a sequence depends only on which jobs it holds. */
  lemma {:induction false} WorkDependsOnMultiset(p: seq<int>, s: seq<int>, t: seq<int>)
    requires forall k :: 0 <= k < |s| ==> 0 <= s[k] < |p|
    requires multiset(s) == multiset(t)
    ensures forall k :: 0 <= k < |t| ==> 0 <= t[k] < |p|
    ensures Work(p, s) == Work(p, t)
  {
    SameRange(p, s, t);
    if s != [] {
      var n := |s| - 1;
      var i := IndexIn(t, s[n]);
      MultisetRemove(s, n);
      MultisetRemove(t, i);
      assert s[..n] + s[n + 1..] == s[..n];
      WorkDependsOnMultiset(p, s[..n], t[..i] + t[i + 1..]);
      WorkRemove(p, t, i);
    }
  }

  lemma {:induction false} WorkOfIota(p: seq<int>, k: nat)
    requires k <= |p|
    ensures (IotaIndices(k); Work(p, Iota(k)) == Sum(p[..k]))
  {
    if k > 0 {
      WorkOfIota(p, k - 1);
      IotaIndices(k);
      assert Iota(k)[..k - 1] == Iota(k - 1);
      assert p[..k][..k - 1] == p[..k - 1];
    }
  }

  /** For a permutation of all jobs with non-negative processing times, the
      total completion time is at least the sum of all processing times. */
  lemma CompletionOfPermutation(p: seq<int>, s: seq<int>)
    requires IsPermutation(s, |p|)
    requires forall j :: 0 <= j < |p| ==> p[j] >= 0
    ensures forall k :: 0 <= k < |s| ==> 0 <= s[k] < |p|
    ensures Work(p, s) == Sum(p)
    ensures TotalCompletion(p, s) >= Sum(p)
  {
    PermutationFacts(s, |p|);
    IotaIndices(|p|);
    WorkDependsOnMultiset(p, Iota(|p|), s);
    WorkOfIota(p, |p|);
    assert p[..|p|] == p;
    CompletionAtLeastWork(p, s);
  }

  /** The worked example: p = [5,3,8,2], d = [10,8,20,5], sequence [3,1,0,2]
      completes at 2, 5, 10, 18 and no job is late. */
  lemma ExampleObjectives()
    ensures Objectives([5, 3, 8, 2], [10, 8, 20, 5], [3, 1, 0, 2]) == (35, 0)
  {
    var p, d, s := [5, 3, 8, 2], [10, 8, 20, 5], [3, 1, 0, 2];
    assert s[..3] == [3, 1, 0] && s[..3][..2] == [3, 1] && s[..3][..2][..1] == [3];
    assert [3][..0] == [];
    assert Work(p, [3]) == 2;
    assert Work(p, [3, 1]) == 5;
    assert Work(p, [3, 1, 0]) == 10;
    assert Work(p, s) == 18;
    assert TotalCompletion(p, s) == 35;
    assert TotalTardiness(p, d, s) == 0;
  }
}
