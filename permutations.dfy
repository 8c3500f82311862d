/** Permutations of the job (or city) indices 0..n-1, shared by the genetic
    operators, the generational loop and the tour search. */
module Permutations {

  /** The list 0, 1, ..., n-1 (Python's `list(range(n))`). */
  function Iota(n: nat): (r: seq<int>)
    ensures |r| == n
  {
    if n == 0 then [] else Iota(n - 1) + [n - 1]
  }

  /** Position i of `list(range(n))` holds i. */
  lemma {:induction false} IotaIndices(n: nat)
    ensures forall i :: 0 <= i < n ==> Iota(n)[i] == i
  {
    if n > 0 {
      IotaIndices(n - 1);
      assert forall i :: 0 <= i < n - 1 ==> Iota(n)[i] == Iota(n - 1)[i];
    }
  }

  /** `s` holds every index 0..n-1 exactly once. */
  predicate IsPermutation(s: seq<int>, n: nat) {
    multiset(s) == multiset(Iota(n))
  }

  /** Python's `s[i], s[j] = s[j], s[i]` on a copy. */
  function Swap(s: seq<int>, i: int, j: int): (r: seq<int>)
    requires 0 <= i < |s| && 0 <= j < |s|
    ensures |r| == |s| && r[i] == s[j] && r[j] == s[i]
    ensures forall k :: 0 <= k < |s| && k != i && k != j ==> r[k] == s[k]
    ensures multiset(r) == multiset(s)
  {
    s[i := s[j]][j := s[i]]
  }

  lemma {:induction false} IotaMultiplicity(n: nat, v: int)
    ensures multiset(Iota(n))[v] == if 0 <= v < n then 1 else 0
  {
    if n > 0 {
      IotaMultiplicity(n - 1, v);
      assert multiset(Iota(n)) == multiset(Iota(n - 1)) + multiset{n - 1};
    }
  }

  /** A permutation of 0..n-1 has length n, values in range, and every index in it. */
  lemma PermutationFacts(s: seq<int>, n: nat)
    requires IsPermutation(s, n)
    ensures |s| == n
    ensures forall i :: 0 <= i < |s| ==> 0 <= s[i] < n
    ensures forall v :: 0 <= v < n ==> v in s
  {
    assert |s| == |multiset(s)| == |multiset(Iota(n))| == n;
    forall i | 0 <= i < |s| ensures 0 <= s[i] < n {
      assert s[i] in multiset(s);
      IotaMultiplicity(n, s[i]);
    }
    forall v | 0 <= v < n ensures v in s {
      IotaMultiplicity(n, v);
      assert v in multiset(s);
    }
  }

  /** Every value of a permutation occurs exactly once. */
  lemma PermutationMultiplicity(s: seq<int>, n: nat, v: int)
    requires IsPermutation(s, n)
    ensures multiset(s)[v] <= 1
  {
    IotaMultiplicity(n, v);
  }

  /** No value occurs at two positions of a permutation. */
  lemma PermutationDistinct(s: seq<int>, n: nat, i: int, j: int)
    requires IsPermutation(s, n)
    requires 0 <= i < j < |s|
    ensures s[i] != s[j]
  {
    if s[i] == s[j] {
      var v := s[i];
      assert s == s[..j] + [s[j]] + s[j + 1..];
      assert s[..j] == s[..i] + [s[i]] + s[i + 1..j];
      assert multiset(s)[v] >= 2;
      PermutationMultiplicity(s, n, v);
    }
  }

  /** A swap of two positions keeps a permutation a permutation. */
  lemma SwapIsPermutation(s: seq<int>, n: nat, i: int, j: int)
    requires IsPermutation(s, n)
    requires 0 <= i < |s| && 0 <= j < |s|
    ensures IsPermutation(Swap(s, i, j), n)
  {
  }
}
