/** The two permutation-preserving operators of the optimiser: order
    crossover and swap mutation. The random choices of the original (the
    two cut points, the per-position coin flips and swap targets) are
    parameters here. */
module GeneticOperators {
  import opened Permutations

  /** Python's `[x for x in s if x in c]`. */
  function Common(s: seq<int>, c: seq<int>): (r: seq<int>)
    ensures forall x :: x in r ==> x in s && x in c
  {
    if s == [] then [] else (if s[0] in c then [s[0]] else []) + Common(s[1..], c)
  }

  /** Python's `[x for x in s if x not in c]`: the values of `s` missing from
      `c`, in the order of `s`. */
  function Missing(s: seq<int>, c: seq<int>): (r: seq<int>)
    ensures forall x :: x in r ==> x in s && x !in c
  {
    if s == [] then [] else (if s[0] in c then [] else [s[0]]) + Missing(s[1..], c)
  }

  /** Python's `[i for i in range(m) if c[i] == -1]`: the unfilled slots. */
  function Holes(c: seq<int>, m: nat): (r: seq<int>)
    requires m <= |c|
    ensures forall k :: 0 <= k < |r| ==> 0 <= r[k] < m && c[r[k]] == -1
    ensures forall j, k :: 0 <= j < k < |r| ==> r[j] < r[k]
  {
    if m == 0 then [] else Holes(c, m - 1) + (if c[m - 1] == -1 then [m - 1] else [])
  }

  /** The k-th position outside the segment [a, b], counting left to right. */
  function Slot(k: int, a: int, b: int): int {
    if k < a then k else k + (b - a + 1)
  }

  /** Splitting a list by membership in `c` loses and adds nothing. */
  lemma {:induction false} SplitMultiset(s: seq<int>, c: seq<int>)
    ensures multiset(s) == multiset(Common(s, c)) + multiset(Missing(s, c))
  {
    if s != [] {
      SplitMultiset(s[1..], c);
      assert s == [s[0]] + s[1..];
    }
  }

  lemma {:induction false} CommonMultiplicity(s: seq<int>, c: seq<int>, v: int)
    ensures multiset(Common(s, c))[v] == if v in c then multiset(s)[v] else 0
  {
    if s != [] {
      CommonMultiplicity(s[1..], c, v);
      assert s == [s[0]] + s[1..];
    }
  }

  /** `Missing` only looks at membership in its second argument. */
  lemma {:induction false} MissingSameMembers(s: seq<int>, c: seq<int>, c': seq<int>)
    requires forall i :: 0 <= i < |s| ==> (s[i] in c <==> s[i] in c')
    ensures Missing(s, c) == Missing(s, c')
  {
    if s != [] {
      MissingSameMembers(s[1..], c, c');
    }
  }

  /** The slots left unfilled after copying a segment of non-negative values. */
  lemma {:induction false} HolesAroundSegment(c: seq<int>, a: int, b: int, m: nat)
    requires 0 <= a <= b < |c| && m <= |c|
    requires forall i :: 0 <= i < |c| ==> (c[i] == -1 <==> !(a <= i <= b))
    ensures |Holes(c, m)| == if m <= a then m else if m <= b + 1 then a else m - (b - a + 1)
    ensures forall k :: 0 <= k < |Holes(c, m)| ==> Holes(c, m)[k] == Slot(k, a, b)
  {
    if m > 0 {
      HolesAroundSegment(c, a, b, m - 1);
    }
  }

  /** Both parents are permutations, so the segment of one holds each of its
      values once, and the other parent holds each of them once as well. */
  lemma SegmentInOtherParent(a1: seq<int>, a2: seq<int>, n: nat, a: int, b: int)
    requires IsPermutation(a1, n) && IsPermutation(a2, n)
    requires 0 <= a <= b < |a1| == n
    ensures multiset(Common(a2, a1[a..b + 1])) == multiset(a1[a..b + 1])
  {
    var seg := a1[a..b + 1];
    PermutationFacts(a1, n);
    assert a1 == a1[..a] + seg + a1[b + 1..];
    assert multiset(a1) == multiset(a1[..a]) + multiset(seg) + multiset(a1[b + 1..]);
    forall v ensures multiset(Common(a2, seg))[v] == multiset(seg)[v] {
      CommonMultiplicity(a2, seg, v);
      PermutationMultiplicity(a1, n, v);
      if v in seg {
        assert v in a1;
        IotaMultiplicity(n, v);
      }
    }
    assert multiset(Common(a2, seg)) == multiset(seg);
  }

  /** The list after `c = [-1]*n; c[a:b+1] = a1[a:b+1]`. */
  function Seeded(a1: seq<int>, a: int, b: int): (c: seq<int>)
    ensures |c| == |a1|
  {
    seq(|a1|, i requires 0 <= i < |a1| => if a <= i <= b then a1[i] else -1)
  }

  /** For permutations, the values to fill in are a2's values outside the
      segment, and the free slots are those left and right of the segment. */
  lemma OxSetup(a1: seq<int>, a2: seq<int>, a: int, b: int)
    requires 0 <= a < b < |a1| && |a2| == |a1|
    requires IsPermutation(a1, |a1|) && IsPermutation(a2, |a1|)
    ensures Missing(a2, Seeded(a1, a, b)) == Missing(a2, a1[a..b + 1])
    ensures |Missing(a2, a1[a..b + 1])| == |a1| - (b - a + 1)
    ensures |Holes(Seeded(a1, a, b), |a1|)| == |a1| - (b - a + 1)
    ensures forall k :: 0 <= k < |a1| - (b - a + 1) ==> Holes(Seeded(a1, a, b), |a1|)[k] == Slot(k, a, b)
  {
    var n, c0, seg := |a1|, Seeded(a1, a, b), a1[a..b + 1];
    PermutationFacts(a1, n);
    PermutationFacts(a2, n);
    forall k | 0 <= k < |a2| ensures a2[k] in c0 <==> a2[k] in seg {
      var x := a2[k];
      if x in c0 {
        var i :| 0 <= i < n && c0[i] == x;
        assert c0[i] == seg[i - a];
      }
      if x in seg {
        var i :| 0 <= i < |seg| && seg[i] == x;
        assert c0[a + i] == x;
      }
    }
    MissingSameMembers(a2, c0, seg);
    HolesAroundSegment(c0, a, b, n);
    SplitMultiset(a2, seg);
    SegmentInOtherParent(a1, a2, n, a, b);
    assert |multiset(a2)| == |multiset(seg)| + |multiset(Missing(a2, seg))|;
  }

  /** Reading the slots outside [a, b] left to right gives the values placed
      in them. */
  lemma OutsideSegment(child: seq<int>, fill: seq<int>, a: int, b: int)
    requires 0 <= a <= b < |child|
    requires |fill| == |child| - (b - a + 1)
    requires forall j :: 0 <= j < |fill| ==> child[Slot(j, a, b)] == fill[j]
    ensures child[..a] + child[b + 1..] == fill
  {
    forall j | 0 <= j < |fill| ensures (child[..a] + child[b + 1..])[j] == fill[j] {
      assert child[Slot(j, a, b)] == fill[j];
    }
  }

  /** A child that keeps a1's segment and holds `fill` in the other slots, in
      order, is a permutation when `fill` is a2's values outside the segment. */
  lemma OxFinish(a1: seq<int>, a2: seq<int>, a: int, b: int, child: seq<int>)
    requires 0 <= a < b < |a1| && |a2| == |a1| == |child|
    requires IsPermutation(a1, |a1|) && IsPermutation(a2, |a1|)
    requires child[a..b + 1] == a1[a..b + 1]
    requires child[..a] + child[b + 1..] == Missing(a2, a1[a..b + 1])
    ensures IsPermutation(child, |a1|)
  {
    var seg, fill := a1[a..b + 1], Missing(a2, a1[a..b + 1]);
    assert child == child[..a] + seg + child[b + 1..];
    assert multiset(child) == multiset(fill) + multiset(seg);
    SplitMultiset(a2, seg);
    SegmentInOtherParent(a1, a2, |a1|, a, b);
  }

  /** Python's inner `ox(a1, a2)`: keep a1's segment [a, b] in place, then fill
      the other slots left to right with the values of a2 not yet placed. */
  method Ox(a1: seq<int>, a2: seq<int>, a: int, b: int) returns (child: seq<int>)
    requires 0 <= a < b < |a1| && |a2| == |a1|
    ensures |child| == |a1|
    ensures IsPermutation(a1, |a1|) && IsPermutation(a2, |a1|) ==>
              && IsPermutation(child, |a1|)
              && child[a..b + 1] == a1[a..b + 1]
              && child[..a] + child[b + 1..] == Missing(a2, a1[a..b + 1])
  {
    var n := |a1|;
    var c := new int[n](_ => -1);
    forall i | a <= i <= b {
      c[i] := a1[i];
    }
    assert c[..] == Seeded(a1, a, b);
    var fill := Missing(a2, c[..]);
    var pos := Holes(c[..], n);
    ghost var c0 := c[..];
    var k := 0;
    while k < |pos| && k < |fill|
      invariant 0 <= k <= |pos| && k <= |fill|
      invariant forall i :: 0 <= i < n && c0[i] != -1 ==> c[i] == c0[i]
      invariant forall j :: 0 <= j < k ==> c[pos[j]] == fill[j]
    {
      c[pos[k]] := fill[k];
      k := k + 1;
    }
    child := c[..];
    if IsPermutation(a1, n) && IsPermutation(a2, n) {
      OxResult(a1, a2, a, b, child, k);
    }
  }

  /** What the loop of `ox` leaves behind, for permutations: the segment kept
      and the other slots filled, in order, with the values of a2 outside it. */
  lemma OxResult(a1: seq<int>, a2: seq<int>, a: int, b: int, child: seq<int>, k: int)
    requires 0 <= a < b < |a1| && |a2| == |a1| == |child|
    requires IsPermutation(a1, |a1|) && IsPermutation(a2, |a1|)
    requires forall i :: 0 <= i < |a1| && Seeded(a1, a, b)[i] != -1 ==> child[i] == Seeded(a1, a, b)[i]
    requires 0 <= k <= |Holes(Seeded(a1, a, b), |a1|)| && k <= |Missing(a2, Seeded(a1, a, b))|
    requires k == |Holes(Seeded(a1, a, b), |a1|)| || k == |Missing(a2, Seeded(a1, a, b))|
    requires forall j :: 0 <= j < k ==> child[Holes(Seeded(a1, a, b), |a1|)[j]] == Missing(a2, Seeded(a1, a, b))[j]
    ensures IsPermutation(child, |a1|)
    ensures child[a..b + 1] == a1[a..b + 1]
    ensures child[..a] + child[b + 1..] == Missing(a2, a1[a..b + 1])
  {
    var n, c0 := |a1|, Seeded(a1, a, b);
    OxSetup(a1, a2, a, b);
    PermutationFacts(a1, n);
    forall i | a <= i <= b ensures child[i] == a1[i] {
      assert c0[i] == a1[i];
    }
    assert child[a..b + 1] == a1[a..b + 1];
    OutsideSegment(child, Missing(a2, c0), a, b);
    OxFinish(a1, a2, a, b, child);
  }

  /** Python's `order_crossover`, with the sorted cut points a < b given. */
  method OrderCrossover(p1: seq<int>, p2: seq<int>, a: int, b: int) returns (c1: seq<int>, c2: seq<int>)
    requires 0 <= a < b < |p1| && |p2| == |p1|
    ensures |c1| == |p1| && |c2| == |p1|
    ensures IsPermutation(p1, |p1|) && IsPermutation(p2, |p1|) ==>
              && IsPermutation(c1, |p1|) && IsPermutation(c2, |p1|)
              && c1[a..b + 1] == p1[a..b + 1] && c2[a..b + 1] == p2[a..b + 1]
              && c1[..a] + c1[b + 1..] == Missing(p2, p1[a..b + 1])
              && c2[..a] + c2[b + 1..] == Missing(p1, p2[a..b + 1])
  {
    c1 := Ox(p1, p2, a, b);
    c2 := Ox(p2, p1, a, b);
  }

  /** Position k took part in the swap made at step m. */
  predicate SwappedAt(rate: real, coins: seq<real>, targets: seq<int>, m: int, k: int)
    requires 0 <= m < |coins| && m < |targets|
  {
    coins[m] < rate && (m == k || targets[m] == k)
  }

  /** Python's `mutation`: work on a copy; at each position i, when the coin
      `coins[i]` (a draw in [0, 1)) falls below `rate`, swap with position
      `targets[i]`. */
  method Mutation(s0: seq<int>, rate: real, coins: seq<real>, targets: seq<int>) returns (s: seq<int>)
    requires |coins| == |s0| && |targets| == |s0|
    requires forall i :: 0 <= i < |s0| ==> 0.0 <= coins[i] < 1.0 && 0 <= targets[i] < |s0|
    ensures |s| == |s0| && multiset(s) == multiset(s0)
    ensures forall k :: 0 <= k < |s0| && (forall m :: 0 <= m < |s0| ==> !SwappedAt(rate, coins, targets, m, k)) ==>
              s[k] == s0[k]
    ensures rate <= 0.0 ==> s == s0
  {
    var a := new int[|s0|](i requires 0 <= i < |s0| => s0[i]);
    assert a[..] == s0;
    for i := 0 to a.Length
      invariant multiset(a[..]) == multiset(s0)
      invariant forall k :: 0 <= k < a.Length && (forall m :: 0 <= m < i ==> !SwappedAt(rate, coins, targets, m, k)) ==>
                  a[k] == s0[k]
    {
      if coins[i] < rate {
        var j := targets[i];
        ghost var before := a[..];
        a[i], a[j] := a[j], a[i];
        assert a[..] == Swap(before, i, j);
      }
      forall k | 0 <= k < a.Length && (forall m :: 0 <= m < i + 1 ==> !SwappedAt(rate, coins, targets, m, k))
        ensures a[k] == s0[k]
      {
        assert !SwappedAt(rate, coins, targets, i, k);
      }
    }
    s := a[..];
  }
}
