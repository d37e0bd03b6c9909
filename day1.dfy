/** Day 1: the total distance between two location lists, and their similarity score. */
module Day1 {

  import RustInt

  /** `sum_distances`: zip the lists (stopping at the shorter one) and add up `|r - l|`. */
  function SumDistances(left: seq<int>, right: seq<int>): (d: int)
    ensures d >= 0
    ensures left == [] || right == [] ==> d == 0
  {
    if left == [] || right == [] then 0
    else RustInt.Abs(right[0] - left[0]) + SumDistances(left[1..], right[1..])
  }

  /** Reference definition: the distances of the first k index-aligned pairs. */
  function PairwiseDistance(left: seq<int>, right: seq<int>, k: nat): int
    requires k <= |left| && k <= |right|
  {
    if k == 0 then 0 else PairwiseDistance(left, right, k - 1) + RustInt.Abs(right[k - 1] - left[k - 1])
  }

  function Min(a: nat, b: nat): nat {
    if a <= b then a else b
  }

  /** The zip stops at the shorter list: the sum covers exactly the first min(|left|, |right|) pairs. */
  lemma {:induction false} SumDistancesPairwise(left: seq<int>, right: seq<int>)
    ensures SumDistances(left, right) == PairwiseDistance(left, right, Min(|left|, |right|))
  {
    if left != [] && right != [] {
      SumDistancesPairwise(left[1..], right[1..]);
      ShiftPairwise(left, right, Min(|left|, |right|) - 1);
    }
  }

  /** Dropping the first pair shifts the pairwise sum by that pair's distance. */
  lemma {:induction false} ShiftPairwise(left: seq<int>, right: seq<int>, k: nat)
    requires k < |left| && k < |right|
    ensures PairwiseDistance(left, right, k + 1)
      == RustInt.Abs(right[0] - left[0]) + PairwiseDistance(left[1..], right[1..], k)
  {
    if k > 0 {
      ShiftPairwise(left, right, k - 1);
    }
  }

  /** Elements beyond the shorter list do not contribute. */
  lemma {:induction false} SumDistancesTruncate(left: seq<int>, right: seq<int>)
    ensures var m := Min(|left|, |right|); SumDistances(left, right) == SumDistances(left[..m], right[..m])
  {
    if left != [] && right != [] {
      var m := Min(|left|, |right|);
      assert left[..m][1..] == left[1..][..m - 1];
      assert right[..m][1..] == right[1..][..m - 1];
      SumDistancesTruncate(left[1..], right[1..]);
    }
  }

  /** `(r - l).abs() == (l - r).abs()`: swapping the lists does not change the total. */
  lemma {:induction false} SumDistancesSymmetric(left: seq<int>, right: seq<int>)
    ensures SumDistances(left, right) == SumDistances(right, left)
  {
    if left != [] && right != [] {
      SumDistancesSymmetric(left[1..], right[1..]);
    }
  }

  /** The number of times v occurs in xs. */
  function Occurrences(xs: seq<int>, v: int): (n: nat)
    ensures n <= |xs|
  {
    if xs == [] then 0 else Occurrences(xs[..|xs| - 1], v) + if xs[|xs| - 1] == v then 1 else 0
  }

  lemma {:induction false} OccurrencesMultiset(xs: seq<int>, v: int)
    ensures Occurrences(xs, v) == multiset(xs)[v]
  {
    if xs != [] {
      var n := |xs| - 1;
      assert xs == xs[..n] + [xs[n]];
      OccurrencesMultiset(xs[..n], v);
    }
  }

  /** The similarity score: each left value times the number of its occurrences on the right. */
  function Similarity(left: seq<int>, right: seq<int>): int {
    if left == [] then 0
    else
      var n := |left| - 1;
      Similarity(left[..n], right) + left[n] * Occurrences(right, left[n])
  }

  /** `frequencies.get(v)` with a missing key read as 0, as the source's `match` does. */
  function Frequency(frequencies: map<int, int>, v: int): int {
    if v in frequencies then frequencies[v] else 0
  }

  /** `sum_similarity`: count every right value in a map, then weigh each left value by its count. */
  method SumSimilarity(left: seq<int>, right: seq<int>) returns (score: int)
    ensures score == Similarity(left, right)
  {
    var frequencies: map<int, int> := map[];
    for i := 0 to |right|
      invariant forall v :: Frequency(frequencies, v) == Occurrences(right[..i], v)
    {
      var e := right[i];
      assert right[..i + 1][..i] == right[..i];
      frequencies := frequencies[e := Frequency(frequencies, e) + 1];
    }
    assert right[..|right|] == right;
    score := 0;
    for j := 0 to |left|
      invariant score == Similarity(left[..j], right)
    {
      var v := left[j];
      assert left[..j + 1][..j] == left[..j];
      score := score + v * Frequency(frequencies, v);
    }
    assert left[..|left|] == left;
  }

  /** The score depends on the right list only through its multiset of values. */
  lemma {:induction false} SimilarityOrderIndependent(left: seq<int>, right: seq<int>, right': seq<int>)
    requires multiset(right) == multiset(right')
    ensures Similarity(left, right) == Similarity(left, right')
  {
    if left != [] {
      var n := |left| - 1;
      SimilarityOrderIndependent(left[..n], right, right');
      OccurrencesMultiset(right, left[n]);
      OccurrencesMultiset(right', left[n]);
    }
  }

  /** The sample lists [3, 4, 2, 1, 3, 3] and [4, 3, 5, 3, 9, 3], sorted as the caller does,
      total 11. */
  lemma ExampleDistances()
    ensures SumDistances([1, 2, 3, 3, 3, 4], [3, 3, 3, 4, 5, 9]) == 11
  {
    var l, r := [1, 2, 3, 3, 3, 4], [3, 3, 3, 4, 5, 9];
    assert SumDistances(l[5..], r[5..]) == 5;
    assert l[4..][1..] == l[5..] && r[4..][1..] == r[5..];
    assert SumDistances(l[4..], r[4..]) == 7;
    assert l[3..][1..] == l[4..] && r[3..][1..] == r[4..];
    assert SumDistances(l[3..], r[3..]) == 8;
    assert l[2..][1..] == l[3..] && r[2..][1..] == r[3..];
    assert SumDistances(l[2..], r[2..]) == 8;
    assert l[1..][1..] == l[2..] && r[1..][1..] == r[2..];
    assert SumDistances(l[1..], r[1..]) == 9;
  }

  /** The sample's similarity score is 31 (3 * 3 for each of the three 3s, plus 4 * 1). */
  lemma ExampleSimilarity()
    ensures Similarity([3, 4, 2, 1, 3, 3], [4, 3, 5, 3, 9, 3]) == 31
  {
    var left := [3, 4, 2, 1, 3, 3];
    var right := [4, 3, 5, 3, 9, 3];
    ExampleCounts(right);
    assert left[..6][..5] == left[..5] && left[..6] == left;
    assert left[..5][..4] == left[..4];
    assert left[..4][..3] == left[..3];
    assert left[..3][..2] == left[..2];
    assert left[..2][..1] == left[..1];
    assert left[..1][..0] == [];
    assert Similarity(left[..1], right) == 9;
    assert Similarity(left[..2], right) == 13;
    assert Similarity(left[..3], right) == 13;
    assert Similarity(left[..4], right) == 13;
    assert Similarity(left[..5], right) == 22;
  }

  lemma ExampleCounts(right: seq<int>)
    requires right == [4, 3, 5, 3, 9, 3]
    ensures Occurrences(right, 3) == 3 && Occurrences(right, 4) == 1
    ensures Occurrences(right, 2) == 0 && Occurrences(right, 1) == 0
  {
    OccurrencesMultiset(right, 3);
    OccurrencesMultiset(right, 4);
    OccurrencesMultiset(right, 2);
    OccurrencesMultiset(right, 1);
  }
}
