/**
 * `sortImports` (goimportssort.go:249-260, and its copy at
 * src/go_imports_sorting.go:195-206): every tier is sorted in place with
 * the comparison of module Ordering.
 */
module Sorting {
  import opened ImpModel
  import opened Ordering
  import opened Tiers

  /** Exchanges two neighbouring entries. */
  method SwapDown(a: array<Imp>, j: int)
    requires 0 < j < a.Length
    modifies a
    ensures a[j - 1] == old(a[j]) && a[j] == old(a[j - 1])
    ensures forall k :: 0 <= k < a.Length && k != j - 1 && k != j ==> a[k] == old(a[k])
    ensures multiset(a[..]) == multiset(old(a[..]))
  {
    a[j - 1], a[j] := a[j], a[j - 1];
  }

  /** Moves `a[i]` left into the sorted prefix `a[..i]`. */
  method InsertLast(a: array<Imp>, i: int)
    requires 0 <= i < a.Length
    requires forall p, q :: 0 <= p < q < i ==> Le(a[p], a[q])
    modifies a
    ensures forall p, q :: 0 <= p < q <= i ==> Le(a[p], a[q])
    ensures forall k :: i < k < a.Length ==> a[k] == old(a[k])
    ensures multiset(a[..]) == multiset(old(a[..]))
  {
    var j := i;
    while j > 0 && ImpLess(a[j], a[j - 1])
      invariant 0 <= j <= i
      invariant multiset(a[..]) == multiset(old(a[..]))
      invariant forall k :: i < k < a.Length ==> a[k] == old(a[k])
      invariant forall p, q :: 0 <= p < q <= i && p != j && q != j ==> Le(a[p], a[q])
      invariant forall q :: j < q <= i ==> ImpLess(a[j], a[q])
    {
      SwapDown(a, j);
      j := j - 1;
    }
    forall p | 0 <= p < j
      ensures Le(a[p], a[j])
    {
      if p < j - 1 {
        LeTransitive(a[p], a[j - 1], a[j]);
      }
    }
    forall q | j < q <= i
      ensures Le(a[j], a[q])
    {
      if ImpLess(a[q], a[j]) {
        ImpLessTransitive(a[q], a[j], a[q]);
        ImpLessIrreflexive(a[q]);
      }
    }
  }

  /**
   * `sort.Slice(imports[x], less)`: sorts one tier in place. Go's library
   * algorithm is not visible here; an insertion sort stands for it, and
   * lemma SortedUnique shows that any correct sort gives the same result.
   */
  method SortTier(a: array<Imp>)
    modifies a
    ensures Sorted(a[..])
    ensures multiset(a[..]) == multiset(old(a[..]))
  {
    var i := 0;
    while i < a.Length
      invariant 0 <= i <= a.Length
      invariant forall p, q :: 0 <= p < q < i ==> Le(a[p], a[q])
      invariant multiset(a[..]) == multiset(old(a[..]))
    {
      InsertLast(a, i);
      i := i + 1;
    }
  }

  /**
   * `sortImports`: every tier sorted, the number of tiers and the entries
   * of each tier kept.
   */
  method SortImports(tiers: seq<seq<Imp>>) returns (sorted: seq<seq<Imp>>)
    ensures |sorted| == |tiers|
    ensures forall x :: 0 <= x < |tiers| ==> Sorted(sorted[x]) && multiset(sorted[x]) == multiset(tiers[x])
    ensures sorted == SortAll(tiers)
  {
    sorted := [];
    for x := 0 to |tiers|
      invariant |sorted| == x
      invariant forall y :: 0 <= y < x ==> sorted[y] == SortSeq(tiers[y])
    {
      var tier := SortedCopy(tiers[x]);
      sorted := sorted + [tier];
    }
    SortAllIs(tiers, sorted);
  }

  /** A sequence holding each tier's sorted arrangement is `SortAll` of the tiers. */
  lemma SortAllIs(tiers: seq<seq<Imp>>, sorted: seq<seq<Imp>>)
    requires |sorted| == |tiers|
    requires forall y :: 0 <= y < |tiers| ==> sorted[y] == SortSeq(tiers[y])
    ensures sorted == SortAll(tiers)
  {
  }

  /** One tier copied into an array and sorted there: the unique sorted arrangement. */
  method SortedCopy(tier: seq<Imp>) returns (r: seq<Imp>)
    ensures r == SortSeq(tier)
  {
    var a := new Imp[|tier|](k requires 0 <= k < |tier| => tier[k]);
    assert a[..] == tier;
    SortTier(a);
    SortedUnique(a[..], SortSeq(tier));
    r := a[..];
  }

  /** Sorting every tier keeps every import and the count of imports. */
  lemma {:induction false} SortAllKeepsEntries(tiers: seq<seq<Imp>>)
    ensures multiset(Flatten(SortAll(tiers))) == multiset(Flatten(tiers))
    ensures Total(SortAll(tiers)) == Total(tiers)
    decreases |tiers|
  {
    var sorted := SortAll(tiers);
    if tiers != [] {
      var n := |tiers|;
      SortAllKeepsEntries(tiers[..n - 1]);
      assert sorted[..n - 1] == SortAll(tiers[..n - 1]);
      assert multiset(sorted[n - 1]) == multiset(tiers[n - 1]);
    }
    TotalIsFlattenLength(sorted);
    TotalIsFlattenLength(tiers);
    assert |Flatten(sorted)| == |multiset(Flatten(sorted))|;
    assert |Flatten(tiers)| == |multiset(Flatten(tiers))|;
  }
}
