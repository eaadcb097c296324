/** Which blocks of a window a tagging request selects. */
module Selector {
  import opened Bytes
  import opened Indices
  import opened Audit

  datatype Selection = Targets(indices: seq<uint64>) | OutOfWindow | Duplicates

  predicate InWindow(source: BlockSource, index: uint64) {
    source.start < index <= source.start + source.count
  }

  predicate AllInWindow(source: BlockSource, indices: seq<uint64>) {
    forall i :: 0 <= i < |indices| ==> InWindow(source, indices[i])
  }

  predicate WholeWindow(selector: Option<seq<uint64>>) {
    selector.None? || selector.value == []
  }

  ghost predicate Selectable(selector: Option<seq<uint64>>, source: BlockSource) {
    WholeWindow(selector) || (AllInWindow(source, selector.value) && Distinct(selector.value))
  }

  /** The chosen indices as a set: the selector's, or every block of the window. */
  ghost function Chosen(selector: Option<seq<uint64>>, source: BlockSource): set<uint64> {
    if WholeWindow(selector) then set i: uint64 | source.start < i <= source.start + source.count && InWindow(source, i)
    else set i | i in selector.value
  }

  function InsertSorted(indices: seq<uint64>, x: uint64): seq<uint64> {
    if indices == [] || indices[|indices| - 1] <= x then indices + [x]
    else InsertSorted(indices[..|indices| - 1], x) + [indices[|indices| - 1]]
  }

  /** `std::sort`: the ascending arrangement of the same entries. */
  function Sort(indices: seq<uint64>): seq<uint64> {
    if indices == [] then [] else InsertSorted(Sort(indices[..|indices| - 1]), indices[|indices| - 1])
  }

  lemma {:induction false} InsertSortedMembers(indices: seq<uint64>, x: uint64)
    ensures multiset(InsertSorted(indices, x)) == multiset(indices) + multiset{x}
  {
    if indices != [] && indices[|indices| - 1] > x {
      var front, last := indices[..|indices| - 1], indices[|indices| - 1];
      InsertSortedMembers(front, x);
      assert indices == front + [last];
    }
  }

  lemma {:induction false} InsertSortedBound(indices: seq<uint64>, x: uint64, top: uint64)
    requires x <= top && forall i :: 0 <= i < |indices| ==> indices[i] <= top
    ensures forall i :: 0 <= i < |InsertSorted(indices, x)| ==> InsertSorted(indices, x)[i] <= top
  {
    if indices != [] && indices[|indices| - 1] > x {
      InsertSortedBound(indices[..|indices| - 1], x, top);
    }
  }

  lemma SortedExtend(front: seq<uint64>, last: uint64)
    requires Ascending(front) && forall i :: 0 <= i < |front| ==> front[i] <= last
    ensures Ascending(front + [last])
  {
  }

  lemma {:induction false} InsertSortedOrder(indices: seq<uint64>, x: uint64)
    requires Ascending(indices)
    ensures Ascending(InsertSorted(indices, x))
  {
    if indices != [] && indices[|indices| - 1] > x {
      var front, last := indices[..|indices| - 1], indices[|indices| - 1];
      InsertSortedOrder(front, x);
      InsertSortedBound(front, x, last);
      SortedExtend(InsertSorted(front, x), last);
    } else {
      SortedExtend(indices, x);
    }
  }

  lemma {:induction false} SortSorts(indices: seq<uint64>)
    ensures Ascending(Sort(indices)) && multiset(Sort(indices)) == multiset(indices)
  {
    if indices != [] {
      var front, last := indices[..|indices| - 1], indices[|indices| - 1];
      SortSorts(front);
      InsertSortedMembers(Sort(front), last);
      InsertSortedOrder(Sort(front), last);
      assert indices == front + [last];
    }
  }

  lemma {:induction false} DistinctByCount(indices: seq<uint64>)
    ensures Distinct(indices) <==> forall x :: multiset(indices)[x] <= 1
  {
    if indices == [] {
    } else {
      var k := |indices| - 1;
      DistinctByCount(indices[..k]);
      assert indices == indices[..k] + [indices[k]];
      assert multiset(indices) == multiset(indices[..k]) + multiset{indices[k]};
      if Distinct(indices) {
        assert indices[k] !in indices[..k];
      } else if forall x :: multiset(indices)[x] <= 1 {
        assert multiset(indices)[indices[k]] <= 1;
        assert forall x :: multiset(indices[..k])[x] <= multiset(indices)[x];
        assert indices[k] !in indices[..k];
      }
    }
  }

  lemma SameMembers(x: seq<uint64>, y: seq<uint64>)
    requires multiset(x) == multiset(y)
    ensures forall i: uint64 :: i in x <==> i in y
    ensures Distinct(x) <==> Distinct(y)
  {
    DistinctByCount(x);
    DistinctByCount(y);
    forall i: uint64 ensures i in x <==> i in y {
      assert (i in x <==> i in multiset(x)) && (i in y <==> i in multiset(y));
    }
  }

  /** Every block of the window. */
  method WindowIndices(source: BlockSource) returns (indices: seq<uint64>)
    ensures |indices| == source.count
    ensures forall i :: 0 <= i < source.count ==> indices[i] == source.start + i + 1
    ensures forall i: uint64 :: i in indices <==> InWindow(source, i)
  {
    indices := [];
    for i := 0 to source.count
      invariant |indices| == i && forall j :: 0 <= j < i ==> indices[j] == source.start + j + 1
    {
      indices := indices + [source.start + i + 1];
    }
    forall i: uint64 ensures i in indices <==> InWindow(source, i) {
      if InWindow(source, i) {
        assert indices[i - source.start - 1] == i;
      }
    }
  }

  /** `std::adjacent_find` on a sorted list finds an entry exactly when one is repeated. */
  method AdjacentFind(indices: seq<uint64>) returns (found: bool)
    requires indices != [] && Ascending(indices)
    ensures found <==> !Distinct(indices)
    ensures !found ==> StrictlyAscending(indices)
  {
    for i := 0 to |indices| - 1
      invariant forall j :: 0 <= j < i ==> indices[j] < indices[j + 1]
    {
      if indices[i] == indices[i + 1] {
        return true;
      }
    }
    AdjacentRising(indices);
    found := false;
  }

  /** The checks of a non-empty selector: first the window, then, sorted, the duplicates. */
  method CheckSelector(given: seq<uint64>, source: BlockSource) returns (result: Selection)
    requires given != []
    ensures result.Targets? <==> AllInWindow(source, given) && Distinct(given)
    ensures result.OutOfWindow? <==> !AllInWindow(source, given)
    ensures result.Targets? ==>
              && StrictlyAscending(result.indices) && AllInWindow(source, result.indices)
              && multiset(result.indices) == multiset(given)
              && forall i: uint64 :: i in result.indices <==> i in given
  {
    for i := 0 to |given|
      invariant forall j :: 0 <= j < i ==> InWindow(source, given[j])
    {
      var index := given[i];
      if !(index > source.start && index - source.start <= source.count) {
        assert !InWindow(source, given[i]);
        return OutOfWindow;
      }
    }
    var indices := Sort(given);
    SortSorts(given);
    SameMembers(indices, given);
    assert |indices| == |multiset(indices)| == |given|;
    var repeated := AdjacentFind(indices);
    if repeated {
      return Duplicates;
    }
    forall i | 0 <= i < |indices| ensures InWindow(source, indices[i]) {
      assert indices[i] in given;
    }
    result := Targets(indices);
  }

  /** Accepts exactly the selectors of distinct indices inside the window, and returns the
      chosen set in ascending order. */
  method ResolveTargetBlockIndices(selector: Option<seq<uint64>>, source: BlockSource) returns (result: Selection)
    ensures result.Targets? <==> Selectable(selector, source)
    ensures selector.None? || selector == Some([]) ==>
              && result.Targets? && |result.indices| == source.count
              && forall i :: 0 <= i < source.count ==> result.indices[i] == source.start + i + 1
    ensures selector.Some? && selector.value != [] ==>
              (result.Targets? <==>
                && (forall i :: 0 <= i < |selector.value| ==>
                      source.start + 1 <= selector.value[i] <= source.start + source.count)
                && (forall i, j :: 0 <= i < j < |selector.value| ==> selector.value[i] != selector.value[j]))
    ensures selector.Some? && selector.value != [] && result.Targets? ==>
              multiset(result.indices) == multiset(selector.value)
    ensures result.OutOfWindow? <==> !WholeWindow(selector) && !AllInWindow(source, selector.value)
    ensures result.Targets? ==>
              && StrictlyAscending(result.indices) && AllInWindow(source, result.indices)
              && (set i | i in result.indices) == Chosen(selector, source)
  {
    if WholeWindow(selector) {
      var indices := WindowIndices(source);
      return Targets(indices);
    }
    result := CheckSelector(selector.value, source);
  }

  lemma {:induction false} AdjacentRising(indices: seq<uint64>)
    requires forall j :: 0 <= j < |indices| - 1 ==> indices[j] < indices[j + 1]
    ensures StrictlyAscending(indices) && Distinct(indices)
  {
    if indices == [] {
    } else {
      var k := |indices| - 1;
      AdjacentRising(indices[..k]);
      assert k > 0 ==> indices[k - 1] < indices[k];
      forall i, j | 0 <= i < j < |indices| ensures indices[i] < indices[j] {
        assert j < k ==> indices[..k][i] < indices[..k][j];
        assert i < k - 1 ==> indices[..k][i] < indices[..k][k - 1];
      }
    }
  }
}
