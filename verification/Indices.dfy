/** Orders on lists of block indices. */
module Indices {
  import opened Bytes

  ghost predicate Distinct(indices: seq<uint64>) {
    forall i, j :: 0 <= i < j < |indices| ==> indices[i] != indices[j]
  }

  ghost predicate Ascending(indices: seq<uint64>) {
    forall i, j :: 0 <= i < j < |indices| ==> indices[i] <= indices[j]
  }

  ghost predicate StrictlyAscending(indices: seq<uint64>) {
    forall i, j :: 0 <= i < j < |indices| ==> indices[i] < indices[j]
  }

  ghost predicate StrictlyDescending(indices: seq<uint64>) {
    forall i, j :: 0 <= i < j < |indices| ==> indices[j] < indices[i]
  }
}
