/** The clear-and-rebuild loops of the store, over the listed entries of a collection. */
module Rebuild {
  import opened Bytes
  import opened Slots

  /** s lists the entries of m, in any order. */
  ghost predicate Lists<T>(s: seq<(uint64, T)>, m: map<uint64, T>) {
    && (forall a :: 0 <= a < |s| ==> s[a].0 in m && m[s[a].0] == s[a].1)
    && (forall i :: i in m ==> (i, m[i]) in s)
  }

  /** The entries of s on one side of slot k, as the collecting loops gather them. */
  function Select<T>(s: seq<(uint64, T)>, keep: uint64 -> bool): seq<(uint64, T)> {
    if s == [] then []
    else
      var last := s[|s| - 1];
      Select(s[..|s| - 1], keep) + (if keep(last.0) then [last] else [])
  }

  lemma {:induction false} SelectMembers<T>(s: seq<(uint64, T)>, keep: uint64 -> bool)
    ensures forall a :: 0 <= a < |Select(s, keep)| ==> Select(s, keep)[a] in s && keep(Select(s, keep)[a].0)
    ensures forall a :: 0 <= a < |s| && keep(s[a].0) ==> s[a] in Select(s, keep)
  {
    if s == [] {
    } else {
      SelectMembers(s[..|s| - 1], keep);
      assert s == s[..|s| - 1] + [s[|s| - 1]];
    }
  }

  /** The map after `set(move(idx), meta)` for every listed entry in turn. */
  function SetAll<T>(base: map<uint64, T>, s: seq<(uint64, T)>, move: uint64 -> uint64): map<uint64, T> {
    if s == [] then base
    else
      var last := s[|s| - 1];
      SetAll(base, s[..|s| - 1], move)[move(last.0) := last.1]
  }

  lemma {:induction false} SetAllSlot<T>(base: map<uint64, T>, s: seq<(uint64, T)>, move: uint64 -> uint64,
                                         m: map<uint64, T>, back: uint64 -> uint64, j: uint64)
    requires forall a :: 0 <= a < |s| ==> s[a].0 in m && m[s[a].0] == s[a].1
    requires forall a :: 0 <= a < |s| ==> back(move(s[a].0)) == s[a].0
    ensures Lookup(SetAll(base, s, move), j) ==
              if exists a :: 0 <= a < |s| && move(s[a].0) == j then Lookup(m, back(j)) else Lookup(base, j)
  {
    if s == [] {
    } else {
      var front, last := s[..|s| - 1], s[|s| - 1];
      SetAllSlot(base, front, move, m, back, j);
      assert forall a :: 0 <= a < |front| ==> front[a] == s[a];
      if move(last.0) != j && exists a :: 0 <= a < |s| && move(s[a].0) == j {
        var a :| 0 <= a < |s| && move(s[a].0) == j;
        assert front[a] == s[a];
      }
    }
  }

  function Stay(): uint64 -> uint64 {
    (i: uint64) => i
  }

  function Up(): uint64 -> uint64 {
    (i: uint64) => Next(i)
  }

  function Down(): uint64 -> uint64 {
    (i: uint64) => if i == 0 then LAST else i - 1
  }

  function Under(k: uint64): uint64 -> bool {
    (i: uint64) => i < k
  }

  function AtLeast(k: uint64): uint64 -> bool {
    (i: uint64) => k <= i
  }

  function Over(k: uint64): uint64 -> bool {
    (i: uint64) => k < i
  }

  /** The entries that a rebuild keeps or moves, slot by slot. */
  lemma RebuiltSlot<T>(m: map<uint64, T>, s: seq<(uint64, T)>, base: map<uint64, T>, keep: uint64 -> bool,
                             move: uint64 -> uint64, back: uint64 -> uint64, j: uint64)
    requires Lists(s, m)
    requires forall i :: i in m && keep(i) ==> back(move(i)) == i
    requires move(back(j)) == j
    ensures Lookup(SetAll(base, Select(s, keep), move), j) ==
              if back(j) in m && keep(back(j)) then Some(m[back(j)]) else Lookup(base, j)
  {
    var chosen := Select(s, keep);
    SelectMembers(s, keep);
    SetAllSlot(base, chosen, move, m, back, j);
    if back(j) in m && keep(back(j)) {
      assert (back(j), m[back(j)]) in chosen;
    }
  }

  function LowerPart<T>(s: seq<(uint64, T)>, k: uint64): map<uint64, T> {
    SetAll(map[], Select(s, Under(k)), Stay())
  }

  lemma LowerSlot<T>(m: map<uint64, T>, s: seq<(uint64, T)>, k: uint64, j: uint64)
    requires Lists(s, m)
    ensures Lookup(LowerPart(s, k), j) == if j < k then Lookup(m, j) else None
  {
    RebuiltSlot(m, s, map[], Under(k), Stay(), Stay(), j);
  }

  lemma InsertedSlot<T>(m: map<uint64, T>, s: seq<(uint64, T)>, k: uint64, x: T, j: uint64)
    requires Lists(s, m)
    ensures Lookup(SetAll(LowerPart(s, k), Select(s, AtLeast(k)), Up())[k := x], j) == AfterInsert(m, k, x, j)
  {
    LowerSlot(m, s, k, j);
    RebuiltSlot(m, s, LowerPart(s, k), AtLeast(k), Up(), Down(), j);
  }

  /** Rebuilding with the upper entries moved up, in whatever order they were listed, and
      setting the new entry last is exactly the insertion. */
  lemma RebuildIsInsert<T>(m: map<uint64, T>, s: seq<(uint64, T)>, k: uint64, x: T)
    requires Lists(s, m)
    ensures SetAll(LowerPart(s, k), Select(s, AtLeast(k)), Up())[k := x] == InsertAt(m, k, x)
  {
    var all := SetAll(LowerPart(s, k), Select(s, AtLeast(k)), Up());
    forall j: uint64 ensures Lookup(all[k := x], j) == Lookup(InsertAt(m, k, x), j) {
      InsertedSlot(m, s, k, x, j);
    }
    SameSlots(all[k := x], InsertAt(m, k, x));
  }

  /** With nothing to shift the code skips the rebuild; setting the entry is the insertion. */
  lemma NoShiftIsInsert<T>(m: map<uint64, T>, s: seq<(uint64, T)>, k: uint64, x: T)
    requires Lists(s, m) && Select(s, AtLeast(k)) == []
    ensures m[k := x] == InsertAt(m, k, x)
  {
    SelectMembers(s, AtLeast(k));
    forall i | i in m ensures i < k {
      assert (i, m[i]) in s && (i, m[i]) !in Select(s, AtLeast(k));
    }
    SameSlots(m[k := x], InsertAt(m, k, x));
  }

  lemma RebuildIsDelete<T>(m: map<uint64, T>, s: seq<(uint64, T)>, k: uint64)
    requires Lists(s, m)
    ensures SetAll(LowerPart(s, k), Select(s, Over(k)), Down()) == DeleteAt(m, k)
  {
    var low := LowerPart(s, k);
    var all := SetAll(low, Select(s, Over(k)), Down());
    forall j: uint64 ensures Lookup(all, j) == Lookup(DeleteAt(m, k), j) {
      LowerSlot(m, s, k, j);
      RebuiltSlot(m, s, low, Over(k), Down(), Up(), j);
    }
    SameSlots(all, DeleteAt(m, k));
  }
}
