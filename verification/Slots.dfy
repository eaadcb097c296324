/** What the state store does to the sparse slots of one file, as functions on maps. */
module Slots {
  import opened Bytes

  const LAST: uint64 := TWO64 - 1

  /** `blockIndex - 1` in `size_t` arithmetic, which wraps at zero. */
  function SlotOf(blockIndex: uint64): uint64 {
    if blockIndex == 0 then LAST else blockIndex - 1
  }

  /** `idx + 1` in `size_t` arithmetic. */
  function Next(slot: uint64): uint64 {
    if slot == LAST then 0 else slot + 1
  }

  function Lookup<T>(m: map<uint64, T>, j: uint64): Option<T> {
    if j in m then Some(m[j]) else None
  }

  /** What slot j holds after inserting x at k. Entries at k and above move one slot up;
      only an entry in the very last slot can wrap to zero and displace another one. */
  function AfterInsert<T>(m: map<uint64, T>, k: uint64, x: T, j: uint64): Option<T> {
    if j == k then Some(x)
    else if j == 0 && LAST in m then Some(m[LAST])
    else if j < k then Lookup(m, j)
    else Lookup(m, j - 1)
  }

  /** What slot j holds after deleting k: entries above k move one slot down. */
  function AfterDelete<T>(m: map<uint64, T>, k: uint64, j: uint64): Option<T> {
    if j < k then Lookup(m, j) else if j < LAST then Lookup(m, j + 1) else None
  }

  function InsertAt<T>(m: map<uint64, T>, k: uint64, x: T): map<uint64, T> {
    map j: uint64 | 0 <= j <= LAST && AfterInsert(m, k, x, j).Some? :: AfterInsert(m, k, x, j).value
  }

  function DeleteAt<T>(m: map<uint64, T>, k: uint64): map<uint64, T> {
    map j: uint64 | 0 <= j <= LAST && AfterDelete(m, k, j).Some? :: AfterDelete(m, k, j).value
  }

  lemma SameSlots<T>(m: map<uint64, T>, m': map<uint64, T>)
    requires forall j :: Lookup(m, j) == Lookup(m', j)
    ensures m == m'
  {
    forall j: uint64 ensures j in m <==> j in m' {
      assert Lookup(m, j) == Lookup(m', j);
    }
    forall j: uint64 | j in m ensures m[j] == m'[j] {
      assert Lookup(m, j) == Lookup(m', j);
    }
  }

  /** Deleting an inserted block restores the file, unless an entry sat in the very last
      slot: its index wraps to zero and it cannot come back. */
  lemma DeleteUndoesInsert<T>(m: map<uint64, T>, k: uint64, x: T)
    ensures DeleteAt(InsertAt(m, k, x), k) == m <==> LAST !in m
  {
    var inserted := InsertAt(m, k, x);
    if LAST !in m {
      forall j: uint64 ensures AfterDelete(inserted, k, j) == Lookup(m, j) {
        assert Lookup(inserted, j) == AfterInsert(m, k, x, j);
      }
      SameSlots(DeleteAt(inserted, k), m);
    } else {
      assert AfterDelete(inserted, k, LAST) == None;
    }
  }

  lemma InsertSlot<T>(m: map<uint64, T>, k: uint64, x: T, j: uint64)
    ensures Lookup(InsertAt(m, k, x), j) == AfterInsert(m, k, x, j)
  {
  }

  lemma DeleteSlot<T>(m: map<uint64, T>, k: uint64, j: uint64)
    ensures Lookup(DeleteAt(m, k), j) == AfterDelete(m, k, j)
  {
  }

  /** Conservation, on sparse files too: an insertion keeps every entry i, from k on one slot
      higher, and every entry j it leaves is the new one or an old one. */
  lemma InsertKeepsEntries<T>(m: map<uint64, T>, k: uint64, x: T, i: uint64, j: uint64)
    requires LAST !in m
    ensures Lookup(InsertAt(m, k, x), k) == Some(x)
    ensures i in m && i < k ==> Lookup(InsertAt(m, k, x), i) == Some(m[i])
    ensures i in m && i >= k ==> Lookup(InsertAt(m, k, x), i + 1) == Some(m[i])
    ensures j in InsertAt(m, k, x) && j < k ==> j in m
    ensures j in InsertAt(m, k, x) && j > k ==> j - 1 in m
  {
    InsertSlot(m, k, x, k);
    InsertSlot(m, k, x, j);
    if i in m {
      InsertSlot(m, k, x, if i < k then i else i + 1);
    }
  }

  /** A deletion keeps every entry i but the one at k, above k one slot lower, and every entry
      j it leaves is an old one. */
  lemma DeleteKeepsEntries<T>(m: map<uint64, T>, k: uint64, i: uint64, j: uint64)
    ensures i in m && i < k ==> Lookup(DeleteAt(m, k), i) == Some(m[i])
    ensures i in m && i > k ==> Lookup(DeleteAt(m, k), i - 1) == Some(m[i])
    ensures j in DeleteAt(m, k) && j < k ==> j in m
    ensures j in DeleteAt(m, k) && j >= k ==> j < LAST && j + 1 in m
  {
    DeleteSlot(m, k, j);
    if i in m && i != k {
      DeleteSlot(m, k, if i < k then i else i - 1);
    }
  }

  /** Index 0 is not refused: its slot wraps to the very last one, so inserting there breaks
      the density of every file that has room for it. */
  lemma InsertAtIndexZero<T>(s: seq<T>, x: T)
    requires |s| < 0xFFFF_FFFF_FFFF_FFFF
    ensures InsertAt(Dense(s), SlotOf(0), x) == Dense(s)[0xFFFF_FFFF_FFFF_FFFF := x]
    ensures !IsDense(InsertAt(Dense(s), SlotOf(0), x))
  {
    SameSlots(InsertAt(Dense(s), SlotOf(0), x), Dense(s)[0xFFFF_FFFF_FFFF_FFFF := x]);
    InsertRefinesList(s, SlotOf(0), x);
  }

  // ── Operations at different positions commute ──

  lemma InsertsCommute<T>(m: map<uint64, T>, i: uint64, x: T, j: uint64, y: T)
    requires i <= j < LAST - 1 && LAST !in m && LAST - 1 !in m
    ensures InsertAt(InsertAt(m, i, x), j + 1, y) == InsertAt(InsertAt(m, j, y), i, x)
  {
    assert LAST !in InsertAt(m, i, x) && LAST !in InsertAt(m, j, y);
    SameSlots(InsertAt(InsertAt(m, i, x), j + 1, y), InsertAt(InsertAt(m, j, y), i, x));
  }

  lemma DeletesCommute<T>(m: map<uint64, T>, i: uint64, j: uint64)
    requires i < j
    ensures DeleteAt(DeleteAt(m, j), i) == DeleteAt(DeleteAt(m, i), j - 1)
  {
    SameSlots(DeleteAt(DeleteAt(m, j), i), DeleteAt(DeleteAt(m, i), j - 1));
  }

  /** An insertion below, or at, a deleted block moves that block up by one. */
  lemma InsertBelowDelete<T>(m: map<uint64, T>, i: uint64, x: T, j: uint64)
    requires i <= j < LAST && LAST !in m
    ensures DeleteAt(InsertAt(m, i, x), j + 1) == InsertAt(DeleteAt(m, j), i, x)
  {
    assert LAST !in DeleteAt(m, j);
    SameSlots(DeleteAt(InsertAt(m, i, x), j + 1), InsertAt(DeleteAt(m, j), i, x));
  }

  lemma AboveDeleteSlot<T>(m: map<uint64, T>, p: map<uint64, T>, q: map<uint64, T>, i: uint64, x: T, j: uint64,
                           t: uint64)
    requires j < i && LAST !in m
    requires forall u: uint64 :: Lookup(p, u) == AfterInsert(m, i, x, u)
    requires forall u: uint64 :: Lookup(q, u) == AfterDelete(m, j, u)
    ensures AfterDelete(p, j, t) == AfterInsert(q, i - 1, x, t)
  {
    assert Lookup(q, LAST) == None;
    if t < LAST {
      assert Lookup(p, t + 1) == AfterInsert(m, i, x, t + 1);
    }
  }

  /** An insertion above a deleted block lands one slot lower. */
  lemma InsertAboveDelete<T>(m: map<uint64, T>, i: uint64, x: T, j: uint64)
    requires j < i && LAST !in m
    ensures DeleteAt(InsertAt(m, i, x), j) == InsertAt(DeleteAt(m, j), i - 1, x)
  {
    assert LAST !in DeleteAt(m, j);
    var left, right := DeleteAt(InsertAt(m, i, x), j), InsertAt(DeleteAt(m, j), i - 1, x);
    forall t: uint64 ensures Lookup(left, t) == Lookup(right, t) {
      AboveDeleteSlot(m, InsertAt(m, i, x), DeleteAt(m, j), i, x, j, t);
      DeleteSlot(InsertAt(m, i, x), j, t);
      InsertSlot(DeleteAt(m, j), i - 1, x, t);
    }
    SameSlots(left, right);
  }

  // ── Dense files ──

  /** A file whose slots are exactly 0, 1, …, count − 1. */
  ghost predicate IsDense<T>(m: map<uint64, T>) {
    |m| <= LAST && forall j: uint64 :: j in m <==> j < |m|
  }

  /** The slots of a list of blocks. */
  function Dense<T>(s: seq<T>): map<uint64, T>
    requires |s| <= LAST
  {
    map j: uint64 | 0 <= j < |s| :: s[j]
  }

  lemma {:induction false} DenseSize<T>(s: seq<T>)
    requires |s| <= LAST
    ensures |Dense(s)| == |s| && IsDense(Dense(s))
  {
    if s == [] {
    } else {
      var k := |s| - 1;
      DenseSize(s[..k]);
      assert Dense(s) == Dense(s[..k])[k := s[k]];
    }
  }

  /** The list of blocks of a dense file. */
  ghost function Listed<T>(m: map<uint64, T>): seq<T>
    requires IsDense(m)
  {
    seq(|m|, i requires 0 <= i < |m| => m[i])
  }

  lemma DenseListed<T>(m: map<uint64, T>)
    requires IsDense(m)
    ensures Dense(Listed(m)) == m
  {
    SameSlots(Dense(Listed(m)), m);
  }

  function Insert<T>(s: seq<T>, k: nat, x: T): seq<T>
    requires k <= |s|
  {
    s[..k] + [x] + s[k..]
  }

  function Remove<T>(s: seq<T>, k: nat): seq<T>
    requires k < |s|
  {
    s[..k] + s[k + 1..]
  }

  /** Inserting refines list insertion, and keeps the file dense exactly for the slots
      0 … count: the store does not check the index, and a larger one leaves a gap. */
  lemma InsertRefinesList<T>(s: seq<T>, k: uint64, x: T)
    requires |s| < LAST
    ensures k <= |s| ==> InsertAt(Dense(s), k, x) == Dense(Insert(s, k, x))
    ensures IsDense(InsertAt(Dense(s), k, x)) <==> k <= |s|
  {
    var inserted := InsertAt(Dense(s), k, x);
    if k <= |s| {
      SameSlots(inserted, Dense(Insert(s, k, x)));
      DenseSize(Insert(s, k, x));
    } else {
      var gap: uint64 := |s|;
      assert k in inserted && gap !in inserted;
    }
  }

  /** Deleting an existing slot refines list removal. */
  lemma DeleteRefinesList<T>(s: seq<T>, k: uint64)
    requires |s| <= LAST
    ensures k in Dense(s) <==> k < |s|
    ensures k < |s| ==> DeleteAt(Dense(s), k) == Dense(Remove(s, k))
  {
    if k < |s| {
      SameSlots(DeleteAt(Dense(s), k), Dense(Remove(s, k)));
    }
  }
}
