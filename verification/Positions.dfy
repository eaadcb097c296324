/** Which blocks a batch of insertions or deletions touches, and how to undo one. */
module Positions {
  import opened Bytes
  import opened Indices
  import opened Encoding
  import opened Slots
  import opened Store
  import opened Runs

  // ── Deletion lists ──

  lemma DeletionsFront(indices: seq<uint64>)
    requires indices != []
    ensures Deletions(indices)[..|indices| - 1] == Deletions(indices[..|indices| - 1])
    ensures Deletions(indices)[|indices| - 1] == Deletion(indices[|indices| - 1])
  {
  }

  lemma {:induction false} DeletionsCount(n: nat, indices: seq<uint64>)
    ensures CountAfter(n, Deletions(indices)) == n - |indices|
    ensures Fits(n, Deletions(indices)) <==> forall t :: 0 <= t < |indices| ==> 1 <= indices[t] <= n - t
  {
    if indices == [] {
    } else {
      var k := |indices| - 1;
      DeletionsCount(n, indices[..k]);
      DeletionsFront(indices);
      assert forall t :: 0 <= t < k ==> indices[..k][t] == indices[t];
    }
  }

  /** A list of deletions succeeds exactly when its t-th index (from 0) is at most count − t;
      otherwise it throws and keeps what it deleted before. */
  lemma {:induction false} DeletionsSucceed(s: seq<Metadata>, indices: seq<uint64>)
    requires |s| <= LAST
    ensures Run(Dense(s), Deletions(indices)).threw
       <==> exists t :: 0 <= t < |indices| && !(1 <= indices[t] <= |s| - t)
  {
    DeletionsCount(|s|, indices);
    if Fits(|s|, Deletions(indices)) {
      RunRefinesList(s, Deletions(indices));
    } else {
      var front := indices[..|indices| - 1];
      DeletionsFront(indices);
      DeletionsCount(|s|, front);
      DeletionsSucceed(s, front);
      if Fits(|s|, Deletions(front)) {
        RunRefinesList(s, Deletions(front));
      } else {
        var t :| 0 <= t < |front| && !(1 <= front[t] <= |s| - t);
      }
    }
  }

  /** Blocks below every deleted index keep their position. */
  lemma {:induction false} LowBlocksStay(indices: seq<uint64>, q: nat)
    requires forall t :: 0 <= t < |indices| ==> q + 1 < indices[t]
    ensures Forward(Deletions(indices), q) == Some(q)
  {
    if indices != [] {
      DeletionsFront(indices);
      LowBlocksStay(indices[..|indices| - 1], q);
    }
  }

  /** Blocks above every deleted index move down by one a deletion. */
  lemma {:induction false} HighBlocksSink(indices: seq<uint64>, q: nat)
    requires forall t :: 0 <= t < |indices| ==> 1 <= indices[t] && indices[t] + |indices| <= q + 1
    ensures |indices| <= q && Forward(Deletions(indices), q) == Some(q - |indices|)
  {
    if indices == [] {
    } else {
      DeletionsFront(indices);
      HighBlocksSink(indices[..|indices| - 1], q);
    }
  }

  /** The last deletion takes the block that now sits at its index, and no other. */
  lemma LastDeletionTakes(n: nat, indices: seq<uint64>, q: nat, victim: nat)
    requires indices != [] && Fits(n, Deletions(indices)) && q < n && victim < n
    requires Forward(Deletions(indices[..|indices| - 1]), victim) == Some(indices[|indices| - 1] - 1)
    ensures Forward(Deletions(indices), q).None?
       <==> Forward(Deletions(indices[..|indices| - 1]), q).None? || q == victim
  {
    var front, p: nat := Deletions(indices[..|indices| - 1]), indices[|indices| - 1] - 1;
    DeletionsFront(indices);
    ForwardInvertsHistory(n, front, q, p);
    ForwardInvertsHistory(n, front, victim, p);
  }

  /** The list names position q; shifted, its t-th index counts t positions further. */
  predicate Named(indices: seq<uint64>, q: nat, shifted: bool) {
    exists t :: 0 <= t < |indices| && q == indices[t] - 1 + (if shifted then t else 0)
  }

  lemma OneMoreNamed(indices: seq<uint64>, q: nat, shifted: bool)
    requires indices != []
    ensures var front, last := indices[..|indices| - 1], indices[|indices| - 1];
            Named(indices, q, shifted)
              == (q == last - 1 + (if shifted then |front| else 0) || Named(front, q, shifted))
  {
    var front := indices[..|indices| - 1];
    assert forall t :: 0 <= t < |front| ==> front[t] == indices[t];
  }

  /** A strictly descending list deletes exactly the blocks at the positions it names. */
  lemma {:induction false} DescendingDeletions(n: nat, indices: seq<uint64>, q: nat)
    requires Fits(n, Deletions(indices)) && StrictlyDescending(indices) && q < n
    ensures Forward(Deletions(indices), q).None? <==> Named(indices, q, false)
  {
    if indices == [] {
    } else {
      var front, last := indices[..|indices| - 1], indices[|indices| - 1];
      DeletionsFront(indices);
      DeletionsCount(n, indices);
      DescendingDeletions(n, front, q);
      LowBlocksStay(front, last - 1);
      LastDeletionTakes(n, indices, q, last - 1);
      OneMoreNamed(indices, q, false);
    }
  }

  /** In an ascending list (repeats allowed) the t-th index deletes the block at original
      position index − 1 + t, because t lower blocks are already gone. */
  lemma {:induction false} AscendingDeletions(n: nat, indices: seq<uint64>, q: nat)
    requires Fits(n, Deletions(indices)) && Ascending(indices) && q < n
    ensures Forward(Deletions(indices), q).None? <==> Named(indices, q, true)
  {
    if indices == [] {
    } else {
      var front, last := indices[..|indices| - 1], indices[|indices| - 1];
      DeletionsFront(indices);
      DeletionsCount(n, indices);
      AscendingDeletions(n, front, q);
      HighBlocksSink(front, last - 1 + |front|);
      LastDeletionTakes(n, indices, q, last - 1 + |front|);
      OneMoreNamed(indices, q, true);
    }
  }

  // ── Insertion lists ──

  lemma InsertionsFront(indices: seq<uint64>, clock: nat -> uint64)
    requires indices != []
    ensures Insertions(indices, clock)[..|indices| - 1] == Insertions(indices[..|indices| - 1], clock)
    ensures Insertions(indices, clock)[|indices| - 1] == Insertion(indices[|indices| - 1], clock(|indices| - 1))
  {
  }

  lemma {:induction false} InsertionsCount(n: nat, indices: seq<uint64>, clock: nat -> uint64)
    requires n + |indices| <= LAST
    ensures CountAfter(n, Insertions(indices, clock)) == n + |indices|
    ensures Fits(n, Insertions(indices, clock)) <==> forall t :: 0 <= t < |indices| ==> 1 <= indices[t] <= n + t + 1
  {
    if indices == [] {
    } else {
      var k := |indices| - 1;
      InsertionsCount(n, indices[..k], clock);
      InsertionsFront(indices, clock);
      assert forall t :: 0 <= t < k ==> indices[..k][t] == indices[t];
    }
  }

  /** A strictly ascending list puts the block registered by its t-th call at final position
      index − 1, and every other final block is an old one. */
  lemma {:induction false} AscendingInsertions(indices: seq<uint64>, clock: nat -> uint64, p: nat)
    requires StrictlyAscending(indices) && forall t :: 0 <= t < |indices| ==> indices[t] >= 1
    ensures forall t :: 0 <= t < |indices| && p == indices[t] - 1 ==>
              History(Insertions(indices, clock), p) == Trace(None, 0, Some(clock(t)))
    ensures (forall t :: 0 <= t < |indices| ==> p != indices[t] - 1) ==>
              History(Insertions(indices, clock), p).origin.Some?
  {
    if indices == [] {
    } else {
      var front, last := indices[..|indices| - 1], indices[|indices| - 1];
      InsertionsFront(indices, clock);
      assert forall t :: 0 <= t < |front| ==> front[t] == indices[t] && indices[t] < last;
      if p < last - 1 {
        AscendingInsertions(front, clock, p);
      } else if p > last - 1 {
        AscendingInsertions(front, clock, p - 1);
      }
    }
  }

  // ── Undo on sparse files ──

  function Reverse(indices: seq<uint64>): (r: seq<uint64>)
    ensures |r| == |indices|
  {
    if indices == [] then [] else [indices[|indices| - 1]] + Reverse(indices[..|indices| - 1])
  }

  lemma ReverseDeletions(indices: seq<uint64>)
    requires indices != []
    ensures Deletions(Reverse(indices))
         == [Deletion(indices[|indices| - 1])] + Deletions(Reverse(indices[..|indices| - 1]))
  {
    DeletionsCons(indices[|indices| - 1], Reverse(indices[..|indices| - 1]));
  }

  lemma DeletionsCons(index: uint64, rest: seq<uint64>)
    ensures Deletions([index] + rest) == [Deletion(index)] + Deletions(rest)
  {
  }

  lemma {:induction false} RunFront(slots: FileSlots, e: Event, es: seq<Event>)
    requires !Apply(slots, e).threw
    ensures Run(slots, [e] + es) == Run(Apply(slots, e).slots, es)
  {
    if es == [] {
      assert [e] + es == [e];
      assert [e][..0] == [];
    } else {
      var k := |es| - 1;
      RunFront(slots, e, es[..k]);
      assert ([e] + es)[..|[e] + es| - 1] == [e] + es[..k];
    }
  }

  lemma LastInsertionRun(slots: FileSlots, indices: seq<uint64>, clock: nat -> uint64)
    requires indices != [] && !Run(slots, Insertions(indices[..|indices| - 1], clock)).threw
    ensures Run(slots, Insertions(indices, clock)) ==
              Progress(InsertAt(Run(slots, Insertions(indices[..|indices| - 1], clock)).slots,
                                SlotOf(indices[|indices| - 1]), Metadata(1, clock(|indices| - 1))), false)
  {
    assert Insertions(indices, clock)[..|indices| - 1] == Insertions(indices[..|indices| - 1], clock);
  }

  lemma {:induction false} InsertionsStayLow(slots: FileSlots, indices: seq<uint64>, clock: nat -> uint64, top: nat)
    requires forall j :: j in slots ==> j < top
    requires forall t :: 0 <= t < |indices| ==> 1 <= indices[t] <= top + 1
    requires top + |indices| <= LAST
    ensures !Run(slots, Insertions(indices, clock)).threw
    ensures forall j :: j in Run(slots, Insertions(indices, clock)).slots ==> j < top + |indices|
  {
    if indices != [] {
      InsertionsStayLow(slots, indices[..|indices| - 1], clock, top);
      LastInsertionRun(slots, indices, clock);
    }
  }

  lemma UndoLast(slots: FileSlots, index: uint64, now: uint64, rest: seq<Event>)
    requires LAST !in slots
    ensures Run(InsertAt(slots, SlotOf(index), Metadata(1, now)), [Deletion(index)] + rest) == Run(slots, rest)
  {
    var inserted := InsertAt(slots, SlotOf(index), Metadata(1, now));
    DeleteUndoesInsert(slots, SlotOf(index), Metadata(1, now));
    assert SlotOf(index) in inserted;
    RunFront(inserted, Deletion(index), rest);
  }

  /** Undo, on sparse files as well: inserting any list of indices and then deleting the
      same list backwards restores the file entry for entry, as long as the last slot of
      the index range stays out of reach. */
  lemma {:induction false} DeletionsUndoInsertions(slots: FileSlots, indices: seq<uint64>, clock: nat -> uint64,
                                                   top: nat)
    requires forall j :: j in slots ==> j < top
    requires forall t :: 0 <= t < |indices| ==> 1 <= indices[t] <= top + 1
    requires top + |indices| <= LAST
    ensures Run(Run(slots, Insertions(indices, clock)).slots, Deletions(Reverse(indices))) == Progress(slots, false)
  {
    if indices == [] {
    } else {
      var k := |indices| - 1;
      var front := indices[..k];
      InsertionsStayLow(slots, front, clock, top);
      LastInsertionRun(slots, indices, clock);
      DeletionsUndoInsertions(slots, front, clock, top);
      UndoLast(Run(slots, Insertions(front, clock)).slots, indices[k], clock(k), Deletions(Reverse(front)));
      ReverseDeletions(indices);
    }
  }
}
