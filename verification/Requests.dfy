/** What one maintenance request does to a file, operation by operation. */
module Requests {
  import opened Bytes
  import opened Indices
  import opened Encoding
  import opened Slots
  import opened Store
  import opened Runs
  import opened Positions

  // ── Updates ──

  /** How often a list names a block. */
  function Count(indices: seq<uint64>, index: uint64): (k: nat)
    ensures k <= |indices|
  {
    if indices == [] then 0
    else Count(indices[..|indices| - 1], index) + (if indices[|indices| - 1] == index then 1 else 0)
  }

  lemma {:induction false} CountPositive(indices: seq<uint64>, t: nat)
    requires t < |indices|
    ensures Count(indices, indices[t]) > 0
  {
    if t < |indices| - 1 {
      CountPositive(indices[..|indices| - 1], t);
    }
  }

  /** The version after k updates, wrapping at most once. */
  function VersionAfter(version: uint64, k: uint64): uint64 {
    if version + k < TWO64 then version + k else version + k - TWO64
  }

  lemma UpdatesFront(indices: seq<uint64>, clock: nat -> uint64)
    requires indices != []
    ensures Updates(indices, clock)[..|indices| - 1] == Updates(indices[..|indices| - 1], clock)
    ensures Updates(indices, clock)[|indices| - 1] == Modify(indices[|indices| - 1], clock(|indices| - 1))
  {
  }

  lemma LastEvent(s: seq<Metadata>, es: seq<Event>, front: seq<Event>, e: Event)
    requires es != [] && front == es[..|es| - 1] && e == es[|es| - 1] && Fits(|s|, es)
    ensures Fits(|s|, front) && EventFits(|RunList(s, front)|, e)
    ensures RunList(s, es) == ApplyList(RunList(s, front), e)
  {
  }

  lemma UpdatesStep(s: seq<Metadata>, indices: seq<uint64>, clock: nat -> uint64)
    requires indices != [] && Fits(|s|, Updates(indices, clock))
    ensures var front, last := indices[..|indices| - 1], indices[|indices| - 1];
            && Fits(|s|, Updates(front, clock)) && CountAfter(|s|, Updates(front, clock)) == |s|
            && 1 <= last <= |s|
            && RunList(s, Updates(indices, clock))
               == ApplyList(RunList(s, Updates(front, clock)), Modify(last, clock(|indices| - 1)))
  {
    var k := |indices| - 1;
    UpdatesFront(indices, clock);
    UpdatesKeepCount(|s|, indices[..k], clock);
    LastEvent(s, Updates(indices, clock), Updates(indices[..k], clock), Modify(indices[k], clock(k)));
  }

  lemma {:induction false} UpdatesKeepCount(n: nat, indices: seq<uint64>, clock: nat -> uint64)
    ensures CountAfter(n, Updates(indices, clock)) == n
  {
    if indices == [] {
    } else {
      var k := |indices| - 1;
      UpdatesFront(indices, clock);
      UpdatesKeepCount(n, indices[..k], clock);
    }
  }

  /** A request's updates add up, for each block, to as many new versions as the list names it;
      an unnamed block is untouched. */
  lemma {:induction false} UpdatedBlock(s: seq<Metadata>, indices: seq<uint64>, clock: nat -> uint64, p: uint64)
    requires Fits(|s|, Updates(indices, clock)) && |indices| < TWO64 && p < |s| && p < LAST
    ensures |RunList(s, Updates(indices, clock))| == |s|
    ensures RunList(s, Updates(indices, clock))[p].version == VersionAfter(s[p].version, Count(indices, p + 1))
    ensures p + 1 !in indices ==> RunList(s, Updates(indices, clock))[p] == s[p]
  {
    UpdatesKeepCount(|s|, indices, clock);
    if indices == [] {
    } else {
      UpdatesStep(s, indices, clock);
      UpdatedBlock(s, indices[..|indices| - 1], clock, p);
    }
  }

  /** The timestamp of an updated block is that of its last update. */
  lemma {:induction false} UpdatedStamp(s: seq<Metadata>, indices: seq<uint64>, clock: nat -> uint64, p: uint64, t: nat)
    requires Fits(|s|, Updates(indices, clock)) && p < |s| && p < LAST && IsLast(indices, p + 1, t)
    ensures |RunList(s, Updates(indices, clock))| == |s|
    ensures RunList(s, Updates(indices, clock))[p].timestamp == clock(t)
  {
    UpdatesKeepCount(|s|, indices, clock);
    UpdatesStep(s, indices, clock);
    if t < |indices| - 1 {
      UpdatedStamp(s, indices[..|indices| - 1], clock, p, t);
    }
  }

  /** Position t is the last one where the list names the block. */
  predicate IsLast(indices: seq<uint64>, index: uint64, t: nat) {
    t < |indices| && indices[t] == index && forall u :: t < u < |indices| ==> indices[u] != index
  }

  lemma {:induction false} UpdatesFit(n: nat, indices: seq<uint64>, clock: nat -> uint64, t: nat)
    requires Fits(n, Updates(indices, clock)) && t < |indices|
    ensures 1 <= indices[t] <= n
  {
    var k := |indices| - 1;
    UpdatesFront(indices, clock);
    UpdatesKeepCount(n, indices[..k], clock);
    if t < k {
      UpdatesFit(n, indices[..k], clock, t);
    }
  }

  lemma {:induction false} AllUpdatesFit(n: nat, indices: seq<uint64>, clock: nat -> uint64)
    requires forall t :: 0 <= t < |indices| ==> 1 <= indices[t] <= n
    ensures Fits(n, Updates(indices, clock))
  {
    if indices == [] {
    } else {
      var k := |indices| - 1;
      UpdatesFront(indices, clock);
      AllUpdatesFit(n, indices[..k], clock);
      UpdatesKeepCount(n, indices[..k], clock);
    }
  }

  /** An update request leaves the same blocks, each as many versions further as it was named. */
  ghost predicate UpdateLeaves(before: FileSlots, after: FileSlots, indices: seq<uint64>, clock: nat -> uint64) {
    && |indices| < TWO64 && IsDense(after) && |after| == |before|
    && forall k: uint64 :: k < |before| && k < LAST && k in before ==>
         && after[k].version == VersionAfter(before[k].version, Count(indices, k + 1))
         && (k + 1 !in indices ==> after[k] == before[k])
         && forall t: nat :: IsLast(indices, k + 1, t) ==> after[k].timestamp == clock(t)
  }

  lemma UpdateRequest(slots: FileSlots, indices: seq<uint64>, clock: nat -> uint64)
    requires IsDense(slots) && |indices| < TWO64
    requires forall t :: 0 <= t < |indices| ==> 1 <= indices[t] <= |slots|
    ensures !Run(slots, Updates(indices, clock)).threw
    ensures UpdateLeaves(slots, Run(slots, Updates(indices, clock)).slots, indices, clock)
  {
    var s, es := Listed(slots), Updates(indices, clock);
    DenseListed(slots);
    AllUpdatesFit(|slots|, indices, clock);
    UpdatesKeepCount(|slots|, indices, clock);
    RunRefinesList(s, es);
    DenseSize(RunList(s, es));
    forall k: uint64 | k < |slots| && k < LAST && k in slots
      ensures RunList(s, es)[k].version == VersionAfter(slots[k].version, Count(indices, k + 1))
      ensures k + 1 !in indices ==> RunList(s, es)[k] == slots[k]
      ensures forall t: nat :: IsLast(indices, k + 1, t) ==> RunList(s, es)[k].timestamp == clock(t)
    {
      UpdatedBlock(s, indices, clock, k);
      forall t: nat | IsLast(indices, k + 1, t) ensures RunList(s, es)[k].timestamp == clock(t) {
        UpdatedStamp(s, indices, clock, k, t);
      }
    }
  }

  lemma {:induction false} UpdatesKeepSlots(slots: FileSlots, indices: seq<uint64>, clock: nat -> uint64)
    ensures forall k: uint64 :: k in Run(slots, Updates(indices, clock)).slots <==> k in slots
  {
    if indices == [] {
    } else {
      var k := |indices| - 1;
      UpdatesFront(indices, clock);
      UpdatesKeepSlots(slots, indices[..k], clock);
    }
  }

  /** On any file, dense or not, an update request throws exactly when it names a block that
      the file does not have. */
  lemma {:induction false} UpdatesThrow(slots: FileSlots, indices: seq<uint64>, clock: nat -> uint64)
    ensures Run(slots, Updates(indices, clock)).threw
       <==> exists t :: 0 <= t < |indices| && SlotOf(indices[t]) !in slots
  {
    if indices == [] {
    } else {
      var k, es := |indices| - 1, Updates(indices, clock);
      var front := indices[..k];
      assert es[..k] == Updates(front, clock) && es[k] == Modify(indices[k], clock(k));
      UpdatesThrow(slots, front, clock);
      UpdatesKeepSlots(slots, front, clock);
      if t :| 0 <= t < |front| && SlotOf(front[t]) !in slots {
        assert SlotOf(indices[t]) !in slots;
      }
      if t :| 0 <= t < |indices| && SlotOf(indices[t]) !in slots {
        assert t < k ==> SlotOf(front[t]) !in slots;
      }
    }
  }

  // ── Insertions ──

  lemma {:induction false} InsertionsKeepOld(indices: seq<uint64>, clock: nat -> uint64, p: nat)
    ensures var h := History(Insertions(indices, clock), p);
            h.origin.Some? ==> h.updates == 0 && h.stamp == None
  {
    if indices == [] {
    } else {
      var last := Insertion(indices[|indices| - 1], clock(|indices| - 1));
      InsertionsFront(indices, clock);
      if Back(last, p).Some? {
        InsertionsKeepOld(indices[..|indices| - 1], clock, Back(last, p).value);
      }
    }
  }

  /** An insertion request leaves one more block an index; a strictly ascending list leaves new
      blocks of version 1 at exactly the named positions and old blocks elsewhere. */
  ghost predicate InsertLeaves(before: FileSlots, after: FileSlots, indices: seq<uint64>, clock: nat -> uint64) {
    && IsDense(after) && |after| == |before| + |indices|
    && (StrictlyAscending(indices) ==>
          && (forall t :: 0 <= t < |indices| ==> Lookup(after, SlotOf(indices[t])) == Some(Metadata(1, clock(t))))
          && (forall p: uint64 :: p < |after| && p + 1 !in indices ==> IsOld(before, after, p)))
  }

  /** The block in slot p is a block of the file before. */
  ghost predicate IsOld(before: FileSlots, after: FileSlots, p: uint64) {
    p in after && exists q: uint64 :: q in before && before[q] == after[p]
  }

  lemma NamedIsFresh(indices: seq<uint64>, clock: nat -> uint64, t: nat)
    requires StrictlyAscending(indices) && t < |indices| && forall u :: 0 <= u < |indices| ==> indices[u] >= 1
    ensures History(Insertions(indices, clock), indices[t] - 1) == Trace(None, 0, Some(clock(t)))
  {
    AscendingInsertions(indices, clock, indices[t] - 1);
  }

  lemma InsertedBlock(s: seq<Metadata>, indices: seq<uint64>, clock: nat -> uint64, t: nat, es: seq<Event>, p: nat)
    requires es == Insertions(indices, clock) && t < |indices| && p + 1 == indices[t]
    requires Fits(|s|, es) && StrictlyAscending(indices) && p < CountAfter(|s|, es)
    requires forall u :: 0 <= u < |indices| ==> indices[u] >= 1
    ensures RunList(s, es)[p] == Metadata(1, clock(t))
  {
    assert History(es, p) == Trace(None, 0, Some(clock(t))) by {
      NamedIsFresh(indices, clock, t);
    }
    FreshBlock(s, es, p, clock(t));
  }

  lemma OldBlock(s: seq<Metadata>, indices: seq<uint64>, clock: nat -> uint64, p: nat)
    requires Fits(|s|, Insertions(indices, clock)) && StrictlyAscending(indices)
    requires p < CountAfter(|s|, Insertions(indices, clock))
    requires forall u :: 0 <= u < |indices| ==> indices[u] >= 1 && indices[u] != p + 1
    ensures var origin := History(Insertions(indices, clock), p).origin;
            origin.Some? && origin.value < |s| && RunList(s, Insertions(indices, clock))[p] == s[origin.value]
  {
    AscendingInsertions(indices, clock, p);
    InsertionsKeepOld(indices, clock, p);
    VersionHistory(s, Insertions(indices, clock), p);
  }

  lemma InsertRequest(slots: FileSlots, indices: seq<uint64>, clock: nat -> uint64)
    requires IsDense(slots) && |slots| + |indices| <= LAST
    requires forall t :: 0 <= t < |indices| ==> 1 <= indices[t] <= |slots| + t + 1
    ensures !Run(slots, Insertions(indices, clock)).threw
    ensures InsertLeaves(slots, Run(slots, Insertions(indices, clock)).slots, indices, clock)
  {
    var s, es := Listed(slots), Insertions(indices, clock);
    DenseListed(slots);
    InsertionsCount(|slots|, indices, clock);
    RunRefinesList(s, es);
    DenseSize(RunList(s, es));
    if StrictlyAscending(indices) {
      InsertedBlocks(s, indices, clock, RunList(s, es));
      OldBlocks(slots, s, indices, clock);
    }
  }

  lemma DenseLookup(s: seq<Metadata>, index: uint64)
    requires |s| <= LAST && 1 <= index <= |s|
    ensures Lookup(Dense(s), SlotOf(index)) == Some(s[index - 1])
  {
  }

  lemma InsertedAt(s: seq<Metadata>, indices: seq<uint64>, clock: nat -> uint64, t: nat, r: seq<Metadata>)
    requires Fits(|s|, Insertions(indices, clock)) && r == RunList(s, Insertions(indices, clock)) && |r| <= LAST
    requires StrictlyAscending(indices) && t < |indices| && 1 <= indices[t] <= |r|
    requires forall u :: 0 <= u < |indices| ==> indices[u] >= 1
    ensures Lookup(Dense(r), SlotOf(indices[t])) == Some(Metadata(1, clock(t)))
  {
    InsertedBlock(s, indices, clock, t, Insertions(indices, clock), indices[t] - 1);
    DenseLookup(r, indices[t]);
  }

  lemma InsertedBlocks(s: seq<Metadata>, indices: seq<uint64>, clock: nat -> uint64, r: seq<Metadata>)
    requires Fits(|s|, Insertions(indices, clock)) && r == RunList(s, Insertions(indices, clock)) && |r| <= LAST
    requires StrictlyAscending(indices) && forall t :: 0 <= t < |indices| ==> 1 <= indices[t] <= |r|
    ensures forall t :: 0 <= t < |indices| ==> Lookup(Dense(r), SlotOf(indices[t])) == Some(Metadata(1, clock(t)))
  {
    forall t | 0 <= t < |indices| ensures Lookup(Dense(r), SlotOf(indices[t])) == Some(Metadata(1, clock(t))) {
      InsertedAt(s, indices, clock, t, r);
    }
  }

  lemma OldBlocks(slots: FileSlots, s: seq<Metadata>, indices: seq<uint64>, clock: nat -> uint64)
    requires |s| <= LAST && slots == Dense(s) && CountAfter(|s|, Insertions(indices, clock)) <= LAST
    requires Fits(|s|, Insertions(indices, clock)) && StrictlyAscending(indices)
    requires forall t :: 0 <= t < |indices| ==> indices[t] >= 1
    ensures forall p: uint64 :: p < CountAfter(|s|, Insertions(indices, clock)) && p + 1 !in indices ==>
              IsOld(slots, Dense(RunList(s, Insertions(indices, clock))), p)
  {
    forall p: uint64 | p < CountAfter(|s|, Insertions(indices, clock)) && p + 1 !in indices
      ensures IsOld(slots, Dense(RunList(s, Insertions(indices, clock))), p)
    {
      OldBlock(s, indices, clock, p);
      var q: uint64 := History(Insertions(indices, clock), p).origin.value;
      assert q in slots && slots[q] == s[q];
    }
  }

  /** Insertions never throw. */
  lemma {:induction false} InsertionsNeverThrow(slots: FileSlots, indices: seq<uint64>, clock: nat -> uint64)
    ensures !Run(slots, Insertions(indices, clock)).threw
  {
    if indices == [] {
    } else {
      InsertionsFront(indices, clock);
      InsertionsNeverThrow(slots, indices[..|indices| - 1], clock);
    }
  }

  // ── Deletions ──

  lemma {:induction false} DeletionsKeepOld(indices: seq<uint64>, p: nat)
    ensures var h := History(Deletions(indices), p);
            h.origin.Some? && h.updates == 0 && h.stamp == None
  {
    if indices == [] {
    } else {
      DeletionsFront(indices);
      DeletionsKeepOld(indices[..|indices| - 1], Back(Deletion(indices[|indices| - 1]), p).value);
    }
  }

  /** A deletion request leaves one block less an index, all of them old; a strictly descending
      list leaves every block that it does not name. */
  ghost predicate DeleteLeaves(before: FileSlots, after: FileSlots, indices: seq<uint64>) {
    && IsDense(after) && |after| == |before| - |indices|
    && (forall p: uint64 :: p < |after| ==> IsOld(before, after, p))
    && (StrictlyDescending(indices) ==>
          forall q: uint64 :: q < |before| && q + 1 !in indices ==> Survives(before, after, q))
  }

  ghost predicate Survives(before: FileSlots, after: FileSlots, q: uint64) {
    q in before && exists p: uint64 :: p in after && after[p] == before[q]
  }

  lemma RemainingBlock(s: seq<Metadata>, indices: seq<uint64>, p: nat)
    requires Fits(|s|, Deletions(indices)) && p < CountAfter(|s|, Deletions(indices))
    ensures var origin := History(Deletions(indices), p).origin;
            origin.Some? && origin.value < |s| && RunList(s, Deletions(indices))[p] == s[origin.value]
  {
    DeletionsKeepOld(indices, p);
    VersionHistory(s, Deletions(indices), p);
  }

  lemma SurvivingBlock(s: seq<Metadata>, indices: seq<uint64>, q: nat) returns (p: nat)
    requires Fits(|s|, Deletions(indices)) && StrictlyDescending(indices) && q < |s|
    requires forall t :: 0 <= t < |indices| ==> indices[t] != q + 1
    ensures p < CountAfter(|s|, Deletions(indices)) && RunList(s, Deletions(indices))[p] == s[q]
  {
    DescendingDeletions(|s|, indices, q);
    p := Forward(Deletions(indices), q).value;
    ForwardInvertsHistory(|s|, Deletions(indices), q, p);
    RemainingBlock(s, indices, p);
  }

  lemma DeleteRequest(slots: FileSlots, indices: seq<uint64>)
    requires IsDense(slots) && forall t :: 0 <= t < |indices| ==> 1 <= indices[t] <= |slots| - t
    ensures !Run(slots, Deletions(indices)).threw
    ensures DeleteLeaves(slots, Run(slots, Deletions(indices)).slots, indices)
  {
    var s, es := Listed(slots), Deletions(indices);
    DenseListed(slots);
    DeletionsCount(|slots|, indices);
    RunRefinesList(s, es);
    DenseSize(RunList(s, es));
    RemainingBlocks(slots, s, indices);
    if StrictlyDescending(indices) {
      SurvivingBlocks(slots, s, indices);
    }
  }

  lemma RemainingBlocks(slots: FileSlots, s: seq<Metadata>, indices: seq<uint64>)
    requires |s| <= LAST && slots == Dense(s) && Fits(|s|, Deletions(indices))
    requires CountAfter(|s|, Deletions(indices)) <= LAST
    ensures forall p: uint64 :: p < CountAfter(|s|, Deletions(indices)) ==>
              IsOld(slots, Dense(RunList(s, Deletions(indices))), p)
  {
    forall p: uint64 | p < CountAfter(|s|, Deletions(indices))
      ensures IsOld(slots, Dense(RunList(s, Deletions(indices))), p)
    {
      RemainingBlock(s, indices, p);
      var q: uint64 := History(Deletions(indices), p).origin.value;
      assert q in slots && slots[q] == s[q];
    }
  }

  lemma SurvivingBlocks(slots: FileSlots, s: seq<Metadata>, indices: seq<uint64>)
    requires |s| <= LAST && slots == Dense(s) && Fits(|s|, Deletions(indices))
    requires CountAfter(|s|, Deletions(indices)) <= LAST && StrictlyDescending(indices)
    ensures forall q: uint64 :: q < |s| && q + 1 !in indices ==>
              Survives(slots, Dense(RunList(s, Deletions(indices))), q)
  {
    forall q: uint64 | q < |s| && q + 1 !in indices ensures Survives(slots, Dense(RunList(s, Deletions(indices))), q) {
      var p := SurvivingBlock(s, indices, q);
      var slot: uint64 := p;
      assert slot in Dense(RunList(s, Deletions(indices)));
    }
  }

  /** On a dense file a deletion request throws exactly when its t-th index is no block of what
      the deletions before it left. */
  lemma DeletionsThrow(slots: FileSlots, indices: seq<uint64>)
    requires IsDense(slots)
    ensures Run(slots, Deletions(indices)).threw
       <==> exists t :: 0 <= t < |indices| && !(1 <= indices[t] <= |slots| - t)
  {
    DenseListed(slots);
    DeletionsSucceed(Listed(slots), indices);
  }
}
