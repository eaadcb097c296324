/** The maintenance stage: batches of store calls over a list of block indices. */
module Maintenance {
  import opened Bytes
  import opened Store
  import opened Slots
  import opened Runs
  import opened Requests

  datatype Operation = Update | Insert | Delete | Unsupported

  /** `Maintained`, or the exception that was thrown. */
  datatype MaintainResult =
    | Maintained
    | FileIdRequired
    | FileNotFound
    | OperationUnsupported
    | IndicesRequired
    | BlockNotFound

  function EventsOf(op: Operation, indices: seq<uint64>, clock: nat -> uint64): seq<Event> {
    match op
    case Update => Updates(indices, clock)
    case Insert => Insertions(indices, clock)
    case Delete => Deletions(indices)
    case Unsupported => []
  }

  function Finished(indices: seq<uint64>, progress: Progress): MaintainResult {
    if indices == [] then IndicesRequired else if progress.threw then BlockNotFound else Maintained
  }

  lemma RunOneMore(slots: FileSlots, es: seq<Event>, t: nat)
    requires t < |es| && !Run(slots, es[..t]).threw
    ensures Run(slots, es[..t + 1]) == Apply(Run(slots, es[..t]).slots, es[t])
  {
    assert es[..t + 1][..t] == es[..t];
  }

  lemma {:induction false} StopsAtThrow(slots: FileSlots, es: seq<Event>, t: nat)
    requires t <= |es| && Run(slots, es[..t]).threw
    ensures Run(slots, es) == Run(slots, es[..t])
    decreases |es|
  {
    if t == |es| {
      assert es[..t] == es;
    } else {
      assert es[..|es| - 1][..t] == es[..t];
      StopsAtThrow(slots, es[..|es| - 1], t);
    }
  }

  /** One step of a handler on the view: what `done` must look like to continue the run. */
  lemma ViewOneMore(view: Snapshot, fileId: ByteString, es: seq<Event>, t: nat, before: Snapshot, done: Snapshot)
    requires fileId in view && t < |es| && !Run(view[fileId], es[..t]).threw
    requires before == view[fileId := Run(view[fileId], es[..t]).slots]
    requires done == before[fileId := Apply(before[fileId], es[t]).slots]
    ensures done == view[fileId := Run(view[fileId], es[..t + 1]).slots]
    ensures Run(view[fileId], es[..t + 1]).threw == Apply(before[fileId], es[t]).threw
  {
    RunOneMore(view[fileId], es, t);
  }

  /** The store calls as events. */
  method CallModify(store: DynamicHashTableStateStore, fileId: ByteString, index: uint64, now: uint64)
    returns (threw: bool)
    requires store.Valid() && fileId in store.files
    modifies store.files[fileId], store.files[fileId].entries.Values
    ensures store.Valid() && store.files[fileId].entries == old(store.files[fileId].entries)
    ensures threw == Apply(old(store.View())[fileId], Modify(index, now)).threw
    ensures store.View() == old(store.View())[fileId := Apply(old(store.View())[fileId], Modify(index, now)).slots]
  {
    if store.GetBlockMetadata(fileId, index).Missing? {
      return true;
    }
    var out := store.ModifyBlock(fileId, index, now);
    threw := !out.Done?;
  }

  method CallInsert(store: DynamicHashTableStateStore, fileId: ByteString, index: uint64, now: uint64)
    returns (threw: bool)
    requires store.Valid() && fileId in store.files
    modifies store.files[fileId]
    ensures store.Valid()
    ensures threw == Apply(old(store.View())[fileId], Insertion(index, now)).threw
    ensures store.View() == old(store.View())[fileId := Apply(old(store.View())[fileId], Insertion(index, now)).slots]
  {
    var out := store.InsertBlock(fileId, index, now);
    threw := !out.Done?;
  }

  method CallDelete(store: DynamicHashTableStateStore, fileId: ByteString, index: uint64) returns (threw: bool)
    requires store.Valid() && fileId in store.files
    modifies store.files[fileId]
    ensures store.Valid()
    ensures threw == Apply(old(store.View())[fileId], Deletion(index)).threw
    ensures store.View() == old(store.View())[fileId := Apply(old(store.View())[fileId], Deletion(index)).slots]
  {
    var out := store.DeleteBlock(fileId, index);
    threw := !out.Done?;
  }

  /** The loop of an update request. */
  method UpdateEach(store: DynamicHashTableStateStore, fileId: ByteString, indices: seq<uint64>, clock: nat -> uint64)
    returns (result: MaintainResult)
    requires indices != [] && store.Valid() && fileId in store.files
    modifies store.files[fileId], store.files[fileId].entries.Values
    ensures store.Valid()
    ensures result == Finished(indices, Run(old(store.View())[fileId], Updates(indices, clock)))
    ensures store.View() == old(store.View())[fileId := Run(old(store.View())[fileId], Updates(indices, clock)).slots]
  {
    ghost var view, es := store.View(), Updates(indices, clock);
    for t := 0 to |indices|
      invariant store.Valid()
      invariant store.files[fileId].entries == old(store.files[fileId].entries)
      invariant !Run(view[fileId], es[..t]).threw
      invariant store.View() == view[fileId := Run(view[fileId], es[..t]).slots]
    {
      ghost var before := store.View();
      var threw := CallModify(store, fileId, indices[t], clock(t));
      ViewOneMore(view, fileId, es, t, before, store.View());
      if threw {
        StopsAtThrow(view[fileId], es, t + 1);
        return BlockNotFound;
      }
    }
    assert es[..|indices|] == es;
    result := Maintained;
  }

  method HandleUpdate(store: DynamicHashTableStateStore, fileId: ByteString, indices: seq<uint64>, clock: nat -> uint64)
    returns (result: MaintainResult)
    requires store.Valid() && fileId in store.files
    modifies store.files[fileId], store.files[fileId].entries.Values
    ensures store.Valid()
    ensures result == Finished(indices, Run(old(store.View())[fileId], Updates(indices, clock)))
    ensures result.IndicesRequired? <==> indices == []
    ensures result.BlockNotFound? <==>
              exists t :: 0 <= t < |indices| && SlotOf(indices[t]) !in old(store.View())[fileId]
    ensures result.Maintained? || result.IndicesRequired? || result.BlockNotFound?
    ensures result.IndicesRequired? ==> store.View() == old(store.View())
    ensures store.View() == old(store.View())[fileId := Run(old(store.View())[fileId], Updates(indices, clock)).slots]
  {
    ghost var view := store.View();
    if indices == [] {
      return IndicesRequired;
    }
    result := UpdateEach(store, fileId, indices, clock);
    UpdatesThrow(view[fileId], indices, clock);
  }

  method HandleInsert(store: DynamicHashTableStateStore, fileId: ByteString, indices: seq<uint64>, clock: nat -> uint64)
    returns (result: MaintainResult)
    requires store.Valid() && fileId in store.files
    modifies store.files[fileId]
    ensures store.Valid()
    ensures result == Finished(indices, Run(old(store.View())[fileId], Insertions(indices, clock)))
    ensures result == if indices == [] then IndicesRequired else Maintained
    ensures store.View()
         == old(store.View())[fileId := Run(old(store.View())[fileId], Insertions(indices, clock)).slots]
  {
    ghost var view, es := store.View(), Insertions(indices, clock);
    if indices == [] {
      return IndicesRequired;
    }
    for t := 0 to |indices|
      invariant store.Valid()
      invariant !Run(view[fileId], es[..t]).threw
      invariant store.View() == view[fileId := Run(view[fileId], es[..t]).slots]
    {
      ghost var before := store.View();
      var threw := CallInsert(store, fileId, indices[t], clock(t));
      ViewOneMore(view, fileId, es, t, before, store.View());
    }
    assert es[..|indices|] == es;
    result := Maintained;
  }

  /** The loop of a deletion request. */
  method DeleteEach(store: DynamicHashTableStateStore, fileId: ByteString, indices: seq<uint64>)
    returns (result: MaintainResult)
    requires indices != [] && store.Valid() && fileId in store.files
    modifies store.files[fileId]
    ensures store.Valid()
    ensures result == Finished(indices, Run(old(store.View())[fileId], Deletions(indices)))
    ensures store.View() == old(store.View())[fileId := Run(old(store.View())[fileId], Deletions(indices)).slots]
  {
    ghost var view, es := store.View(), Deletions(indices);
    for t := 0 to |indices|
      invariant store.Valid()
      invariant !Run(view[fileId], es[..t]).threw
      invariant store.View() == view[fileId := Run(view[fileId], es[..t]).slots]
    {
      ghost var before := store.View();
      var threw := CallDelete(store, fileId, indices[t]);
      ViewOneMore(view, fileId, es, t, before, store.View());
      if threw {
        StopsAtThrow(view[fileId], es, t + 1);
        return BlockNotFound;
      }
    }
    assert es[..|indices|] == es;
    result := Maintained;
  }

  method HandleDelete(store: DynamicHashTableStateStore, fileId: ByteString, indices: seq<uint64>)
    returns (result: MaintainResult)
    requires store.Valid() && fileId in store.files
    modifies store.files[fileId]
    ensures store.Valid()
    ensures result == Finished(indices, Run(old(store.View())[fileId], Deletions(indices)))
    ensures result.IndicesRequired? <==> indices == []
    ensures IsDense(old(store.View())[fileId]) ==>
              (result.BlockNotFound? <==>
                exists t :: 0 <= t < |indices| && !(1 <= indices[t] <= |old(store.View())[fileId]| - t))
    ensures store.View() == old(store.View())[fileId := Run(old(store.View())[fileId], Deletions(indices)).slots]
  {
    ghost var view := store.View();
    if indices == [] {
      return IndicesRequired;
    }
    result := DeleteEach(store, fileId, indices);
    if IsDense(view[fileId]) {
      DeletionsThrow(view[fileId], indices);
    }
  }

  /** What the run of each operation leaves of a dense file. */
  lemma RequestOutcome(slots: FileSlots, op: Operation, indices: seq<uint64>, clock: nat -> uint64)
    ensures op == Update && IsDense(slots) && |indices| < TWO64
            && (forall t :: 0 <= t < |indices| ==> 1 <= indices[t] <= |slots|) ==>
              && !Run(slots, Updates(indices, clock)).threw
              && UpdateLeaves(slots, Run(slots, Updates(indices, clock)).slots, indices, clock)
    ensures op == Insert && IsDense(slots) && |slots| + |indices| <= LAST
            && (forall t :: 0 <= t < |indices| ==> 1 <= indices[t] <= |slots| + t + 1) ==>
              && !Run(slots, Insertions(indices, clock)).threw
              && InsertLeaves(slots, Run(slots, Insertions(indices, clock)).slots, indices, clock)
    ensures op == Delete && IsDense(slots)
            && (forall t :: 0 <= t < |indices| ==> 1 <= indices[t] <= |slots| - t) ==>
              && !Run(slots, Deletions(indices)).threw
              && DeleteLeaves(slots, Run(slots, Deletions(indices)).slots, indices)
  {
    if op == Update && IsDense(slots) && |indices| < TWO64
       && (forall t :: 0 <= t < |indices| ==> 1 <= indices[t] <= |slots|) {
      UpdateRequest(slots, indices, clock);
    }
    if op == Insert && IsDense(slots) && |slots| + |indices| <= LAST
       && (forall t :: 0 <= t < |indices| ==> 1 <= indices[t] <= |slots| + t + 1) {
      InsertRequest(slots, indices, clock);
    }
    if op == Delete && IsDense(slots) && (forall t :: 0 <= t < |indices| ==> 1 <= indices[t] <= |slots| - t) {
      DeleteRequest(slots, indices);
    }
  }

  /** The request names a registered dense file and some block. */
  ghost predicate Addresses(view: Snapshot, fileId: ByteString, indices: seq<uint64>) {
    fileId != [] && fileId in view && IsDense(view[fileId]) && indices != []
  }

  /** Validates the request and dispatches; a refused request leaves the store alone. */
  method Maintain(store: DynamicHashTableStateStore, op: Operation, fileId: ByteString, indices: seq<uint64>,
                  clock: nat -> uint64)
    returns (result: MaintainResult)
    requires store.Valid()
    modifies if fileId in store.files then {store.files[fileId]} + store.files[fileId].entries.Values else {}
    ensures store.Valid()
    ensures result.FileIdRequired? <==> fileId == []
    ensures result.FileNotFound? <==> fileId != [] && fileId !in store.files
    ensures result.OperationUnsupported? <==> fileId != [] && fileId in store.files && op == Unsupported
    ensures fileId == [] || fileId !in store.files || op == Unsupported ==> store.View() == old(store.View())
    ensures fileId != [] && fileId in store.files && op != Unsupported ==>
              var run := Run(old(store.View())[fileId], EventsOf(op, indices, clock));
              result == Finished(indices, run) && store.View() == old(store.View())[fileId := run.slots]
    ensures op == Update && Addresses(old(store.View()), fileId, indices) && |indices| < TWO64
            && (forall t :: 0 <= t < |indices| ==> 1 <= indices[t] <= |old(store.View())[fileId]|) ==>
              result.Maintained? && UpdateLeaves(old(store.View())[fileId], store.View()[fileId], indices, clock)
    ensures op == Insert && Addresses(old(store.View()), fileId, indices)
            && |old(store.View())[fileId]| + |indices| <= LAST
            && (forall t :: 0 <= t < |indices| ==> 1 <= indices[t] <= |old(store.View())[fileId]| + t + 1) ==>
              result.Maintained? && InsertLeaves(old(store.View())[fileId], store.View()[fileId], indices, clock)
    ensures op == Delete && Addresses(old(store.View()), fileId, indices)
            && (forall t :: 0 <= t < |indices| ==> 1 <= indices[t] <= |old(store.View())[fileId]| - t) ==>
              result.Maintained? && DeleteLeaves(old(store.View())[fileId], store.View()[fileId], indices)
  {
    if fileId == [] {
      return FileIdRequired;
    }
    if !store.HasFile(fileId) {
      return FileNotFound;
    }
    ghost var slots := store.View()[fileId];
    RequestOutcome(slots, op, indices, clock);
    match op
    case Update => result := HandleUpdate(store, fileId, indices, clock);
    case Insert => result := HandleInsert(store, fileId, indices, clock);
    case Delete => result := HandleDelete(store, fileId, indices);
    case Unsupported => result := OperationUnsupported;
  }
}
