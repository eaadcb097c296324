/** Concurrent tag generation over one file: workers interleave at every store access. */
module Concurrency {
  import opened Bytes
  import opened Indices
  import opened Curve
  import opened Encoding
  import opened Slots
  import opened Store
  import opened Audit
  import opened Selector
  import opened Tagging
  import opened AuditTheorems
  import opened TaggingTheorems

  /** Where a request stands: before `hasFile`, before `addFile`, before reading the metadata
      of the next target, after a failed read, holding a copy of the metadata, or thrown. */
  datatype Phase = Checking | Adding | Reading | Missed | Holding(m: Metadata) | Failed

  /** One request: its resolved targets, how many are done, its own tag container, and for each
      tag the metadata it was signed for. */
  datatype Worker = Worker(sign: (uint64, Metadata) -> G1, targets: seq<uint64>, done: nat, phase: Phase,
                           tags: Tags, bound: FileSlots)

  datatype System = System(registered: bool, slots: FileSlots, workers: seq<Worker>)

  /** A turn of the scheduler: who runs, and what its clock says. */
  datatype Turn = Turn(worker: nat, now: uint64)

  predicate Idle(w: Worker) {
    w.phase.Failed? || (w.phase != Checking && w.phase != Adding && w.done >= |w.targets|)
  }

  /** One atomic access by one worker. */
  function Step(s: System, turn: Turn): System {
    if turn.worker >= |s.workers| || Idle(s.workers[turn.worker]) then s
    else
      var w := s.workers[turn.worker];
      match w.phase
      case Checking => Moved(s, turn.worker, w.(phase := if s.registered then Reading else Adding))
      case Adding =>
        if s.registered then Moved(s, turn.worker, w.(phase := Failed))
        else Moved(s.(registered := true), turn.worker, w.(phase := Reading))
      case Reading =>
        var slot := SlotOf(w.targets[w.done]);
        Moved(s, turn.worker, w.(phase := if slot in s.slots then Holding(s.slots[slot]) else Missed))
      case Missed =>
        var m := Metadata(1, turn.now);
        Moved(s.(slots := SetAt(s.slots, SlotOf(w.targets[w.done]), m)), turn.worker, w.(phase := Holding(m)))
      case Holding(m) =>
        Moved(s, turn.worker, Signed(w, m))
      case Failed => s
  }

  /** The worker after it signed its next target with the metadata it holds. */
  function Signed(w: Worker, m: Metadata): Worker
    requires w.done < |w.targets|
  {
    var slot := SlotOf(w.targets[w.done]);
    w.(phase := Reading, done := w.done + 1, tags := w.tags[slot := w.sign(slot, m)], bound := SetAt(w.bound, slot, m))
  }

  function Moved(s: System, i: nat, w: Worker): System
    requires i < |s.workers|
  {
    s.(workers := s.workers[i := w])
  }

  function RunTurns(s: System, turns: seq<Turn>): System
    decreases |turns|
  {
    if turns == [] then s else RunTurns(Step(s, turns[0]), turns[1..])
  }

  // ── The invariant ──

  predicate IsDone(w: Worker, k: uint64)
    requires w.done <= |w.targets|
  {
    IsTarget(Members(w.targets[..w.done]), k)
  }

  /** What holds of one slot: exactly the done targets have tags, and each tag is signed for
      the metadata the store has. */
  ghost predicate TagsFit(slots: FileSlots, w: Worker, k: uint64)
    requires w.done <= |w.targets|
  {
    && (k in w.tags <==> IsDone(w, k)) && (k in w.bound <==> k in w.tags)
    && (k in w.tags ==> w.tags[k] == w.sign(k, w.bound[k]) && Lookup(slots, k) == Some(w.bound[k]))
  }

  /** What holds of one worker in every reachable state. */
  ghost predicate WorkerOk(slots: FileSlots, w: Worker) {
    && w.done <= |w.targets|
    && !w.phase.Adding? && !w.phase.Failed?
    && (forall k: uint64 :: TagsFit(slots, w, k))
    && (w.phase.Missed? ==> w.done < |w.targets| && SlotOf(w.targets[w.done]) !in slots)
    && (w.phase.Holding? ==> w.done < |w.targets| && Lookup(slots, SlotOf(w.targets[w.done])) == Some(w.phase.m))
  }

  predicate Wants(w: Worker, k: uint64) {
    IsTarget(Members(w.targets), k)
  }

  /** Every selector is resolved to distinct 1-based blocks. */
  ghost predicate Resolved(workers: seq<Worker>) {
    forall i :: 0 <= i < |workers| ==> Distinct(workers[i].targets) && 0 !in workers[i].targets
  }

  /** No two requests want a block that the store does not hold yet. */
  ghost predicate NoSharedMissing(initial: FileSlots, workers: seq<Worker>) {
    forall i, j, k: uint64 ::
      0 <= i < |workers| && 0 <= j < |workers| && k !in initial && Wants(workers[i], k) && Wants(workers[j], k) ==>
        i == j
  }

  predicate WantedBy(workers: seq<Worker>, k: uint64) {
    exists i :: 0 <= i < |workers| && Wants(workers[i], k)
  }

  /** Nothing is lost or changed, and only targets are added, at version 1. */
  ghost predicate Grown(initial: FileSlots, slots: FileSlots, workers: seq<Worker>) {
    && (forall k: uint64 :: k in initial ==> Lookup(slots, k) == Some(initial[k]))
    && (forall k: uint64 :: k in slots && k !in initial ==> slots[k].version == 1 && WantedBy(workers, k))
  }

  ghost predicate Inv(initial: FileSlots, s: System) {
    && s.registered && Resolved(s.workers) && NoSharedMissing(initial, s.workers) && Grown(initial, s.slots, s.workers)
    && (forall i :: 0 <= i < |s.workers| ==> WorkerOk(s.slots, s.workers[i]))
  }

  /** No request has begun. */
  ghost predicate Fresh(s: System) {
    && Resolved(s.workers)
    && (forall i :: 0 <= i < |s.workers| ==>
          && s.workers[i].phase == Checking && s.workers[i].done == 0
          && s.workers[i].tags == map[] && s.workers[i].bound == map[])
  }

  ghost predicate Starts(s: System) {
    Fresh(s) && s.registered && NoSharedMissing(s.slots, s.workers)
  }

  /** A registration leaves every worker alone that does not wait for that very slot. */
  lemma OthersUnaffected(slots: FileSlots, slot: uint64, m: Metadata, w: Worker)
    requires WorkerOk(slots, w) && slot !in slots
    requires w.phase.Missed? ==> SlotOf(w.targets[w.done]) != slot
    ensures WorkerOk(SetAt(slots, slot, m), w)
  {
    forall k: uint64 ensures TagsFit(SetAt(slots, slot, m), w, k) {
      assert TagsFit(slots, w, k);
    }
  }

  lemma NextIsWanted(w: Worker)
    requires w.done < |w.targets| && 0 !in w.targets && Distinct(w.targets)
    ensures Wants(w, SlotOf(w.targets[w.done])) && !IsDone(w, SlotOf(w.targets[w.done]))
    ensures Members(w.targets[..w.done + 1]) == Members(w.targets[..w.done]) + {w.targets[w.done]}
  {
    assert w.targets[w.done] in Members(w.targets);
    assert w.targets[..w.done + 1] == w.targets[..w.done] + [w.targets[w.done]];
  }

  lemma OneMoreDone(w: Worker, m: Metadata, k: uint64)
    requires w.done < |w.targets| && 0 !in w.targets && Distinct(w.targets)
    ensures IsDone(Signed(w, m), k) <==> k == SlotOf(w.targets[w.done]) || IsDone(w, k)
  {
    NextIsWanted(w);
  }

  lemma SignFits(slots: FileSlots, w: Worker, m: Metadata, k: uint64)
    requires w.done < |w.targets| && 0 !in w.targets && Distinct(w.targets)
    requires TagsFit(slots, w, k) && Lookup(slots, SlotOf(w.targets[w.done])) == Some(m)
    ensures TagsFit(slots, Signed(w, m), k)
  {
    OneMoreDone(w, m, k);
  }

  lemma SignStep(slots: FileSlots, w: Worker, m: Metadata)
    requires WorkerOk(slots, w) && w.phase == Holding(m) && Distinct(w.targets) && 0 !in w.targets
    ensures WorkerOk(slots, Signed(w, m))
  {
    forall k: uint64 ensures TagsFit(slots, Signed(w, m), k) {
      assert TagsFit(slots, w, k);
      SignFits(slots, w, m, k);
    }
  }

  /** The worker's own step, given what its step does to the slots. */
  lemma OwnStep(s: System, turn: Turn)
    requires turn.worker < |s.workers| && s.registered && WorkerOk(s.slots, s.workers[turn.worker])
    requires Distinct(s.workers[turn.worker].targets) && 0 !in s.workers[turn.worker].targets
    ensures WorkerOk(Step(s, turn).slots, Step(s, turn).workers[turn.worker])
  {
    var w := s.workers[turn.worker];
    if !Idle(w) && w.phase.Holding? {
      SignStep(s.slots, w, w.phase.m);
    } else if !Idle(w) && w.phase.Missed? {
      RegisterStep(s.slots, w, Metadata(1, turn.now));
    } else {
      forall k: uint64 ensures TagsFit(s.slots, Step(s, turn).workers[turn.worker], k) {
        assert TagsFit(s.slots, w, k);
      }
    }
  }

  lemma RegisterStep(slots: FileSlots, w: Worker, m: Metadata)
    requires WorkerOk(slots, w) && w.phase.Missed?
    ensures WorkerOk(SetAt(slots, SlotOf(w.targets[w.done]), m), w.(phase := Holding(m)))
  {
    forall k: uint64 ensures TagsFit(SetAt(slots, SlotOf(w.targets[w.done]), m), w.(phase := Holding(m)), k) {
      assert TagsFit(slots, w, k);
    }
  }

  lemma StepKeepsOthers(initial: FileSlots, s: System, turn: Turn, i: nat)
    requires turn.worker < |s.workers| && i < |s.workers| && i != turn.worker
    requires Resolved(s.workers) && NoSharedMissing(initial, s.workers) && Grown(initial, s.slots, s.workers)
    requires WorkerOk(s.slots, s.workers[turn.worker]) && WorkerOk(s.slots, s.workers[i])
    ensures |Step(s, turn).workers| == |s.workers| && Step(s, turn).workers[i] == s.workers[i]
    ensures WorkerOk(Step(s, turn).slots, s.workers[i])
  {
    var w, v := s.workers[turn.worker], s.workers[i];
    if !Idle(w) && w.phase.Missed? {
      NextIsWanted(w);
      if v.phase.Missed? {
        NextIsWanted(v);
      }
      assert SlotOf(w.targets[w.done]) !in initial;
      OthersUnaffected(s.slots, SlotOf(w.targets[w.done]), Metadata(1, turn.now), v);
    }
  }

  lemma GrownByOne(initial: FileSlots, slots: FileSlots, workers: seq<Worker>, i: nat, m: Metadata)
    requires Grown(initial, slots, workers) && i < |workers| && m.version == 1
    requires WorkerOk(slots, workers[i]) && workers[i].phase.Missed?
    requires Distinct(workers[i].targets) && 0 !in workers[i].targets
    ensures Grown(initial, SetAt(slots, SlotOf(workers[i].targets[workers[i].done]), m), workers)
  {
    NextIsWanted(workers[i]);
  }

  lemma GrownForSame(initial: FileSlots, slots: FileSlots, workers: seq<Worker>, workers': seq<Worker>)
    requires Grown(initial, slots, workers) && |workers'| == |workers|
    requires forall i :: 0 <= i < |workers| ==> workers'[i].targets == workers[i].targets
    ensures Grown(initial, slots, workers')
  {
    forall k: uint64 | k in slots && k !in initial ensures WantedBy(workers', k) {
      var i :| 0 <= i < |workers| && Wants(workers[i], k);
      assert Wants(workers'[i], k);
    }
  }

  /** No step changes what a worker is asked for. */
  lemma StepKeepsRequests(s: System, turn: Turn)
    ensures |Step(s, turn).workers| == |s.workers|
    ensures forall i :: 0 <= i < |s.workers| ==>
              && Step(s, turn).workers[i].targets == s.workers[i].targets
              && Step(s, turn).workers[i].sign == s.workers[i].sign
    ensures s.registered ==> Step(s, turn).registered
  {
  }

  lemma StepGrows(initial: FileSlots, s: System, turn: Turn)
    requires Inv(initial, s)
    ensures Grown(initial, Step(s, turn).slots, Step(s, turn).workers)
  {
    StepKeepsRequests(s, turn);
    if turn.worker < |s.workers| {
      var w := s.workers[turn.worker];
      assert WorkerOk(s.slots, w);
      if !Idle(w) && w.phase.Missed? {
        GrownByOne(initial, s.slots, s.workers, turn.worker, Metadata(1, turn.now));
      }
      GrownForSame(initial, Step(s, turn).slots, s.workers, Step(s, turn).workers);
    }
  }

  lemma StepKeepsInv(initial: FileSlots, s: System, turn: Turn)
    requires Inv(initial, s)
    ensures Inv(initial, Step(s, turn))
  {
    if turn.worker < |s.workers| {
      var after := Step(s, turn);
      StepKeepsRequests(s, turn);
      StepGrows(initial, s, turn);
      forall i | 0 <= i < |s.workers| ensures WorkerOk(after.slots, after.workers[i]) {
        if i == turn.worker {
          OwnStep(s, turn);
        } else {
          StepKeepsOthers(initial, s, turn, i);
        }
      }
      SameTargets(initial, s.workers, after.workers);
    }
  }

  lemma SameTargets(initial: FileSlots, workers: seq<Worker>, workers': seq<Worker>)
    requires Resolved(workers) && NoSharedMissing(initial, workers) && |workers'| == |workers|
    requires forall i :: 0 <= i < |workers| ==> workers'[i].targets == workers[i].targets
    ensures Resolved(workers') && NoSharedMissing(initial, workers')
  {
    forall i, j, k: uint64 |
      0 <= i < |workers| && 0 <= j < |workers| && Wants(workers'[i], k) && Wants(workers'[j], k) && k !in initial
      ensures i == j
    {
      assert Wants(workers[i], k) && Wants(workers[j], k);
    }
  }

  /** Safety under every interleaving: whatever the schedule, no request throws, nothing in
      the store is lost or changed, and each tag made so far matches the store. */
  lemma {:induction false} EveryScheduleIsSafe(initial: FileSlots, s: System, turns: seq<Turn>)
    requires Inv(initial, s)
    ensures Inv(initial, RunTurns(s, turns))
    ensures |RunTurns(s, turns).workers| == |s.workers|
    ensures forall i :: 0 <= i < |s.workers| ==>
              && RunTurns(s, turns).workers[i].targets == s.workers[i].targets
              && RunTurns(s, turns).workers[i].sign == s.workers[i].sign
    decreases |turns|
  {
    if turns == [] {
    } else {
      StepKeepsRequests(s, turns[0]);
      StepKeepsInv(initial, s, turns[0]);
      EveryScheduleIsSafe(initial, Step(s, turns[0]), turns[1..]);
    }
  }

  lemma StartIsSafe(s: System)
    requires Starts(s)
    ensures Inv(s.slots, s)
  {
    forall i | 0 <= i < |s.workers| ensures WorkerOk(s.slots, s.workers[i]) {
      assert s.workers[i].targets[..0] == [];
    }
  }

  // ── Complete runs ──

  predicate Complete(s: System) {
    forall i :: 0 <= i < |s.workers| ==> s.workers[i].done == |s.workers[i].targets|
  }

  function AllTargets(workers: seq<Worker>): set<uint64> {
    if workers == [] then {} else AllTargets(workers[..|workers| - 1]) + Members(workers[|workers| - 1].targets)
  }

  lemma {:induction false} AllTargetsAre(workers: seq<Worker>, k: uint64)
    ensures IsTarget(AllTargets(workers), k) <==> WantedBy(workers, k)
  {
    if workers == [] {
    } else {
      var front := workers[..|workers| - 1];
      AllTargetsAre(front, k);
      if i :| 0 <= i < |front| && Wants(front[i], k) {
        assert Wants(workers[i], k);
      }
      if i :| 0 <= i < |workers| && Wants(workers[i], k) {
        assert i < |front| ==> Wants(front[i], k);
      }
    }
  }

  /** The times at which the blocks were registered. */
  function StampsOf(slots: FileSlots): uint64 -> uint64 {
    (k: uint64) => if k in slots then slots[k].timestamp else 0
  }

  lemma FinalSlot(initial: FileSlots, s: System, k: uint64)
    requires Inv(initial, s) && Complete(s)
    ensures k in s.slots <==> k in initial || WantedBy(s.workers, k)
    ensures k in s.slots ==> s.slots[k] == MetaAt(initial, StampsOf(s.slots), k)
  {
    if i :| 0 <= i < |s.workers| && Wants(s.workers[i], k) {
      var w := s.workers[i];
      assert WorkerOk(s.slots, w) && w.targets[..w.done] == w.targets;
      assert TagsFit(s.slots, w, k);
    }
  }

  /** Every complete concurrent run has the outcome of the requests one after the other, in
      any order, with the clock of the run: the store gains exactly the missing targets of
      all workers, and each worker's tags are its sequential tag map. */
  lemma ConcurrentRunIsSequential(s: System, turns: seq<Turn>)
    requires Starts(s) && Complete(RunTurns(s, turns))
    ensures var final := RunTurns(s, turns);
            && final.slots == Registered(s.slots, AllTargets(s.workers), StampsOf(final.slots))
            && |final.workers| == |s.workers|
            && forall i :: 0 <= i < |s.workers| ==>
                 final.workers[i].tags
                   == TagMap(s.workers[i].sign, s.slots, StampsOf(final.slots), Members(s.workers[i].targets))
  {
    StartIsSafe(s);
    EveryScheduleIsSafe(s.slots, s, turns);
    var final := RunTurns(s, turns);
    var clock := StampsOf(final.slots);
    forall k: uint64 ensures Lookup(final.slots, k) == Lookup(Registered(s.slots, AllTargets(s.workers), clock), k) {
      FinalSlot(s.slots, final, k);
      AllTargetsAre(s.workers, k);
      SameWants(s.workers, final.workers, k);
    }
    SameSlots(final.slots, Registered(s.slots, AllTargets(s.workers), clock));
    forall i | 0 <= i < |s.workers|
      ensures final.workers[i].tags == TagMap(s.workers[i].sign, s.slots, clock, Members(s.workers[i].targets))
    {
      FinalTags(s.slots, final, i);
    }
  }

  lemma SameWants(workers: seq<Worker>, workers': seq<Worker>, k: uint64)
    requires |workers'| == |workers| && forall i :: 0 <= i < |workers| ==> workers'[i].targets == workers[i].targets
    ensures WantedBy(workers, k) <==> WantedBy(workers', k)
  {
    if i :| 0 <= i < |workers| && Wants(workers[i], k) {
      assert Wants(workers'[i], k);
    }
    if i :| 0 <= i < |workers'| && Wants(workers'[i], k) {
      assert Wants(workers[i], k);
    }
  }

  lemma FinalTag(initial: FileSlots, s: System, i: nat, k: uint64)
    requires Inv(initial, s) && Complete(s) && i < |s.workers|
    ensures var w := s.workers[i];
            Lookup(w.tags, k) == if Wants(w, k) then Some(w.sign(k, MetaAt(initial, StampsOf(s.slots), k))) else None
  {
    var w := s.workers[i];
    assert WorkerOk(s.slots, w) && w.targets[..w.done] == w.targets;
    assert TagsFit(s.slots, w, k);
    if k in w.tags {
      FinalSlot(initial, s, k);
    }
  }

  lemma FinalTags(initial: FileSlots, s: System, i: nat)
    requires Inv(initial, s) && Complete(s) && i < |s.workers|
    ensures s.workers[i].tags == TagMap(s.workers[i].sign, initial, StampsOf(s.slots), Members(s.workers[i].targets))
  {
    var w := s.workers[i];
    forall k: uint64
      ensures Lookup(w.tags, k) == Lookup(TagMap(w.sign, initial, StampsOf(s.slots), Members(w.targets)), k)
    {
      FinalTag(initial, s, i, k);
    }
    SameSlots(w.tags, TagMap(w.sign, initial, StampsOf(s.slots), Members(w.targets)));
  }

  // ── Merging the windows ──

  function MergedTags(workers: seq<Worker>): Tags {
    if workers == [] then map[] else MergedTags(workers[..|workers| - 1]) + workers[|workers| - 1].tags
  }

  lemma {:induction false} MergedTag(workers: seq<Worker>, k: uint64, sigma: G1)
    requires forall i :: 0 <= i < |workers| && k in workers[i].tags ==> workers[i].tags[k] == sigma
    ensures k in MergedTags(workers) <==> exists i :: 0 <= i < |workers| && k in workers[i].tags
    ensures k in MergedTags(workers) ==> MergedTags(workers)[k] == sigma
  {
    if workers == [] {
    } else {
      var front := workers[..|workers| - 1];
      MergedTag(front, k, sigma);
      if i :| 0 <= i < |front| && k in front[i].tags {
        assert k in workers[i].tags;
      }
      if i :| 0 <= i < |workers| && k in workers[i].tags {
        assert i < |front| ==> k in front[i].tags;
      }
    }
  }

  /** Every worker signs a window of the file, and was given targets in it. */
  ghost predicate TagsWindows(c: Curve, pub: PublicParams, priv: PrivateParams, fileId: ByteString, file: BlockSource,
                              windows: seq<BlockSource>, workers: seq<Worker>)
  {
    && |windows| == |workers|
    && forall i :: 0 <= i < |workers| ==>
         && WindowOf(windows[i], file) && AllInWindow(windows[i], workers[i].targets)
         && workers[i].sign == Signer(c, pub, priv, fileId, windows[i])
  }

  /** Merging the windows: after any complete schedule the union of the workers' tags is the
      tag map that one request for all their blocks over the whole file would have made. */
  lemma WindowsMerge(c: Curve, pub: PublicParams, priv: PrivateParams, fileId: ByteString, file: BlockSource,
                     windows: seq<BlockSource>, s: System, turns: seq<Turn>)
    requires Starts(s) && Complete(RunTurns(s, turns))
    requires TagsWindows(c, pub, priv, fileId, file, windows, s.workers)
    ensures var final := RunTurns(s, turns);
            MergedTags(final.workers)
              == TagMap(Signer(c, pub, priv, fileId, file), s.slots, StampsOf(final.slots), AllTargets(s.workers))
  {
    var final := RunTurns(s, turns);
    var whole := TagMap(Signer(c, pub, priv, fileId, file), s.slots, StampsOf(final.slots), AllTargets(s.workers));
    ConcurrentRunIsSequential(s, turns);
    forall k: uint64 ensures Lookup(MergedTags(final.workers), k) == Lookup(whole, k) {
      MergedAt(c, pub, priv, fileId, file, windows, s.workers, final.workers, s.slots, StampsOf(final.slots), k);
    }
    SameSlots(MergedTags(final.workers), whole);
  }

  lemma MergedAt(c: Curve, pub: PublicParams, priv: PrivateParams, fileId: ByteString, file: BlockSource,
                 windows: seq<BlockSource>, workers: seq<Worker>, final: seq<Worker>, slots: FileSlots,
                 clock: uint64 -> uint64, k: uint64)
    requires TagsWindows(c, pub, priv, fileId, file, windows, workers) && |final| == |workers|
    requires forall i :: 0 <= i < |workers| ==>
               final[i].tags == TagMap(workers[i].sign, slots, clock, Members(workers[i].targets))
    ensures Lookup(MergedTags(final), k)
         == Lookup(TagMap(Signer(c, pub, priv, fileId, file), slots, clock, AllTargets(workers)), k)
  {
    var sigma := Signer(c, pub, priv, fileId, file)(k, MetaAt(slots, clock, k));
    forall i | 0 <= i < |workers|
      ensures k in final[i].tags <==> Wants(workers[i], k)
      ensures k in final[i].tags ==> final[i].tags[k] == sigma
    {
      if Wants(workers[i], k) {
        WantedSignature(c, pub, priv, fileId, file, windows[i], workers[i].targets, k, MetaAt(slots, clock, k));
      }
    }
    MergedTag(final, k, sigma);
    AllTargetsAre(workers, k);
    if i :| 0 <= i < |workers| && Wants(workers[i], k) {
      assert k in final[i].tags;
    }
  }

  /** Merge, then challenge, proof and verification: after any complete schedule an audit of
      tagged blocks under the metadata of the final store is accepted, barring infinity. */
  lemma MergedTagsPassAudit(c: Curve, pub: PublicParams, priv: PrivateParams, fileId: ByteString, file: BlockSource,
                            windows: seq<BlockSource>, s: System, turns: seq<Turn>, ch: Challenges)
    requires Starts(s) && Complete(RunTurns(s, turns)) && file.start == 0
    requires TagsWindows(c, pub, priv, fileId, file, windows, s.workers)
    requires KeyPair(c, pub, priv) && Blinded(c, pub, ch) && ch.items != []
    requires forall j :: 0 <= j < |ch.items| ==>
               && ch.items[j].blockIndex in AllTargets(s.workers) && ch.items[j].blockIndex > 0
               && Lookup(RunTurns(s, turns).slots, ch.items[j].blockIndex - 1) == Some(ch.items[j].metadata)
    requires fileId != [] && NoInfinity(c, pub, fileId, MergedTags(RunTurns(s, turns).workers), ch)
    ensures var proof := Proof(c, pub, ch, MergedTags(RunTurns(s, turns).workers), file);
            proof.Some? && Accepts(c, pub, fileId, ch, proof.value)
  {
    WindowsMerge(c, pub, priv, fileId, file, windows, s, turns);
    ConcurrentRunIsSequential(s, turns);
    TaggedFilePassesAudit(c, pub, priv, fileId, file, s.slots, AllTargets(s.workers),
                          StampsOf(RunTurns(s, turns).slots), ch);
  }

  lemma WantedSignature(c: Curve, pub: PublicParams, priv: PrivateParams, fileId: ByteString, file: BlockSource,
                        window: BlockSource, targets: seq<uint64>, k: uint64, m: Metadata)
    requires WindowOf(window, file) && AllInWindow(window, targets) && IsTarget(Members(targets), k)
    ensures Signer(c, pub, priv, fileId, window)(k, m) == Signer(c, pub, priv, fileId, file)(k, m)
  {
    assert k + 1 in targets && InWindow(window, k + 1);
    var l: nat := k - window.start;
    assert window.block(l) == file.block(window.start + l);
    SameSignature(c, pub, priv, fileId, window, file, k, m);
  }
}
