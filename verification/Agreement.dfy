/** The agreement of tags, store and content over any run of maintenance and retagging. */
module Agreement {
  import opened Bytes
  import opened Indices
  import opened Curve
  import opened Encoding
  import opened Slots
  import opened Store
  import opened Runs
  import opened Audit
  import opened AuditTheorems
  import opened Selector
  import opened Tagging
  import opened Maintenance

  datatype Owner = Owner(c: Curve, pub: PublicParams, priv: PrivateParams, fileId: ByteString)

  /** One file: the slots in the store, the stored content and the stored tags. */
  datatype State = State(slots: FileSlots, contents: seq<ByteString>, tags: Tags)

  /** One maintenance request and the retagging after it: the store calls, the content the
      caller now has, and the 1-based blocks it generates tags for. */
  datatype Change = Change(events: seq<Event>, contents: seq<ByteString>, targets: set<uint64>, clock: uint64 -> uint64)

  /** The whole file as a source that starts at block 0. */
  function Source(contents: seq<ByteString>): BlockSource
    requires |contents| < TWO64
  {
    Window(0, |contents|, (k: nat) => if k < |contents| then contents[k] else [])
  }

  /** Every tag is the signature of its index, the current metadata and the content. */
  ghost predicate Agree(o: Owner, s: State) {
    && |s.contents| <= LAST
    && (forall k: uint64 :: k in s.slots <==> k < |s.contents|)
    && (forall k: uint64 :: k in s.tags <==> k < |s.contents|)
    && (forall k: uint64 :: k < |s.contents| ==>
          s.tags[k] == Signature(o.c, o.pub.u, o.priv.a, o.fileId, k + 1, s.slots[k], s.contents[k]))
  }

  /** The 0-based positions whose tag an event invalidates. */
  predicate Touches(e: Event, p: nat) {
    if e.Modify? then p + 1 == e.index else p + 1 >= e.index
  }

  predicate Touched(es: seq<Event>, p: nat) {
    exists t :: 0 <= t < |es| && Touches(es[t], p)
  }

  /** The request addresses existing blocks, and the caller retags what it touched: for an
      update the updated blocks, for an insertion or deletion every block from the index on. */
  ghost predicate Admissible(s: State, change: Change) {
    && Fits(|s.contents|, change.events)
    && |change.contents| == CountAfter(|s.contents|, change.events)
    && (forall i :: i in change.targets ==> 1 <= i <= |change.contents|)
    && (forall p: uint64 :: p < |change.contents| ==>
          || p + 1 in change.targets
          || (!Touched(change.events, p) && p < |s.contents| && change.contents[p] == s.contents[p]))
  }

  /** Maintenance, then tag generation for the targets; tags past the last block are dropped. */
  ghost function Step(o: Owner, s: State, change: Change): State
    requires |change.contents| <= LAST
  {
    var slots := Run(s.slots, change.events).slots;
    State(Registered(slots, change.targets, change.clock), change.contents,
          (map k | k in s.tags && k < |change.contents| :: s.tags[k])
          + TagMap(Signer(o.c, o.pub, o.priv, o.fileId, Source(change.contents)), slots, change.clock, change.targets))
  }

  lemma {:induction false} UntouchedHistory(n: nat, es: seq<Event>, p: nat)
    requires Fits(n, es) && !Touched(es, p)
    ensures History(es, p) == Trace(Some(p), 0, None)
  {
    if es == [] {
    } else {
      var front, last := es[..|es| - 1], es[|es| - 1];
      assert forall t :: 0 <= t < |front| ==> front[t] == es[t];
      assert !Touches(last, p);
      UntouchedHistory(n, front, p);
    }
  }

  /** Before the request the slots are the list of blocks, and afterwards that list after
      the run. */
  lemma RunOnSlots(slots: FileSlots, count: nat, events: seq<Event>)
    requires count <= LAST && (forall k: uint64 :: k in slots <==> k < count) && Fits(count, events)
    ensures IsDense(slots) && |slots| == count
    ensures CountAfter(count, events) <= LAST
    ensures Run(slots, events) == Progress(Dense(RunList(Listed(slots), events)), false)
  {
    SlotCount(slots, count);
    DenseListed(slots);
    RunRefinesList(Listed(slots), events);
  }

  lemma {:induction false} SlotCount(slots: FileSlots, count: nat)
    requires count <= LAST && forall k: uint64 :: k in slots <==> k < count
    ensures |slots| == count
  {
    var metas := seq(count, k requires 0 <= k < count => slots[k]);
    DenseSize(metas);
    SameSlots(Dense(metas), slots);
  }

  lemma UntouchedSlot(s: seq<Metadata>, events: seq<Event>, k: nat)
    requires Fits(|s|, events) && k < CountAfter(|s|, events) && !Touched(events, k)
    ensures k < |s| && RunList(s, events)[k] == s[k]
  {
    UntouchedHistory(|s|, events, k);
    VersionHistory(s, events, k);
  }

  /** The store after the request, slot by slot. */
  lemma SlotsAfter(s: State, change: Change)
    requires |s.contents| <= LAST && forall k: uint64 :: k in s.slots <==> k < |s.contents|
    requires Admissible(s, change)
    ensures |change.contents| <= LAST
    ensures !Run(s.slots, change.events).threw
    ensures forall k: uint64 :: k in Run(s.slots, change.events).slots <==> k < |change.contents|
    ensures forall k: uint64 :: k < |change.contents| && k + 1 !in change.targets ==>
              Lookup(Run(s.slots, change.events).slots, k) == Lookup(s.slots, k)
  {
    RunOnSlots(s.slots, |s.contents|, change.events);
    forall k: uint64 | k < |change.contents| && k + 1 !in change.targets
      ensures Lookup(Run(s.slots, change.events).slots, k) == Lookup(s.slots, k)
    {
      UntouchedSlot(Listed(s.slots), change.events, k);
    }
  }

  lemma SourceSigns(o: Owner, contents: seq<ByteString>, k: uint64, m: Metadata)
    requires k < |contents| <= LAST
    ensures Signer(o.c, o.pub, o.priv, o.fileId, Source(contents))(k, m)
         == Signature(o.c, o.pub.u, o.priv.a, o.fileId, k + 1, m, contents[k])
  {
  }

  /** The tag of slot k after the retagging. */
  lemma TagAfter(sign: (uint64, Metadata) -> G1, slots: FileSlots, clock: uint64 -> uint64, targets: set<uint64>,
                 tags: Tags, count: nat, k: uint64)
    requires count <= LAST && forall i :: i in targets ==> 1 <= i <= count
    ensures var kept: Tags := map j | j in tags && j < count :: tags[j];
            Lookup(kept + TagMap(sign, slots, clock, targets), k)
              == if k < LAST && k + 1 in targets then Some(sign(k, MetaAt(slots, clock, k)))
                 else if k < count then Lookup(tags, k) else None
  {
    assert k in TagMap(sign, slots, clock, targets) <==> k < LAST && k + 1 in targets;
  }

  lemma RegistersNothing(slots: FileSlots, clock: uint64 -> uint64, targets: set<uint64>, count: nat)
    requires forall i :: i in targets ==> 1 <= i <= count
    requires forall k: uint64 :: k in slots <==> k < count
    ensures Registered(slots, targets, clock) == slots
  {
    SameSlots(Registered(slots, targets, clock), slots);
  }

  lemma StepAt(o: Owner, s: State, change: Change, k: uint64)
    requires Agree(o, s) && Admissible(s, change) && |change.contents| <= LAST && k < |change.contents|
    ensures k in Run(s.slots, change.events).slots
    ensures Lookup(Step(o, s, change).tags, k)
         == Some(Signature(o.c, o.pub.u, o.priv.a, o.fileId, k + 1, Run(s.slots, change.events).slots[k],
                           change.contents[k]))
    ensures k + 1 !in change.targets ==> Lookup(Step(o, s, change).tags, k) == Lookup(s.tags, k)
  {
    SlotsAfter(s, change);
    var slots := Run(s.slots, change.events).slots;
    TagAfter(Signer(o.c, o.pub, o.priv, o.fileId, Source(change.contents)), slots, change.clock, change.targets,
             s.tags, |change.contents|, k);
    if k + 1 in change.targets {
      assert MetaAt(slots, change.clock, k) == slots[k];
      SourceSigns(o, change.contents, k, slots[k]);
    } else {
      assert Lookup(slots, k) == Lookup(s.slots, k) && change.contents[k] == s.contents[k];
      assert Lookup(Step(o, s, change).tags, k) == Some(s.tags[k]);
    }
  }

  lemma StepPastEnd(o: Owner, s: State, change: Change, k: uint64)
    requires Agree(o, s) && Admissible(s, change) && |change.contents| <= LAST && k >= |change.contents|
    ensures Lookup(Step(o, s, change).tags, k) == None
  {
    TagAfter(Signer(o.c, o.pub, o.priv, o.fileId, Source(change.contents)), Run(s.slots, change.events).slots,
             change.clock, change.targets, s.tags, |change.contents|, k);
  }

  /** One request of any kind and length keeps the agreement, and the store ends exactly as
      maintenance left it: retagging registers nothing. What was not retagged is untouched. */
  lemma StepKeepsAgreement(o: Owner, s: State, change: Change)
    requires Agree(o, s) && Admissible(s, change)
    ensures |change.contents| <= LAST
    ensures Agree(o, Step(o, s, change))
    ensures Step(o, s, change).slots == Run(s.slots, change.events).slots && !Run(s.slots, change.events).threw
    ensures forall k: uint64 :: k < |change.contents| && k + 1 !in change.targets ==>
              Lookup(Step(o, s, change).tags, k) == Lookup(s.tags, k)
  {
    SlotsAfter(s, change);
    RegistersNothing(Run(s.slots, change.events).slots, change.clock, change.targets, |change.contents|);
    forall k: uint64
      ensures k < |change.contents| ==>
        Lookup(Step(o, s, change).tags, k)
          == Some(Signature(o.c, o.pub.u, o.priv.a, o.fileId, k + 1, Run(s.slots, change.events).slots[k],
                           change.contents[k]))
      ensures k < |change.contents| && k + 1 !in change.targets ==>
        Lookup(Step(o, s, change).tags, k) == Lookup(s.tags, k)
      ensures k >= |change.contents| ==> Lookup(Step(o, s, change).tags, k) == None
    {
      if k < |change.contents| {
        StepAt(o, s, change, k);
      } else {
        StepPastEnd(o, s, change, k);
      }
    }
    AgreeByLookup(o, Step(o, s, change));
  }

  lemma AgreeByLookup(o: Owner, s: State)
    requires |s.contents| <= LAST
    requires forall k: uint64 :: k in s.slots <==> k < |s.contents|
    requires forall k: uint64 :: k >= |s.contents| ==> Lookup(s.tags, k) == None
    requires forall k: uint64 :: k < |s.contents| ==>
               Lookup(s.tags, k) == Some(Signature(o.c, o.pub.u, o.priv.a, o.fileId, k + 1, s.slots[k], s.contents[k]))
    ensures Agree(o, s)
  {
    forall k: uint64 ensures k in s.tags <==> k < |s.contents| {
      assert Lookup(s.tags, k).Some? <==> k < |s.contents|;
    }
  }

  // ── Runs ──

  ghost predicate AllAdmissible(o: Owner, s: State, changes: seq<Change>)
    decreases |changes|
  {
    changes == []
    || (Admissible(s, changes[0]) && |changes[0].contents| <= LAST
        && AllAdmissible(o, Step(o, s, changes[0]), changes[1..]))
  }

  ghost function After(o: Owner, s: State, changes: seq<Change>): State
    requires AllAdmissible(o, s, changes)
    decreases |changes|
  {
    if changes == [] then s else After(o, Step(o, s, changes[0]), changes[1..])
  }

  /** Safety over whole runs: whatever is updated, inserted and deleted, in any order and
      in batches of any size, every stored tag stays the signature of the current state. */
  lemma {:induction false} RunKeepsAgreement(o: Owner, s: State, changes: seq<Change>)
    requires Agree(o, s) && AllAdmissible(o, s, changes)
    ensures Agree(o, After(o, s, changes))
    decreases |changes|
  {
    if changes != [] {
      StepKeepsAgreement(o, s, changes[0]);
      RunKeepsAgreement(o, Step(o, s, changes[0]), changes[1..]);
    }
  }

  ghost function FirstState(o: Owner, contents: seq<ByteString>, clock: uint64 -> uint64): State
    requires |contents| <= LAST
  {
    var targets := Chosen(None, Source(contents));
    State(Registered(map[], targets, clock), contents,
          TagMap(Signer(o.c, o.pub, o.priv, o.fileId, Source(contents)), map[], clock, targets))
  }

  /** The first tagging of a file, in an empty store, starts such a run. */
  lemma FirstTaggingAgrees(o: Owner, contents: seq<ByteString>, clock: uint64 -> uint64)
    requires |contents| <= LAST
    ensures Agree(o, FirstState(o, contents, clock))
  {
    var first := FirstState(o, contents, clock);
    forall k: uint64
      ensures k in first.slots <==> k < |contents|
      ensures k < |contents| ==>
        Lookup(first.tags, k) == Some(Signature(o.c, o.pub.u, o.priv.a, o.fileId, k + 1, first.slots[k], contents[k]))
      ensures k >= |contents| ==> Lookup(first.tags, k) == None
    {
      FirstTaggingAt(o, contents, clock, k);
    }
    AgreeByLookup(o, first);
  }

  lemma FirstTaggingAt(o: Owner, contents: seq<ByteString>, clock: uint64 -> uint64, k: uint64)
    requires |contents| <= LAST
    ensures var first := FirstState(o, contents, clock);
            && (k in first.slots <==> k < |contents|)
            && (k < |contents| ==>
                  Lookup(first.tags, k)
                    == Some(Signature(o.c, o.pub.u, o.priv.a, o.fileId, k + 1, first.slots[k], contents[k])))
            && (k >= |contents| ==> Lookup(first.tags, k) == None)
  {
    var targets := Chosen(None, Source(contents));
    if k < |contents| {
      assert InWindow(Source(contents), k + 1) && IsTarget(targets, k);
      SourceSigns(o, contents, k, Metadata(1, clock(k)));
    } else {
      assert !IsTarget(targets, k);
    }
  }

  /** An audit of existing blocks under the metadata the store holds. */
  ghost predicate InRange(s: State, items: seq<ChallengeItem>) {
    forall j :: 0 <= j < |items| ==>
      1 <= items[j].blockIndex <= |s.contents| && Lookup(s.slots, items[j].blockIndex - 1) == Some(items[j].metadata)
  }

  /** Every honest in-range audit of an agreeing state is accepted, barring infinity. */
  lemma AgreementPassesAudit(o: Owner, s: State, ch: Challenges)
    requires Agree(o, s) && InRange(s, ch.items) && ch.items != []
    requires KeyPair(o.c, o.pub, o.priv) && Blinded(o.c, o.pub, ch)
    requires o.fileId != [] && NoInfinity(o.c, o.pub, o.fileId, s.tags, ch)
    ensures var proof := Proof(o.c, o.pub, ch, s.tags, Source(s.contents));
            proof.Some? && Accepts(o.c, o.pub, o.fileId, ch, proof.value)
  {
    forall j | 0 <= j < |ch.items|
      ensures Honest(o.c, o.pub, o.priv, o.fileId, s.tags, Source(s.contents), ch.items[j])
    {
      var k: uint64 := ch.items[j].blockIndex - 1;
      assert k in s.slots && s.slots[k] == ch.items[j].metadata;
    }
    NothingRefused(o.c, o.pub, o.fileId, s.tags, ch);
    Completeness(o.c, o.pub, o.priv, o.fileId, ch, s.tags, Source(s.contents));
  }

  /** From the first tagging through any run to any audit: any non-empty list of blocks of the
      final file, each under the metadata the store holds. What has to be finite is listed. */
  lemma EveryAuditOfARunPasses(o: Owner, contents: seq<ByteString>, clock: uint64 -> uint64,
                               changes: seq<Change>, ch: Challenges)
    requires |contents| <= LAST && KeyPair(o.c, o.pub, o.priv) && Blinded(o.c, o.pub, ch) && ch.items != []
    requires var first := FirstState(o, contents, clock);
             && AllAdmissible(o, first, changes)
             && var last := After(o, first, changes);
                forall j :: 0 <= j < |ch.items| ==>
                  && 1 <= ch.items[j].blockIndex <= |last.contents|
                  && ch.items[j].blockIndex - 1 in last.slots
                  && last.slots[ch.items[j].blockIndex - 1] == ch.items[j].metadata
                  && (ch.items[j].blockIndex - 1 in last.tags ==> last.tags[ch.items[j].blockIndex - 1] % o.c.n != 0)
    requires o.fileId != [] && o.pub.pk % o.c.n != 0
    requires o.c.strict ==>
               && o.pub.g % o.c.n != 0 && o.pub.u % o.c.n != 0 && ch.R % o.c.n != 0
               && Sum(HashTerm(o.c, o.fileId), ch.items) % o.c.n != 0
    ensures var last := After(o, FirstState(o, contents, clock), changes);
            |last.contents| <= LAST
            && var proof := Proof(o.c, o.pub, ch, last.tags, Source(last.contents));
            proof.Some? && Accepts(o.c, o.pub, o.fileId, ch, proof.value)
  {
    FirstTaggingAgrees(o, contents, clock);
    RunKeepsAgreement(o, FirstState(o, contents, clock), changes);
    AgreementPassesAudit(o, After(o, FirstState(o, contents, clock), changes), ch);
  }

  // ── The same step through the store and the tag generator ──

  lemma SelectorOfTargets(contents: seq<ByteString>, retag: seq<uint64>)
    requires |contents| < TWO64 && retag != [] && Distinct(retag)
    requires forall i :: i in Members(retag) ==> 1 <= i <= |contents|
    ensures Selectable(Some(retag), Source(contents)) && Chosen(Some(retag), Source(contents)) == Members(retag)
  {
    forall i | 0 <= i < |retag| ensures InWindow(Source(contents), retag[i]) {
      assert retag[i] in Members(retag);
    }
  }

  lemma AfterStep(o: Owner, s: State, change: Change, view: Snapshot, maintained: Snapshot,
                  tagged: Snapshot, made: Tags)
    requires Agree(o, s) && Admissible(s, change) && |change.contents| <= LAST
    requires o.fileId in view && view[o.fileId] == s.slots
    requires maintained == view[o.fileId := Run(s.slots, change.events).slots]
    requires tagged == maintained[o.fileId := Registered(FileIn(maintained, o.fileId), change.targets, change.clock)]
    requires made == TagMap(Signer(o.c, o.pub, o.priv, o.fileId, Source(change.contents)),
                            FileIn(maintained, o.fileId), change.clock, change.targets)
    ensures tagged == view[o.fileId := Step(o, s, change).slots]
    ensures (map k | k in s.tags && k < |change.contents| :: s.tags[k]) + made == Step(o, s, change).tags
  {
  }

  method MaintainOnly(store: DynamicHashTableStateStore, fileId: ByteString, op: Operation, indices: seq<uint64>,
                      clock: nat -> uint64)
    requires store.Valid() && fileId != [] && fileId in store.files
    modifies store.files[fileId], store.files[fileId].entries.Values
    ensures store.Valid()
    ensures store.View()
         == old(store.View())[fileId := Run(old(store.View())[fileId], EventsOf(op, indices, clock)).slots]
  {
    ghost var view := store.View();
    var result := Maintain(store, op, fileId, indices, clock);
    MaintainedView(view, fileId, op, indices, clock, store.View());
  }

  method TagOnly(o: Owner, store: DynamicHashTableStateStore, contents: seq<ByteString>, retag: seq<uint64>,
                 clock: uint64 -> uint64)
    returns (made: Tags)
    requires store.Valid() && o.fileId != [] && o.fileId in store.files
    requires |contents| < TWO64 && retag != [] && Distinct(retag)
    requires forall i :: i in Members(retag) ==> 1 <= i <= |contents|
    modifies store, store.files[o.fileId]
    ensures store.Valid()
    ensures made == TagMap(Signer(o.c, o.pub, o.priv, o.fileId, Source(contents)),
                           FileIn(old(store.View()), o.fileId), clock, Members(retag))
    ensures store.View()
         == old(store.View())[o.fileId := Registered(FileIn(old(store.View()), o.fileId), Members(retag), clock)]
  {
    SelectorOfTargets(contents, retag);
    var tagging := GenerateTags(o.c, o.pub, o.priv, o.fileId, store, Source(contents), Some(retag), clock);
    made := tagging.tags;
  }

  /** A caller that maintains the file and then generates tags for its targets performs
      exactly the step above on the real store. With nothing to retag, as after the deletion
      of the last blocks, it generates no tags: an empty selector would select them all. */
  method MaintainAndRetag(o: Owner, store: DynamicHashTableStateStore, op: Operation, indices: seq<uint64>,
                          clock: nat -> uint64, contents: seq<ByteString>, retag: seq<uint64>,
                          clock': uint64 -> uint64, ghost s: State)
    returns (made: Tags)
    requires store.Valid() && o.fileId != [] && o.fileId in store.files && store.View()[o.fileId] == s.slots
    requires Distinct(retag)
    requires Agree(o, s) && Admissible(s, Change(EventsOf(op, indices, clock), contents, Members(retag), clock'))
    modifies store, store.files[o.fileId], store.files[o.fileId].entries.Values
    ensures store.Valid() && |contents| <= LAST
    ensures var after := Step(o, s, Change(EventsOf(op, indices, clock), contents, Members(retag), clock'));
            && store.View() == old(store.View())[o.fileId := after.slots]
            && (map k | k in s.tags && k < |contents| :: s.tags[k]) + made == after.tags
  {
    ghost var change := Change(EventsOf(op, indices, clock), contents, Members(retag), clock');
    ghost var view := store.View();
    SlotsAfter(s, change);
    MaintainOnly(store, o.fileId, op, indices, clock);
    ghost var maintained := store.View();
    if retag == [] {
      made := map[];
      NoTargets(Signer(o.c, o.pub, o.priv, o.fileId, Source(contents)), FileIn(maintained, o.fileId), clock',
                Members(retag));
      AfterStep(o, s, change, view, maintained, maintained, made);
      return;
    }
    made := TagOnly(o, store, contents, retag, clock');
    AfterStep(o, s, change, view, maintained, store.View(), made);
  }

  /** A request that is refused for its operation or its empty list runs no event. */
  lemma MaintainedView(view: Snapshot, fileId: ByteString, op: Operation, indices: seq<uint64>, clock: nat -> uint64,
                       maintained: Snapshot)
    requires fileId in view
    requires op == Unsupported ==> maintained == view
    requires op != Unsupported ==> maintained == view[fileId := Run(view[fileId], EventsOf(op, indices, clock)).slots]
    ensures maintained == view[fileId := Run(view[fileId], EventsOf(op, indices, clock)).slots]
  {
  }
}
