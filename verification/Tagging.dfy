/** Tag generation: on-demand registration and signing of the selected blocks. */
module Tagging {
  import opened Bytes
  import opened Indices
  import opened Curve
  import opened Encoding
  import opened Modular
  import opened Slots
  import opened Store
  import opened Audit
  import opened AuditTheorems
  import opened Selector

  datatype TagsResult = NoTags | Rejected(why: Selection) | Generated(tags: Tags)

  // ── What a tagging request leaves behind ──

  /** The slots of a file; none before it is registered. */
  function FileIn(view: Snapshot, fileId: ByteString): FileSlots {
    if fileId in view then view[fileId] else map[]
  }

  /** The metadata a tag binds: the stored one, or version 1 at the time of registration. */
  function MetaAt(slots: FileSlots, clock: uint64 -> uint64, slot: uint64): Metadata {
    if slot in slots then slots[slot] else Metadata(1, clock(slot))
  }

  predicate IsTarget(targets: set<uint64>, slot: uint64) {
    slot < LAST && slot + 1 in targets
  }

  function Registered(slots: FileSlots, targets: set<uint64>, clock: uint64 -> uint64): FileSlots {
    map k: uint64 | 0 <= k <= LAST && (k in slots || IsTarget(targets, k)) :: MetaAt(slots, clock, k)
  }

  /** The signature a request makes for a slot, given the metadata of the block there. */
  function Signer(c: Curve, pub: PublicParams, priv: PrivateParams, fileId: ByteString, source: BlockSource)
    : (uint64, Metadata) -> G1
  {
    (slot: uint64, m: Metadata) =>
      if source.start <= slot < LAST then
        Signature(c, pub.u, priv.a, fileId, slot + 1, m, source.block(slot - source.start))
      else 0
  }

  function TagMap(sign: (uint64, Metadata) -> G1, slots: FileSlots, clock: uint64 -> uint64, targets: set<uint64>)
    : Tags
  {
    map k: uint64 | 0 <= k <= LAST && IsTarget(targets, k) :: sign(k, MetaAt(slots, clock, k))
  }

  // ── The code ──

  lemma SignatureSteps(a: int, h: int, s: int, u: int, n: int)
    requires n > 0
    ensures a * ((h + s * u % n) % n) % n == a * (h + s * u) % n
  {
    ModAdd(h, s * u, n);
    ModMul(a, h + s * u, n);
  }

  method SignBlock(c: Curve, u: G1, a: int, fileId: ByteString, blockIndex: uint64, m: Metadata, block: ByteString)
    returns (sigma: G1)
    ensures sigma == Signature(c, u, a, fileId, blockIndex, m, block)
  {
    var h := ComputeBlockHash(c, fileId, blockIndex, m);
    var segmentSum := AccumulateBlockSegmentsG1(c, block, u);
    sigma := Mul(c, a, Add(c, h, segmentSum));
    SignatureSteps(a, h, SegmentSum(block), u, c.n);
  }

  lemma SignerSigns(c: Curve, pub: PublicParams, priv: PrivateParams, fileId: ByteString, source: BlockSource,
                    blockIndex: uint64, m: Metadata)
    requires InWindow(source, blockIndex)
    ensures Signer(c, pub, priv, fileId, source)(SlotOf(blockIndex), m)
         == Signature(c, pub.u, priv.a, fileId, blockIndex, m, source.block(blockIndex - 1 - source.start))
  {
  }

  /** Signs a block of the window, which is read by its index inside the window. */
  method TagBlock(c: Curve, pub: PublicParams, priv: PrivateParams, fileId: ByteString, source: BlockSource,
                  blockIndex: uint64, m: Metadata)
    returns (sigma: G1)
    requires InWindow(source, blockIndex)
    ensures sigma == Signer(c, pub, priv, fileId, source)(SlotOf(blockIndex), m)
  {
    var localIndex: nat := blockIndex - 1 - source.start;
    assert localIndex < source.count;
    sigma := SignBlock(c, pub.u, priv.a, fileId, blockIndex, m, source.block(localIndex));
    SignerSigns(c, pub, priv, fileId, source, blockIndex, m);
  }

  /** Reads the metadata of a block, or registers the block when the store has none. */
  method ReadOrRegister(store: DynamicHashTableStateStore, fileId: ByteString, blockIndex: uint64,
                        clock: uint64 -> uint64)
    returns (m: Metadata)
    requires store.Valid() && fileId in store.files
    modifies store.files[fileId]
    ensures store.Valid()
    ensures m == MetaAt(old(store.View())[fileId], clock, SlotOf(blockIndex))
    ensures store.View() == old(store.View())[fileId := SetAt(old(store.View())[fileId], SlotOf(blockIndex), m)]
  {
    var found := store.GetBlockMetadata(fileId, blockIndex);
    if found.Found? {
      m := found.meta.Value();
      assert SetAt(store.View()[fileId], SlotOf(blockIndex), m) == store.View()[fileId];
    } else {
      var meta := store.RegisterBlock(fileId, blockIndex, clock(SlotOf(blockIndex)));
      m := meta.Value();
    }
  }

  function Members(indices: seq<uint64>): set<uint64> {
    set i | i in indices
  }

  lemma RegisterOneMore(slots: FileSlots, targets: set<uint64>, clock: uint64 -> uint64, index: uint64)
    requires index !in targets && index > 0
    ensures Lookup(Registered(slots, targets, clock), index - 1) == Lookup(slots, index - 1)
    ensures Registered(slots, targets + {index}, clock)
         == SetAt(Registered(slots, targets, clock), index - 1, MetaAt(slots, clock, index - 1))
  {
    SameSlots(Registered(slots, targets + {index}, clock),
              SetAt(Registered(slots, targets, clock), index - 1, MetaAt(slots, clock, index - 1)));
  }

  lemma TagOneMore(sign: (uint64, Metadata) -> G1, slots: FileSlots, clock: uint64 -> uint64,
                   targets: set<uint64>, index: uint64)
    requires index > 0
    ensures TagMap(sign, slots, clock, targets + {index})
         == TagMap(sign, slots, clock, targets)[index - 1 := sign(index - 1, MetaAt(slots, clock, index - 1))]
  {
  }

  lemma NoTargets(sign: (uint64, Metadata) -> G1, slots: FileSlots, clock: uint64 -> uint64, targets: set<uint64>)
    requires targets == {}
    ensures TagMap(sign, slots, clock, targets) == map[] && Registered(slots, targets, clock) == slots
  {
    SameSlots(Registered(slots, targets, clock), slots);
  }

  /** The loop of the request, one target after the other. */
  datatype Tagged = Tagged(slots: FileSlots, tags: Tags)

  function TagOne(sign: (uint64, Metadata) -> G1, clock: uint64 -> uint64, before: Tagged, index: uint64): Tagged {
    var slot := SlotOf(index);
    var m := MetaAt(before.slots, clock, slot);
    Tagged(SetAt(before.slots, slot, m), before.tags[slot := sign(slot, m)])
  }

  function TagRun(sign: (uint64, Metadata) -> G1, clock: uint64 -> uint64, slots: FileSlots, indices: seq<uint64>)
    : Tagged
  {
    if indices == [] then Tagged(slots, map[])
    else TagOne(sign, clock, TagRun(sign, clock, slots, indices[..|indices| - 1]), indices[|indices| - 1])
  }

  lemma TagRunStep(sign: (uint64, Metadata) -> G1, clock: uint64 -> uint64, slots: FileSlots, indices: seq<uint64>,
                   t: nat)
    requires t < |indices|
    ensures TagRun(sign, clock, slots, indices[..t + 1])
         == TagOne(sign, clock, TagRun(sign, clock, slots, indices[..t]), indices[t])
  {
    assert indices[..t + 1][..t] == indices[..t];
  }

  lemma ViewNext(sign: (uint64, Metadata) -> G1, clock: uint64 -> uint64, view: Snapshot, fileId: ByteString,
                 indices: seq<uint64>, t: nat, before: Snapshot, tags: Tags, after: Snapshot, tags': Tags)
    requires fileId in view && t < |indices|
    requires before == view[fileId := TagRun(sign, clock, view[fileId], indices[..t]).slots]
    requires tags == TagRun(sign, clock, view[fileId], indices[..t]).tags
    requires after == before[fileId := TagOne(sign, clock, Tagged(before[fileId], tags), indices[t]).slots]
    requires tags' == TagOne(sign, clock, Tagged(before[fileId], tags), indices[t]).tags
    ensures after == view[fileId := TagRun(sign, clock, view[fileId], indices[..t + 1]).slots]
    ensures tags' == TagRun(sign, clock, view[fileId], indices[..t + 1]).tags
  {
    TagRunStep(sign, clock, view[fileId], indices, t);
  }

  lemma OneMoreTarget(sign: (uint64, Metadata) -> G1, slots: FileSlots, clock: uint64 -> uint64,
                      targets: set<uint64>, index: uint64)
    requires index !in targets && index > 0
    ensures TagOne(sign, clock, Tagged(Registered(slots, targets, clock), TagMap(sign, slots, clock, targets)), index)
         == Tagged(Registered(slots, targets + {index}, clock), TagMap(sign, slots, clock, targets + {index}))
  {
    RegisterOneMore(slots, targets, clock, index);
    TagOneMore(sign, slots, clock, targets, index);
  }

  /** In whatever order the targets come, the loop registers exactly the missing ones and
      signs each of them with the metadata the store ends with. */
  lemma {:induction false} TagRunIsTagMap(sign: (uint64, Metadata) -> G1, clock: uint64 -> uint64, slots: FileSlots,
                                          indices: seq<uint64>)
    requires Distinct(indices) && forall i :: 0 <= i < |indices| ==> indices[i] > 0
    ensures TagRun(sign, clock, slots, indices)
         == Tagged(Registered(slots, Members(indices), clock), TagMap(sign, slots, clock, Members(indices)))
  {
    if indices == [] {
      NoTargets(sign, slots, clock, Members(indices));
    } else {
      var front, index := indices[..|indices| - 1], indices[|indices| - 1];
      TagRunIsTagMap(sign, clock, slots, front);
      assert indices == front + [index];
      assert Members(indices) == Members(front) + {index};
      OneMoreTarget(sign, slots, clock, Members(front), index);
    }
  }

  /** One target of a registered file. */
  method TagNext(c: Curve, pub: PublicParams, priv: PrivateParams, fileId: ByteString,
                 store: DynamicHashTableStateStore, source: BlockSource,
                 blockIndex: uint64, clock: uint64 -> uint64, before: Tags)
    returns (tags: Tags)
    requires store.Valid() && fileId in store.files
    requires InWindow(source, blockIndex)
    modifies store.files[fileId]
    ensures store.Valid()
    ensures var after := TagOne(Signer(c, pub, priv, fileId, source), clock,
                                Tagged(old(store.View())[fileId], before), blockIndex);
            tags == after.tags && store.View() == old(store.View())[fileId := after.slots]
  {
    ghost var slots := store.View()[fileId];
    var m := ReadOrRegister(store, fileId, blockIndex, clock);
    ghost var view := store.View();
    var sigma := TagBlock(c, pub, priv, fileId, source, blockIndex, m);
    assert store.View() == view;
    tags := before[SlotOf(blockIndex) := sigma];
    assert Tagged(SetAt(slots, SlotOf(blockIndex), m), tags)
        == TagOne(Signer(c, pub, priv, fileId, source), clock, Tagged(slots, before), blockIndex);
  }

  /** The loop over the targets of a registered file. */
  method TagTargets(c: Curve, pub: PublicParams, priv: PrivateParams, fileId: ByteString,
                    store: DynamicHashTableStateStore, source: BlockSource,
                    indices: seq<uint64>, clock: uint64 -> uint64)
    returns (tags: Tags)
    requires store.Valid() && fileId in store.files
    requires AllInWindow(source, indices)
    modifies store.files[fileId]
    ensures store.Valid()
    ensures var run := TagRun(Signer(c, pub, priv, fileId, source), clock, old(store.View())[fileId], indices);
            tags == run.tags && store.View() == old(store.View())[fileId := run.slots]
  {
    ghost var view, slots := store.View(), store.View()[fileId];
    ghost var sign := Signer(c, pub, priv, fileId, source);
    tags := map[];
    for t := 0 to |indices|
      invariant store.Valid()
      invariant store.View() == view[fileId := TagRun(sign, clock, slots, indices[..t]).slots]
      invariant tags == TagRun(sign, clock, slots, indices[..t]).tags
    {
      ghost var before, seen := store.View(), tags;
      tags := TagNext(c, pub, priv, fileId, store, source, indices[t], clock, tags);
      ViewNext(sign, clock, view, fileId, indices, t, before, seen, store.View(), tags);
    }
    assert indices[..|indices|] == indices;
  }

  lemma Granted(sign: (uint64, Metadata) -> G1, clock: uint64 -> uint64, view: Snapshot, fileId: ByteString,
                selector: Option<seq<uint64>>, source: BlockSource, indices: seq<uint64>,
                registered: Snapshot, after: Snapshot, tags: Tags)
    requires StrictlyAscending(indices) && AllInWindow(source, indices) && Members(indices) == Chosen(selector, source)
    requires registered == view[fileId := FileIn(view, fileId)]
    requires var run := TagRun(sign, clock, registered[fileId], indices);
             tags == run.tags && after == registered[fileId := run.slots]
    ensures tags == TagMap(sign, FileIn(view, fileId), clock, Chosen(selector, source))
    ensures after == view[fileId := Registered(FileIn(view, fileId), Chosen(selector, source), clock)]
  {
    TagRunIsTagMap(sign, clock, registered[fileId], indices);
  }

  method EnsureFile(store: DynamicHashTableStateStore, fileId: ByteString)
    requires store.Valid()
    modifies store
    ensures store.Valid() && fileId in store.files
    ensures if fileId in old(store.files) then store.files == old(store.files) else fresh(store.files[fileId])
    ensures store.View() == old(store.View())[fileId := FileIn(old(store.View()), fileId)]
  {
    if !store.HasFile(fileId) {
      var added := store.AddFile(fileId);
    } else {
      assert store.View() == store.View()[fileId := store.View()[fileId]];
    }
  }

  /** Registration keeps every stored entry and adds an entry for exactly the missing targets. */
  ghost predicate AddsTheMissing(before: FileSlots, after: FileSlots, targets: set<uint64>) {
    && (forall k: uint64 :: k in before ==> k in after && after[k] == before[k])
    && (forall k: uint64 :: k in after && k !in before ==> IsTarget(targets, k) && after[k].version == 1)
    && (forall k: uint64 :: IsTarget(targets, k) ==> k in after)
  }

  lemma RegisteredAddsTheMissing(slots: FileSlots, targets: set<uint64>, clock: uint64 -> uint64)
    ensures AddsTheMissing(slots, Registered(slots, targets, clock), targets)
  {
  }

  /** Everything after the selector was accepted. */
  method TagSelected(c: Curve, pub: PublicParams, priv: PrivateParams, fileId: ByteString,
                     store: DynamicHashTableStateStore, source: BlockSource, indices: seq<uint64>,
                     clock: uint64 -> uint64, ghost selector: Option<seq<uint64>>)
    returns (tags: Tags)
    requires store.Valid()
    requires StrictlyAscending(indices) && AllInWindow(source, indices) && Members(indices) == Chosen(selector, source)
    modifies store, if fileId in store.files then {store.files[fileId]} else {}
    ensures store.Valid()
    ensures tags == TagMap(Signer(c, pub, priv, fileId, source), FileIn(old(store.View()), fileId), clock,
                           Chosen(selector, source))
    ensures store.View() == old(store.View())[fileId := Registered(FileIn(old(store.View()), fileId),
                                                                   Chosen(selector, source), clock)]
  {
    ghost var view := store.View();
    EnsureFile(store, fileId);
    ghost var registered := store.View();
    tags := TagTargets(c, pub, priv, fileId, store, source, indices, clock);
    Granted(Signer(c, pub, priv, fileId, source), clock, view, fileId, selector, source, indices,
            registered, store.View(), tags);
  }

  /** Which blocks get a tag, in terms of the request alone. */
  lemma TagKeys(tags: Tags, sign: (uint64, Metadata) -> G1, slots: FileSlots, clock: uint64 -> uint64,
                selector: Option<seq<uint64>>, source: BlockSource)
    requires Selectable(selector, source) && tags == TagMap(sign, slots, clock, Chosen(selector, source))
    ensures selector.None? || selector == Some([]) ==>
              forall k: uint64 :: k in tags <==> source.start <= k < source.start + source.count
    ensures selector.Some? && selector.value != [] ==>
              forall k: uint64 :: k in tags <==> k < LAST && k + 1 in selector.value
  {
    forall k: uint64 ensures k in tags <==> k < LAST && k + 1 in Chosen(selector, source) {
      assert k in tags <==> IsTarget(Chosen(selector, source), k);
    }
    if selector.None? || selector == Some([]) {
      forall k: uint64 ensures k in tags <==> source.start <= k < source.start + source.count {
        if k < LAST {
          assert k + 1 in Chosen(selector, source) <==> InWindow(source, k + 1);
        }
      }
    }
  }

  /** Every tag is the signature of its block of the window under the metadata its slot now holds. */
  ghost predicate SignsWith(c: Curve, pub: PublicParams, priv: PrivateParams, fileId: ByteString, source: BlockSource,
                            tags: Tags, slots: FileSlots)
  {
    forall k: uint64 :: k in tags && source.start <= k < LAST ==>
      && k in slots
      && tags[k] == Signature(c, pub.u, priv.a, fileId, k + 1, slots[k], source.block(k - source.start))
  }

  /** What the tags are, in terms of the store the request leaves behind. */
  lemma TagsAreSignatures(c: Curve, pub: PublicParams, priv: PrivateParams, fileId: ByteString, source: BlockSource,
                          slots: FileSlots, clock: uint64 -> uint64, targets: set<uint64>)
    ensures SignsWith(c, pub, priv, fileId, source, TagMap(Signer(c, pub, priv, fileId, source), slots, clock, targets),
                      Registered(slots, targets, clock))
  {
  }

  /** The tags and the slots a successful request leaves, entry by entry. */
  lemma WhatGenerateTagsLeaves(c: Curve, pub: PublicParams, priv: PrivateParams, fileId: ByteString,
                               source: BlockSource, selector: Option<seq<uint64>>, clock: uint64 -> uint64,
                               slots: FileSlots, tags: Tags, after: FileSlots)
    requires Selectable(selector, source)
    requires tags == TagMap(Signer(c, pub, priv, fileId, source), slots, clock, Chosen(selector, source))
    requires after == Registered(slots, Chosen(selector, source), clock)
    ensures AddsTheMissing(slots, after, Chosen(selector, source))
    ensures forall k: uint64 :: k in tags ==> k in after
    ensures selector.None? || selector == Some([]) ==>
              forall k: uint64 :: k in tags <==> source.start <= k < source.start + source.count
    ensures selector.Some? && selector.value != [] ==>
              forall k: uint64 :: k in tags <==> k < LAST && k + 1 in selector.value
    ensures SignsWith(c, pub, priv, fileId, source, tags, after)
  {
    RegisteredAddsTheMissing(slots, Chosen(selector, source), clock);
    TagKeys(tags, Signer(c, pub, priv, fileId, source), slots, clock, selector, source);
    TagsAreSignatures(c, pub, priv, fileId, source, slots, clock, Chosen(selector, source));
  }

  /** The request: guards, selection, registration and signing. */
  method TagRequest(c: Curve, pub: PublicParams, priv: PrivateParams, fileId: ByteString,
                    store: DynamicHashTableStateStore, source: BlockSource,
                    selector: Option<seq<uint64>>, clock: uint64 -> uint64)
    returns (result: TagsResult)
    requires store.Valid()
    modifies store, if fileId in store.files then {store.files[fileId]} else {}
    ensures store.Valid()
    ensures result.NoTags? <==> fileId == []
    ensures result.Generated? <==> fileId != [] && Selectable(selector, source)
    ensures !result.Generated? ==> store.View() == old(store.View())
    ensures result.Generated? ==>
              result.tags == TagMap(Signer(c, pub, priv, fileId, source), FileIn(old(store.View()), fileId), clock,
                                    Chosen(selector, source))
    ensures result.Generated? ==>
              store.View() == old(store.View())[fileId := Registered(FileIn(old(store.View()), fileId),
                                                                     Chosen(selector, source), clock)]
  {
    if fileId == [] {
      return NoTags;
    }
    ghost var view := store.View();
    var selection := ResolveTargetBlockIndices(selector, source);
    assert store.View() == view;
    if !selection.Targets? {
      return Rejected(selection);
    }
    var tags := TagSelected(c, pub, priv, fileId, store, source, selection.indices, clock, selector);
    result := Generated(tags);
  }

  /** Signs the selected blocks. A refused request leaves no trace in the store; a granted
      one registers exactly the missing targets and touches no stored metadata. */
  method GenerateTags(c: Curve, pub: PublicParams, priv: PrivateParams, fileId: ByteString,
                      store: DynamicHashTableStateStore, source: BlockSource,
                      selector: Option<seq<uint64>>, clock: uint64 -> uint64)
    returns (result: TagsResult)
    requires store.Valid()
    modifies store, if fileId in store.files then {store.files[fileId]} else {}
    ensures store.Valid()
    ensures result.NoTags? <==> fileId == []
    ensures result.Generated? <==> fileId != [] && Selectable(selector, source)
    ensures !result.Generated? ==> store.View() == old(store.View())
    ensures result.Generated? ==>
              result.tags == TagMap(Signer(c, pub, priv, fileId, source), FileIn(old(store.View()), fileId), clock,
                                    Chosen(selector, source))
    ensures result.Generated? ==>
              store.View() == old(store.View())[fileId := Registered(FileIn(old(store.View()), fileId),
                                                                     Chosen(selector, source), clock)]
    ensures result.Generated? ==>
              && fileId in store.View()
              && AddsTheMissing(FileIn(old(store.View()), fileId), store.View()[fileId], Chosen(selector, source))
              && (forall k: uint64 :: k in result.tags ==> k in store.View()[fileId])
    ensures fileId != [] && (selector.None? || selector == Some([])) ==>
              && result.Generated?
              && forall k: uint64 :: k in result.tags <==> source.start <= k < source.start + source.count
    ensures result.Generated? && selector.Some? && selector.value != [] ==>
              forall k: uint64 :: k in result.tags <==> k < LAST && k + 1 in selector.value
    ensures result.Generated? ==> SignsWith(c, pub, priv, fileId, source, result.tags, store.View()[fileId])
  {
    ghost var view := store.View();
    result := TagRequest(c, pub, priv, fileId, store, source, selector, clock);
    if result.Generated? {
      ghost var slots := FileIn(view, fileId);
      assert store.View()[fileId] == Registered(slots, Chosen(selector, source), clock);
      WhatGenerateTagsLeaves(c, pub, priv, fileId, source, selector, clock, slots, result.tags, store.View()[fileId]);
    }
  }
}
