/** What tagging requests have in common, whatever window and selector they use. */
module TaggingTheorems {
  import opened Bytes
  import opened Curve
  import opened Encoding
  import opened Slots
  import opened Store
  import opened Audit
  import opened AuditTheorems
  import opened Selector
  import opened Tagging

  /** The window shows the same content as the whole file, from its first block on. */
  ghost predicate WindowOf(window: BlockSource, file: BlockSource) {
    && file.start == 0 && window.start + window.count <= file.count
    && forall l: nat :: l < window.count ==> window.block(l) == file.block(window.start + l)
  }

  /** Window tagging agrees with full tagging: any valid selector of any window yields
      exactly the restriction of the full tag map to the selected keys. */
  lemma WindowAgreement(c: Curve, pub: PublicParams, priv: PrivateParams, fileId: ByteString,
                        window: BlockSource, file: BlockSource, slots: FileSlots, clock: uint64 -> uint64,
                        selector: Option<seq<uint64>>, k: uint64)
    requires WindowOf(window, file) && Selectable(selector, window)
    ensures var full := TagMap(Signer(c, pub, priv, fileId, file), slots, clock, Chosen(None, file));
            var part := TagMap(Signer(c, pub, priv, fileId, window), slots, clock, Chosen(selector, window));
            Lookup(part, k) == if IsTarget(Chosen(selector, window), k) then Lookup(full, k) else None
    ensures IsTarget(Chosen(selector, window), k) ==> window.start <= k < window.start + window.count
  {
    if IsTarget(Chosen(selector, window), k) {
      SelectedInWindow(selector, window, k + 1);
      assert InWindow(file, k + 1);
      assert IsTarget(Chosen(None, file), k);
      var l: nat := k - window.start;
      assert window.block(l) == file.block(window.start + l);
      SameSignature(c, pub, priv, fileId, window, file, k, MetaAt(slots, clock, k));
    }
  }

  lemma SelectedInWindow(selector: Option<seq<uint64>>, source: BlockSource, index: uint64)
    requires Selectable(selector, source)
    ensures index in Chosen(selector, source) ==> InWindow(source, index)
  {
  }

  lemma SameSignature(c: Curve, pub: PublicParams, priv: PrivateParams, fileId: ByteString,
                      window: BlockSource, file: BlockSource, k: uint64, m: Metadata)
    requires window.start <= k < LAST && file.start == 0 && window.block(k - window.start) == file.block(k)
    ensures Signer(c, pub, priv, fileId, window)(k, m) == Signer(c, pub, priv, fileId, file)(k, m)
  {
  }

  /** Two requests in sequence are one request for the union of their targets. Tagging the
      same targets again changes neither tags nor store, however late it happens. */
  lemma TaggingInParts(sign: (uint64, Metadata) -> G1, slots: FileSlots, clock: uint64 -> uint64,
                       clock': uint64 -> uint64, first: set<uint64>, second: set<uint64>)
    ensures Registered(Registered(slots, first, clock), second, clock) == Registered(slots, first + second, clock)
    ensures TagMap(sign, slots, clock, first) + TagMap(sign, Registered(slots, first, clock), clock, second)
         == TagMap(sign, slots, clock, first + second)
    ensures second <= first ==>
              && Registered(Registered(slots, first, clock), second, clock') == Registered(slots, first, clock)
              && TagMap(sign, Registered(slots, first, clock), clock', second) == TagMap(sign, slots, clock, second)
  {
    var registered := Registered(slots, first, clock);
    SameSlots(Registered(registered, second, clock), Registered(slots, first + second, clock));
    forall k ensures Lookup(TagMap(sign, slots, clock, first) + TagMap(sign, registered, clock, second), k)
                  == Lookup(TagMap(sign, slots, clock, first + second), k) {
      assert k in TagMap(sign, slots, clock, first) <==> IsTarget(first, k);
      assert k in TagMap(sign, registered, clock, second) <==> IsTarget(second, k);
    }
    SameSlots(TagMap(sign, slots, clock, first) + TagMap(sign, registered, clock, second),
              TagMap(sign, slots, clock, first + second));
    if second <= first {
      SameSlots(Registered(registered, second, clock'), registered);
      SameSlots(TagMap(sign, registered, clock', second), TagMap(sign, slots, clock, second));
    }
  }

  /** The first tagging of a whole file leaves it dense. */
  lemma FirstTaggingIsDense(file: BlockSource, clock: uint64 -> uint64)
    requires file.start == 0
    ensures IsDense(Registered(map[], Chosen(None, file), clock))
    ensures |Registered(map[], Chosen(None, file), clock)| == file.count
  {
    var s := seq(file.count, k requires 0 <= k < file.count => Metadata(1, clock(k)));
    DenseSize(s);
    forall k: uint64 ensures IsTarget(Chosen(None, file), k) <==> k < file.count {
      if k < file.count {
        assert InWindow(file, k + 1);
      }
    }
    SameSlots(Registered(map[], Chosen(None, file), clock), Dense(s));
  }

  /** The items name tagged blocks and carry the metadata the store ends with. */
  ghost predicate Challenged(slots: FileSlots, targets: set<uint64>, clock: uint64 -> uint64,
                             items: seq<ChallengeItem>)
  {
    forall j :: 0 <= j < |items| ==>
      && items[j].blockIndex in targets && items[j].blockIndex > 0
      && Lookup(Registered(slots, targets, clock), items[j].blockIndex - 1) == Some(items[j].metadata)
  }

  lemma TagsAreHonest(c: Curve, pub: PublicParams, priv: PrivateParams, fileId: ByteString, file: BlockSource,
                      slots: FileSlots, targets: set<uint64>, clock: uint64 -> uint64, items: seq<ChallengeItem>)
    requires file.start == 0 && Challenged(slots, targets, clock, items)
    ensures AllHonest(c, pub, priv, fileId, TagMap(Signer(c, pub, priv, fileId, file), slots, clock, targets),
                      file, items)
  {
    var sign := Signer(c, pub, priv, fileId, file);
    var tags := TagMap(sign, slots, clock, targets);
    forall j | 0 <= j < |items| ensures Honest(c, pub, priv, fileId, tags, file, items[j]) {
      var slot: uint64 := items[j].blockIndex - 1;
      assert IsTarget(targets, slot) && slot in tags;
      assert tags[slot] == sign(slot, items[j].metadata);
    }
  }

  /** End to end: key pair, tagging of a whole file or a part of it, challenge of tagged
      blocks, proof over the file and verification. Barring points at infinity the audit
      is accepted, for every file and every number of items. */
  lemma TaggedFilePassesAudit(c: Curve, pub: PublicParams, priv: PrivateParams, fileId: ByteString, file: BlockSource,
                              slots: FileSlots, targets: set<uint64>, clock: uint64 -> uint64, ch: Challenges)
    requires KeyPair(c, pub, priv) && Blinded(c, pub, ch) && ch.items != []
    requires file.start == 0 && Challenged(slots, targets, clock, ch.items)
    requires fileId != []
    requires NoInfinity(c, pub, fileId, TagMap(Signer(c, pub, priv, fileId, file), slots, clock, targets), ch)
    ensures var proof := Proof(c, pub, ch, TagMap(Signer(c, pub, priv, fileId, file), slots, clock, targets), file);
            proof.Some? && Accepts(c, pub, fileId, ch, proof.value)
  {
    TagsAreHonest(c, pub, priv, fileId, file, slots, targets, clock, ch.items);
    NothingRefused(c, pub, fileId, TagMap(Signer(c, pub, priv, fileId, file), slots, clock, targets), ch);
    Completeness(c, pub, priv, fileId, ch, TagMap(Signer(c, pub, priv, fileId, file), slots, clock, targets), file);
  }
}
