/** What happens to tags that are not remade after maintenance, or are made before it. */
module Staleness {
  import opened Bytes
  import opened Curve
  import opened Encoding
  import opened Slots
  import opened Store
  import opened Runs
  import opened Requests
  import opened Audit
  import opened AuditTheorems
  import opened Agreement

  /** Two hash points of a file's blocks coincide. */
  predicate Collide(o: Owner, i: uint64, m: Metadata, i': uint64, m': Metadata) {
    HashToCurve(o.c, Preimage(o.fileId, i, m)) == HashToCurve(o.c, Preimage(o.fileId, i', m'))
  }

  // ── One carried tag ──

  /** `++version` always changes the version, also when it wraps. */
  lemma BumpChanges(m: Metadata)
    ensures Next(m.version) != m.version
  {
  }

  /** What an event does to one surviving block. */
  lemma SurvivorMoves(slots: FileSlots, n: nat, e: Event, q: uint64, p: uint64)
    requires n <= LAST && (forall k: uint64 :: k in slots <==> k < n)
    requires EventFits(n, e) && q < n && Onward(e, q) == Some(p)
    ensures p < LAST
    ensures Lookup(Apply(slots, e).slots, p) == Some(if Bumps(e, p) then Bumped(slots[q], e.now) else slots[q])
    ensures p == q && Lookup(Apply(slots, e).slots, p) == Some(slots[q]) <==> !Touches(e, q)
  {
    BumpChanges(slots[q]);
  }

  lemma OtherSignature(o: Owner, i: uint64, m: Metadata, i': uint64, m': Metadata, block: ByteString)
    ensures (Signature(o.c, o.pub.u, o.priv.a, o.fileId, i, m, block)
             == Signature(o.c, o.pub.u, o.priv.a, o.fileId, i', m', block))
         == (AtInfinity(o.c, o.priv.a) || Collide(o, i, m, i', m'))
    ensures Preimage(o.fileId, i, m) == Preimage(o.fileId, i', m') <==> i == i' && m == m'
  {
    StaleSignature(o.c, o.pub.u, o.priv.a, o.fileId, i, m, i', m', block);
    PreimageInjective(o.fileId, i, m, o.fileId, i', m');
  }

  /** A right tag carried along with its block to where an event leaves it is right there
      exactly when two hashes collide, and their preimages differ for every touched block. */
  lemma CarriedTag(o: Owner, slots: FileSlots, n: nat, e: Event, q: uint64, p: uint64, m: Metadata, block: ByteString)
    requires n <= LAST && (forall k: uint64 :: k in slots <==> k < n)
    requires EventFits(n, e) && q < n && Onward(e, q) == Some(p) && Lookup(Apply(slots, e).slots, p) == Some(m)
    ensures p < LAST
    ensures (Signature(o.c, o.pub.u, o.priv.a, o.fileId, q + 1, slots[q], block)
             == Signature(o.c, o.pub.u, o.priv.a, o.fileId, p + 1, m, block))
         == (AtInfinity(o.c, o.priv.a) || Collide(o, q + 1, slots[q], p + 1, m))
    ensures Preimage(o.fileId, q + 1, slots[q]) == Preimage(o.fileId, p + 1, m) <==> !Touches(e, q)
  {
    SurvivorMoves(slots, n, e, q, p);
    OtherSignature(o, q + 1, slots[q], p + 1, m, block);
  }

  // ── A whole audit over carried tags ──

  /** The state after an event whose tags moved along with their blocks: contents move too,
      and an inserted block has no tag or the right one. */
  ghost predicate Carried(o: Owner, s: State, e: Event, after: State) {
    && after.slots == Apply(s.slots, e).slots
    && |after.contents| == SizeAfter(|s.contents|, e)
    && (forall p: uint64 :: p < |after.contents| && Back(e, p).Some? ==>
          CarriedFrom(s, after, p, Back(e, p).value))
    && (forall p: uint64 :: p < |after.contents| && Back(e, p).None? && p in after.tags && p in after.slots ==>
          after.tags[p] == Signature(o.c, o.pub.u, o.priv.a, o.fileId, p + 1, after.slots[p], after.contents[p]))
  }

  ghost predicate CarriedFrom(s: State, after: State, p: uint64, q: nat) {
    p < |after.contents| && q < |s.contents| <= LAST && after.contents[p] == s.contents[q]
    && Lookup(after.tags, p) == Lookup(s.tags, q)
  }

  /** What the tag in slot p was made for. */
  ghost function MadeFor(s: State, e: Event, after: State): uint64 -> Origin
    requires |s.contents| <= LAST
  {
    (p: uint64) =>
      if Back(e, p).Some? && Back(e, p).value < |s.contents| && (Back(e, p).value as uint64) in s.slots then
        var q: uint64 := Back(e, p).value;
        Origin(q + 1, s.slots[q], s.contents[q])
      else if p < |after.contents| && p < LAST && p in after.slots then
        Origin(p + 1, after.slots[p], after.contents[p])
      else Origin(0, Metadata(0, 0), [])
  }

  /** The hash a tag was made for less the expected one, weighted; a skipped item has no
      such hash. */
  function HashGap(o: Owner, tags: Tags, made: uint64 -> Origin): ChallengeItem -> int {
    (item: ChallengeItem) =>
      item.nu * ((if Present(o.c, o.pub, tags, item) then OriginHash(o, made(SlotOf(item.blockIndex))) else 0)
                 - BlockHash(o.c, o.fileId, item))
  }

  function OriginHash(o: Owner, origin: Origin): G1 {
    HashToCurve(o.c, Preimage(o.fileId, origin.blockIndex, origin.metadata))
  }

  /** Tag and origin of one slot fit together. */
  ghost predicate Fitting(o: Owner, made: Origin, tag: Option<G1>, block: ByteString) {
    && made.block == block
    && (tag.Some? ==>
          tag.value == Signature(o.c, o.pub.u, o.priv.a, o.fileId, made.blockIndex, made.metadata, made.block))
  }

  lemma AgreeAt(o: Owner, s: State, q: uint64)
    requires Agree(o, s) && q < |s.contents|
    ensures q in s.slots && Fitting(o, Origin(q + 1, s.slots[q], s.contents[q]), Lookup(s.tags, q), s.contents[q])
  {
  }

  lemma MovedSlot(o: Owner, s: State, e: Event, after: State, p: uint64)
    requires Agree(o, s) && EventFits(|s.contents|, e) && Carried(o, s, e, after) && p < |after.contents|
    requires Back(e, p).Some?
    ensures var q := Back(e, p).value;
            && q < |s.contents| && (q as uint64) in s.slots
            && MadeFor(s, e, after)(p) == Origin(q + 1, s.slots[q], s.contents[q])
            && after.contents[p] == s.contents[q] && Lookup(after.tags, p) == Lookup(s.tags, q)
  {
    var q := Back(e, p).value;
    assert CarriedFrom(s, after, p, q);
    AgreeAt(o, s, q);
  }

  lemma InsertedSlot(o: Owner, s: State, e: Event, after: State, p: uint64)
    requires Agree(o, s) && Carried(o, s, e, after) && p < |after.contents| && p < LAST && p in after.slots
    requires Back(e, p).None?
    ensures Fitting(o, MadeFor(s, e, after)(p), Lookup(after.tags, p), after.contents[p])
  {
    assert MadeFor(s, e, after)(p) == Origin(p + 1, after.slots[p], after.contents[p]);
  }

  /** The tag of a challenged block is the signature of what it was made for, and the content
      it was made for is still the block's. */
  lemma CarriedSlot(o: Owner, s: State, e: Event, after: State, p: uint64)
    requires Agree(o, s) && EventFits(|s.contents|, e) && Carried(o, s, e, after)
    requires p < |after.contents| && p < LAST && p in after.slots
    ensures Fitting(o, MadeFor(s, e, after)(p), Lookup(after.tags, p), after.contents[p])
  {
    if Back(e, p).Some? {
      MovedSlot(o, s, e, after, p);
      AgreeAt(o, s, Back(e, p).value);
    } else {
      InsertedSlot(o, s, e, after, p);
    }
  }

  lemma HashDifference(nu: int, h: int, h': int, w: int, x: int, y: int)
    requires x == h + w && y == h' + w
    ensures nu * (x - y) == nu * (h - h')
  {
  }

  lemma GapOfItem(o: Owner, after: State, made: uint64 -> Origin, item: ChallengeItem)
    requires |after.contents| <= LAST && 1 <= item.blockIndex <= |after.contents|
    requires made(SlotOf(item.blockIndex)).block == after.contents[item.blockIndex - 1]
    ensures StaleTerm(o.c, o.pub, o.fileId, after.tags, Source(after.contents), made)(item)
         == HashGap(o, after.tags, made)(item)
  {
    var origin, blocks := made(SlotOf(item.blockIndex)), Source(after.contents);
    if Present(o.c, o.pub, after.tags, item) {
      SameContent(o, origin, item, blocks);
      HashDifference(item.nu, OriginHash(o, origin), BlockHash(o.c, o.fileId, item), SegmentSum(origin.block) * o.pub.u,
                     Commitment(o.c, o.pub.u, o.fileId, origin),
                     Commitment(o.c, o.pub.u, o.fileId, Expected(item, blocks)));
    } else {
      NegatedProduct(item.nu, BlockHash(o.c, o.fileId, item));
    }
  }

  lemma SameContent(o: Owner, origin: Origin, item: ChallengeItem, blocks: BlockSource)
    requires origin.block == Expected(item, blocks).block
    ensures Commitment(o.c, o.pub.u, o.fileId, origin) == OriginHash(o, origin) + SegmentSum(origin.block) * o.pub.u
    ensures Commitment(o.c, o.pub.u, o.fileId, Expected(item, blocks))
         == BlockHash(o.c, o.fileId, item) + SegmentSum(origin.block) * o.pub.u
  {
  }

  /** What CarriedAudit needs of one item. */
  ghost predicate ItemFits(o: Owner, after: State, made: uint64 -> Origin, gap: ChallengeItem -> int,
                           item: ChallengeItem)
    requires |after.contents| <= LAST
  {
    && (Present(o.c, o.pub, after.tags, item) ==>
          var origin := made(SlotOf(item.blockIndex));
          after.tags[SlotOf(item.blockIndex)]
            == Signature(o.c, o.pub.u, o.priv.a, o.fileId, origin.blockIndex, origin.metadata, origin.block))
    && StaleTerm(o.c, o.pub, o.fileId, after.tags, Source(after.contents), made)(item) == gap(item)
  }

  /** The audit accepts exactly when the weighted gaps cancel out or a secret factor vanishes. */
  ghost predicate DecidedBy(o: Owner, after: State, ch: Challenges, gap: ChallengeItem -> int)
    requires |after.contents| <= LAST
    requires Proof(o.c, o.pub, ch, after.tags, Source(after.contents)).Some?
  {
    Accepts(o.c, o.pub, o.fileId, ch, Proof(o.c, o.pub, ch, after.tags, Source(after.contents)).value)
    <==> (&& Checkable(o.c, o.pub, o.fileId, ch)
          && (AtInfinity(o.c, ch.r) || AtInfinity(o.c, o.pub.g) || AtInfinity(o.c, o.priv.a)
              || Sum(gap, ch.items) % o.c.n == 0))
  }

  lemma GapsDecide(o: Owner, after: State, made: uint64 -> Origin, gap: ChallengeItem -> int, ch: Challenges)
    requires |after.contents| <= LAST && KeyPair(o.c, o.pub, o.priv) && Blinded(o.c, o.pub, ch)
    requires forall j :: 0 <= j < |ch.items| ==> ItemFits(o, after, made, gap, ch.items[j])
    requires Proof(o.c, o.pub, ch, after.tags, Source(after.contents)).Some?
    ensures DecidedBy(o, after, ch, gap)
  {
    var stale := StaleTerm(o.c, o.pub, o.fileId, after.tags, Source(after.contents), made);
    forall j | 0 <= j < |ch.items| ensures stale(ch.items[j]) == gap(ch.items[j]) {
      assert ItemFits(o, after, made, gap, ch.items[j]);
    }
    SumSame(stale, gap, ch.items);
    forall j | 0 <= j < |ch.items| && Present(o.c, o.pub, after.tags, ch.items[j])
      ensures var origin := made(SlotOf(ch.items[j].blockIndex));
              after.tags[SlotOf(ch.items[j].blockIndex)]
                == Signature(o.c, o.pub.u, o.priv.a, o.fileId, origin.blockIndex, origin.metadata, origin.block)
    {
      assert ItemFits(o, after, made, gap, ch.items[j]);
    }
    StaleTags(o.c, o.pub, o.priv, o.fileId, ch, after.tags, Source(after.contents), made);
  }

  lemma {:induction false} SumSame(f: ChallengeItem -> int, g: ChallengeItem -> int, items: seq<ChallengeItem>)
    requires forall j :: 0 <= j < |items| ==> f(items[j]) == g(items[j])
    ensures Sum(f, items) == Sum(g, items)
  {
    if items == [] {
    } else {
      SumSame(f, g, items[..|items| - 1]);
    }
  }

  lemma FitsFromSlot(o: Owner, after: State, made: uint64 -> Origin, item: ChallengeItem)
    requires |after.contents| <= LAST && 1 <= item.blockIndex <= |after.contents|
    requires Fitting(o, made(SlotOf(item.blockIndex)), Lookup(after.tags, SlotOf(item.blockIndex)),
                     after.contents[item.blockIndex - 1])
    ensures ItemFits(o, after, made, HashGap(o, after.tags, made), item)
  {
    GapOfItem(o, after, made, item);
  }

  lemma CarriedItem(o: Owner, s: State, e: Event, after: State, item: ChallengeItem)
    requires Agree(o, s) && EventFits(|s.contents|, e) && Carried(o, s, e, after)
    requires |after.contents| <= LAST && 1 <= item.blockIndex <= |after.contents| && item.blockIndex - 1 in after.slots
    ensures ItemFits(o, after, MadeFor(s, e, after), HashGap(o, after.tags, MadeFor(s, e, after)), item)
  {
    CarriedSlot(o, s, e, after, item.blockIndex - 1);
    FitsFromSlot(o, after, MadeFor(s, e, after), item);
  }

  lemma CarriedItems(o: Owner, s: State, e: Event, after: State, items: seq<ChallengeItem>)
    requires Agree(o, s) && EventFits(|s.contents|, e) && Carried(o, s, e, after) && InRange(after, items)
    requires |after.contents| <= LAST
    ensures forall j :: 0 <= j < |items| ==>
              ItemFits(o, after, MadeFor(s, e, after), HashGap(o, after.tags, MadeFor(s, e, after)), items[j])
  {
    var made := MadeFor(s, e, after);
    forall j | 0 <= j < |items| ensures ItemFits(o, after, made, HashGap(o, after.tags, made), items[j]) {
      assert Lookup(after.slots, items[j].blockIndex - 1).Some?;
      CarriedItem(o, s, e, after, items[j]);
    }
  }

  /** A whole audit after an event whose tags were carried along: many may be stale at once,
      and it accepts exactly when the weighted gaps between the hashes they were made for and
      the expected hashes cancel out, or a secret factor vanishes. */
  lemma CarriedAudit(o: Owner, s: State, e: Event, after: State, ch: Challenges)
    requires Agree(o, s) && EventFits(|s.contents|, e) && Carried(o, s, e, after) && InRange(after, ch.items)
    requires |after.contents| <= LAST
    requires KeyPair(o.c, o.pub, o.priv) && Blinded(o.c, o.pub, ch)
    requires Proof(o.c, o.pub, ch, after.tags, Source(after.contents)).Some?
    ensures DecidedBy(o, after, ch, HashGap(o, after.tags, MadeFor(s, e, after)))
  {
    CarriedItems(o, s, e, after, ch.items);
    GapsDecide(o, after, MadeFor(s, e, after), HashGap(o, after.tags, MadeFor(s, e, after)), ch);
  }

  lemma NegatedProduct(nu: int, h: int)
    ensures -(nu * h) == nu * (0 - h)
  {
  }

  // ── Tags made before the maintenance ──

  lemma UpdatedSlot(slots: FileSlots, n: nat, indices: seq<uint64>, clock: nat -> uint64, t: nat)
    requires n <= LAST && (forall k: uint64 :: k in slots <==> k < n)
    requires Fits(n, Updates(indices, clock)) && t < |indices| < TWO64
    ensures 1 <= indices[t] <= n
    ensures var k: uint64 := indices[t] - 1;
            var updated := Run(slots, Updates(indices, clock)).slots;
            k in slots && k in updated && slots[k].version != updated[k].version
  {
    UpdatesFit(n, indices, clock, t);
    RunOnSlots(slots, n, Updates(indices, clock));
    UpdatedBlock(Listed(slots), indices, clock, indices[t] - 1);
    CountPositive(indices, t);
  }

  /** The order that the tag generator's documentation asks for: the caller makes the tag for
      the new content first, under the metadata the store still has, and then applies the
      update request. Each such tag is right afterwards exactly when two hashes collide, and
      their preimages differ: in that order every updated block ends with a stale tag. */
  lemma TaggingBeforeUpdate(o: Owner, slots: FileSlots, n: nat, indices: seq<uint64>, clock: nat -> uint64, t: nat,
                            block: ByteString)
    requires n <= LAST && (forall k: uint64 :: k in slots <==> k < n)
    requires Fits(n, Updates(indices, clock)) && t < |indices| < TWO64
    ensures 1 <= indices[t] <= n
    ensures var k: uint64 := indices[t] - 1;
            var updated := Run(slots, Updates(indices, clock)).slots;
            && k in slots && k in updated
            && ((Signature(o.c, o.pub.u, o.priv.a, o.fileId, k + 1, slots[k], block)
                 == Signature(o.c, o.pub.u, o.priv.a, o.fileId, k + 1, updated[k], block))
                == (AtInfinity(o.c, o.priv.a) || Collide(o, k + 1, slots[k], k + 1, updated[k])))
            && Preimage(o.fileId, k + 1, slots[k]) != Preimage(o.fileId, k + 1, updated[k])
  {
    UpdatedSlot(slots, n, indices, clock, t);
    var k: uint64 := indices[t] - 1;
    OtherSignature(o, k + 1, slots[k], k + 1, Run(slots, Updates(indices, clock)).slots[k], block);
  }
}
