/** What issued challenges guarantee, and what their raw checks do not. */
module ChallengeTheorems {
  import opened Bytes
  import opened Curve
  import opened Modular
  import opened Slots
  import opened Store
  import opened Audit
  import opened AuditTheorems
  import opened Sampling
  import opened ChallengeGen
  import opened Agreement

  /** A block of the range that the store does not know. */
  ghost predicate UnknownBlock(slots: FileSlots, blockCount: uint64) {
    exists x: uint64 :: 1 <= x <= blockCount && SlotOf(x) !in slots
  }

  function FirstSlots(n: nat): (s: set<uint64>)
    requires n <= TWO64
    ensures |s| == n && forall k: uint64 :: k in s <==> k < n
  {
    if n == 0 then {} else FirstSlots(n - 1) + {n - 1}
  }

  /** The store counts entries, not the largest index: with the store's own count every
      block of the range is known exactly when the file is dense. */
  lemma KnownExactlyWhenDense(slots: FileSlots)
    requires |slots| <= LAST
    ensures !UnknownBlock(slots, |slots|) <==> IsDense(slots)
  {
    var first := FirstSlots(|slots|);
    if !UnknownBlock(slots, |slots|) {
      forall k | k in first ensures k in slots.Keys {
        var x: uint64 := k + 1;
        assert SlotOf(x) in slots;
      }
      SubsetOfSameSize(first, slots.Keys);
    }
  }

  lemma SubsetOfSameSize(x: set<uint64>, y: set<uint64>)
    requires x <= y && |x| == |y|
    ensures x == y
  {
    assert y == x + (y - x);
    assert |y| == |x| + |y - x|;
  }

  lemma DenseKnowsItsBlocks(slots: FileSlots, blockCount: uint64)
    requires IsDense(slots)
    ensures !UnknownBlock(slots, blockCount) <==> blockCount <= |slots|
  {
    if blockCount > |slots| {
      var x: uint64 := |slots| + 1;
      assert 1 <= x <= blockCount && SlotOf(x) !in slots;
    }
  }

  /** An issued challenge names existing blocks under their current metadata. */
  lemma IssuedIsInRange(o: Owner, s: State, ch: Challenges)
    requires Agree(o, s) && WellFormed(o.c, o.pub, s.slots, ch)
    ensures InRange(s, ch.items)
  {
  }

  /** Tag generation, any run of maintenance, challenge generation, proof and verification
      together: the audit is accepted, barring points at infinity. */
  lemma IssuedAuditPasses(o: Owner, s: State, ch: Challenges)
    requires Agree(o, s) && WellFormed(o.c, o.pub, s.slots, ch)
    requires KeyPair(o.c, o.pub, o.priv) && o.fileId != [] && NoInfinity(o.c, o.pub, o.fileId, s.tags, ch)
    ensures var proof := Proof(o.c, o.pub, ch, s.tags, Source(s.contents));
            proof.Some? && Accepts(o.c, o.pub, o.fileId, ch, proof.value)
  {
    assert ch.items != [];
    IssuedIsInRange(o, s, ch);
    AgreementPassesAudit(o, s, ch);
  }

  // ── The raw non-zero check ──

  /** The loops reject all-zero bytes, not multiples of the group order: a drawn scalar acts
      as zero exactly when it is a positive multiple of n. */
  lemma DrawnScalarVanishes(c: Curve, b: ByteString)
    requires |b| == SCALAR_SIZE && Usable(b)
    ensures AtInfinity(c, LittleEndian(b)) <==> exists k: nat :: k > 0 && Multiple(k, c.n) == LittleEndian(b)
  {
    var x := LittleEndian(b);
    DivMod(x, c.n);
    if AtInfinity(c, x) {
      assert Multiple(x / c.n, c.n) == x;
    }
    if k: nat :| k > 0 && Multiple(k, c.n) == x {
      UniqueRemainder(x, k, 0, c.n);
    }
  }

  /** A block that goes unchecked: among honest tags one is wrong, and all other factors are
      non-zero. The audit accepts exactly when the coefficient drawn for that block is a
      positive multiple of the group order, which the raw check lets pass. */
  lemma UncheckedBlock(c: Curve, pub: PublicParams, priv: PrivateParams, fileId: ByteString, ch: Challenges,
                       tags: Tags, blocks: BlockSource, k: nat, b: ByteString)
    requires KeyPair(c, pub, priv) && Blinded(c, pub, ch) && k < |ch.items|
    requires AllPresent(c, pub, tags, ch.items) && Pairs(c, pub.u, ch.R) && Checkable(c, pub, fileId, ch)
    requires forall j :: 0 <= j < |ch.items| && j != k ==> Honest(c, pub, priv, fileId, tags, blocks, ch.items[j])
    requires var item := ch.items[k];
             tags[SlotOf(item.blockIndex)] % c.n
               != Signature(c, pub.u, priv.a, fileId, item.blockIndex, item.metadata,
                            blocks.block(SlotOf(item.blockIndex)))
    requires !AtInfinity(c, ch.r) && !AtInfinity(c, pub.g)
    requires |b| == SCALAR_SIZE && Usable(b) && ch.items[k].nu == LittleEndian(b)
    ensures var proof := Proof(c, pub, ch, tags, blocks);
            && proof.Some?
            && (Accepts(c, pub, fileId, ch, proof.value)
                <==> exists q: nat :: q > 0 && Multiple(q, c.n) == ch.items[k].nu)
  {
    SingleWrongTag(c, pub, priv, fileId, ch, tags, blocks, k);
    DrawnScalarVanishes(c, b);
  }

  function Multiple(k: int, n: int): int {
    k * n
  }

  /** The bytes of n itself pass the check of every retry loop. */
  lemma OrderPassesRawCheck(c: Curve)
    requires c.n < Pow256(SCALAR_SIZE)
    ensures var b := ToLittleEndian(c.n, SCALAR_SIZE);
            |b| == SCALAR_SIZE && Usable(b) && ScalarOf(b) == Some(c.n as nat) && AtInfinity(c, LittleEndian(b))
  {
    LittleEndianRoundTrip(c.n, SCALAR_SIZE);
    UniqueRemainder(c.n, 1, 0, c.n);
  }

  /** A single coefficient is safe, because the sum is checked modulo the order; among
      several the sum check rules out only that all of them vanish. */
  lemma SomeCoefficientCounts(c: Curve, pub: PublicParams, slots: FileSlots, ch: Challenges)
    requires WellFormed(c, pub, slots, ch)
    ensures exists i :: 0 <= i < |ch.items| && !AtInfinity(c, ch.items[i].nu)
  {
    if forall i :: 0 <= i < |ch.items| ==> AtInfinity(c, ch.items[i].nu) {
      forall i | 0 <= i < |ch.items| ensures NuTerm()(ch.items[i]) % c.n == 0 {
        assert AtInfinity(c, ch.items[i].nu);
      }
      SumDivisible(NuTerm(), ch.items, c.n);
    }
  }
}
