/** Challenge generation: sampled blocks, blinding, and the metadata of the store. */
module ChallengeGen {
  import opened Bytes
  import opened Indices
  import opened Curve
  import opened Slots
  import opened Store
  import opened Audit
  import opened Sampling

  datatype ChallengeRequest = ChallengeRequest(fileId: ByteString, blockCount: uint64, challengeCount: uint64)

  /** No result, an empty challenge set, an exception, or a challenge set. */
  datatype ChallengesResult =
    | NoChallenges
    | EmptyChallenges
    | RandomFailed
    | BlockUnknown
    | Issued(challenges: Challenges)

  /** An explicit block count, else the number of entries in the store. */
  function BlockCountOf(request: ChallengeRequest, slots: FileSlots): uint64 {
    if request.blockCount != 0 then request.blockCount else |slots| % TWO64
  }

  /** The requested number of blocks capped at the block count, or a drawn one. */
  function ItemCount(request: ChallengeRequest, blockCount: uint64, draw: Distribution): (k: uint64)
    requires blockCount > 0
    ensures 1 <= k <= blockCount
    ensures request.challengeCount >= blockCount ==> k == blockCount
    ensures 0 < request.challengeCount <= blockCount ==> k == request.challengeCount
    ensures request.challengeCount == 0 ==> k == draw(0, blockCount)
  {
    if request.challengeCount == 0 then draw(0, blockCount)
    else if request.challengeCount < blockCount then request.challengeCount
    else blockCount
  }

  /** Where the block sampling starts in the generator's stream. */
  function SamplingStart(request: ChallengeRequest): nat {
    if request.challengeCount == 0 then 1 else 0
  }

  /** The stream positions of the coefficients of an issued challenge. */
  ghost function NuPositions(c: Curve, bytes: Entropy, count: nat): (p: seq<nat>)
    requires FairSums(c, bytes, count)
    ensures |p| == count && forall i, j :: 0 <= i < j < |p| ==> p[i] < p[j]
  {
    Positions(bytes, SettledStart(c, bytes, 0, count), count)
  }

  /** The position of the blind: the first usable answer after the coefficients. No answer
      serves two scalars. */
  ghost function BlindPosition(c: Curve, bytes: Entropy, count: nat): (blind: nat)
    requires FairSums(c, bytes, count)
    ensures forall i :: 0 <= i < count ==> NuPositions(c, bytes, count)[i] < blind
  {
    NextUsable(bytes, EndOf(NuPositions(c, bytes, count), SettledStart(c, bytes, 0, count)))
  }

  /** The random source fails while coefficients or blind are drawn. */
  ghost predicate RandomFails(c: Curve, bytes: Entropy, count: nat)
    requires FairSums(c, bytes, count)
  {
    Fails(bytes, NuPositions(c, bytes, count)) || |bytes(BlindPosition(c, bytes, count))| != SCALAR_SIZE
  }

  /** What a challenge set owes to the streams: blocks are the distinct draws, coefficients
      and blind are the answers of the random source at their positions. */
  ghost predicate DrawnFrom(c: Curve, ch: Challenges, draw: Distribution, bytes: Entropy, start: nat, to: nat)
    requires FairSums(c, bytes, |ch.items|)
  {
    var positions := NuPositions(c, bytes, |ch.items|);
    && Blocks(ch.items) == DistinctDraws(draw, ch.blockCount, start, to)
    && (forall i :: 0 <= i < |positions| ==> ScalarIs(bytes(positions[i]), ch.items[i].nu))
    && ScalarIs(bytes(BlindPosition(c, bytes, |ch.items|)), ch.r)
  }

  predicate ScalarIs(b: ByteString, x: int) {
    |b| == SCALAR_SIZE && LittleEndian(b) == x
  }

  function Blocks(items: seq<ChallengeItem>): seq<uint64> {
    seq(|items|, i requires 0 <= i < |items| => items[i].blockIndex)
  }

  function NuTerm(): ChallengeItem -> int {
    (item: ChallengeItem) => item.nu
  }

  /** Distinct 1-based blocks in range, non-zero coefficients and blind as drawn, a non-zero
      sum modulo the order, the stored metadata, and the blinded commitment. */
  ghost predicate WellFormed(c: Curve, pub: PublicParams, slots: FileSlots, ch: Challenges) {
    && Distinct(Blocks(ch.items))
    && (forall i :: 0 <= i < |ch.items| ==>
          && 1 <= ch.items[i].blockIndex <= ch.blockCount && ch.items[i].nu > 0
          && Lookup(slots, ch.items[i].blockIndex - 1) == Some(ch.items[i].metadata))
    && Sum(NuTerm(), ch.items) % c.n != 0
    && ch.r > 0 && Blinded(c, pub, ch)
  }

  ghost predicate Fair(c: Curve, draw: Distribution, bytes: Entropy) {
    && (forall hi: uint64 :: FairDraws(draw, hi))
    && (forall count: nat :: count > 0 ==> FairSums(c, bytes, count))
  }

  // ── The code ──

  /** Copies the metadata of every picked block; throws at the first unknown one. */
  method BindMetadata(store: DynamicHashTableStateStore, fileId: ByteString, picked: seq<uint64>, nus: seq<nat>,
                      ghost view: Snapshot)
    returns (items: Option<seq<ChallengeItem>>)
    requires store.Valid() && store.View() == view && fileId in view && |picked| == |nus|
    ensures store.View() == view
    ensures items.None? <==> exists i :: 0 <= i < |picked| && SlotOf(picked[i]) !in view[fileId]
    ensures items.Some? ==> |items.value| == |picked|
    ensures items.Some? ==> forall i :: 0 <= i < |picked| ==>
              && items.value[i].blockIndex == picked[i] && items.value[i].nu == nus[i]
              && Lookup(view[fileId], SlotOf(picked[i])) == Some(items.value[i].metadata)
  {
    ghost var slots := view[fileId];
    var bound: seq<ChallengeItem> := [];
    for i := 0 to |picked|
      invariant |bound| == i
      invariant forall k :: 0 <= k < i ==>
                  && bound[k].blockIndex == picked[k] && bound[k].nu == nus[k]
                  && Lookup(slots, SlotOf(picked[k])) == Some(bound[k].metadata)
    {
      var found := store.GetBlockMetadata(fileId, picked[i]);
      if found.Missing? {
        assert SlotOf(picked[i]) !in slots;
        return None;
      }
      assert Lookup(slots, SlotOf(picked[i])) == Some(found.meta.Value());
      bound := bound + [ChallengeItem(picked[i], nus[i], found.meta.Value())];
    }
    forall i | 0 <= i < |picked| ensures SlotOf(picked[i]) in slots {
      assert Lookup(slots, SlotOf(picked[i])).Some?;
    }
    items := Some(bound);
  }

  lemma {:induction false} TotalIsSum(items: seq<ChallengeItem>, nus: seq<nat>)
    requires |items| == |nus| && forall i :: 0 <= i < |nus| ==> items[i].nu == nus[i]
    ensures Sum(NuTerm(), items) == Total(nus)
  {
    if nus == [] {
    } else {
      TotalIsSum(items[..|items| - 1], nus[..|nus| - 1]);
    }
  }

  lemma SettledScalars(c: Curve, bytes: Entropy, count: nat, nus: seq<nat>)
    requires FairSums(c, bytes, count) && !Fails(bytes, NuPositions(c, bytes, count))
    requires nus == ValuesAt(bytes, NuPositions(c, bytes, count))
    ensures |nus| == count
    ensures forall i :: 0 <= i < |nus| ==> nus[i] > 0 && ScalarIs(bytes(NuPositions(c, bytes, count)[i]), nus[i])
  {
    var positions := NuPositions(c, bytes, count);
    forall i | 0 <= i < |nus| ensures nus[i] > 0 && ScalarIs(bytes(positions[i]), nus[i]) {
      assert Usable(bytes(positions[i])) && |bytes(positions[i])| == SCALAR_SIZE;
    }
  }

  /** Draws blocks, coefficients and blind; no part of this looks at the store. */
  method Sample(c: Curve, request: ChallengeRequest, blockCount: uint64, draw: Distribution, bytes: Entropy)
    returns (picked: seq<uint64>, nus: seq<nat>, r: Option<nat>, ghost to: nat)
    requires blockCount > 0 && Fair(c, draw, bytes)
    ensures picked == DistinctDraws(draw, blockCount, SamplingStart(request), to)
    ensures |picked| == ItemCount(request, blockCount, draw)
    ensures Distinct(picked) && forall i :: 0 <= i < |picked| ==> 1 <= picked[i] <= blockCount
    ensures r.None? <==> RandomFails(c, bytes, |picked|)
    ensures r.Some? ==>
              && |nus| == |picked| && Total(nus) % c.n != 0 && r.value > 0
              && (forall i :: 0 <= i < |nus| ==>
                    nus[i] > 0 && ScalarIs(bytes(NuPositions(c, bytes, |picked|)[i]), nus[i]))
              && ScalarIs(bytes(BlindPosition(c, bytes, |picked|)), r.value)
  {
    var count := ItemCount(request, blockCount, draw);
    assert FairDraws(draw, blockCount);
    assert FairSums(c, bytes, count);
    picked, to := PickBlocks(draw, blockCount, SamplingStart(request), count);
    var values, next := DrawCoefficients(c, bytes, 0, |picked|);
    if values.None? {
      return picked, [], None, to;
    }
    nus := values.value;
    SettledScalars(c, bytes, |picked|, nus);
    r, next := DrawScalar(bytes, next);
  }

  ghost predicate SomeUnknown(slots: FileSlots, drawn: seq<uint64>) {
    exists i :: 0 <= i < |drawn| && SlotOf(drawn[i]) !in slots
  }

  lemma Assembled(c: Curve, pub: PublicParams, slots: FileSlots, draw: Distribution, bytes: Entropy,
                  start: nat, to: nat, picked: seq<uint64>, nus: seq<nat>, ch: Challenges)
    requires picked == DistinctDraws(draw, ch.blockCount, start, to) && FairSums(c, bytes, |ch.items|)
    requires Distinct(picked) && forall i :: 0 <= i < |picked| ==> 1 <= picked[i] <= ch.blockCount
    requires |nus| == |picked| == |ch.items| && Total(nus) % c.n != 0
    requires forall i :: 0 <= i < |nus| ==> nus[i] > 0 && ScalarIs(bytes(NuPositions(c, bytes, |picked|)[i]), nus[i])
    requires ScalarIs(bytes(BlindPosition(c, bytes, |picked|)), ch.r) && ch.r > 0 && Blinded(c, pub, ch)
    requires forall i :: 0 <= i < |picked| ==>
               && ch.items[i].blockIndex == picked[i] && ch.items[i].nu == nus[i]
               && Lookup(slots, SlotOf(picked[i])) == Some(ch.items[i].metadata)
    ensures WellFormed(c, pub, slots, ch) && DrawnFrom(c, ch, draw, bytes, start, to)
  {
    assert Blocks(ch.items) == picked;
    TotalIsSum(ch.items, nus);
  }

  /** What a request for a registered file with blocks ends with. An issued challenge is well
      formed and made of the streams' draws. The request fails exactly when the random source
      fails or, after that, when the store does not know one of the drawn blocks. */
  ghost predicate Outcome(c: Curve, pub: PublicParams, slots: FileSlots, request: ChallengeRequest, blockCount: uint64,
                          draw: Distribution, bytes: Entropy, result: ChallengesResult, to: nat)
    requires blockCount > 0 && Fair(c, draw, bytes)
  {
    var count := ItemCount(request, blockCount, draw);
    var drawn := DistinctDraws(draw, blockCount, SamplingStart(request), to);
    && |drawn| == count
    && !result.NoChallenges? && !result.EmptyChallenges?
    && (result.RandomFailed? <==> RandomFails(c, bytes, count))
    && (result.BlockUnknown? <==> !RandomFails(c, bytes, count) && SomeUnknown(slots, drawn))
    && (result.Issued? ==>
          && result.challenges.blockCount == blockCount && |result.challenges.items| == count
          && WellFormed(c, pub, slots, result.challenges)
          && DrawnFrom(c, result.challenges, draw, bytes, SamplingStart(request), to))
  }

  /** Everything after the guards. */
  method IssueChallenges(c: Curve, pub: PublicParams, store: DynamicHashTableStateStore, request: ChallengeRequest,
                         blockCount: uint64, draw: Distribution, bytes: Entropy, ghost view: Snapshot)
    returns (result: ChallengesResult, ghost to: nat)
    requires store.Valid() && store.View() == view && request.fileId in view && blockCount > 0 && Fair(c, draw, bytes)
    ensures store.View() == view
    ensures Outcome(c, pub, view[request.fileId], request, blockCount, draw, bytes, result, to)
  {
    var picked, nus, r;
    picked, nus, r, to := Sample(c, request, blockCount, draw, bytes);
    assert store.View() == view;
    if r.None? {
      return RandomFailed, to;
    }
    var R := Mul(c, r.value, pub.y);
    var items := BindMetadata(store, request.fileId, picked, nus, view);
    if items.None? {
      return BlockUnknown, to;
    }
    var ch := Challenges(R, r.value, items.value, blockCount);
    Assembled(c, pub, view[request.fileId], draw, bytes, SamplingStart(request), to, picked, nus, ch);
    result := Issued(ch);
  }

  /** An issued challenge in terms of the request, the store and the draws alone: the explicit
      block count goes before the number of entries; the item count is the requested one,
      capped, or else the first draw; the blocks are the draws that follow. */
  ghost predicate AsRequested(request: ChallengeRequest, slots: FileSlots, draw: Distribution, ch: Challenges,
                              to: nat)
  {
    && (request.blockCount != 0 ==> ch.blockCount == request.blockCount)
    && (request.blockCount == 0 && |slots| < TWO64 ==> ch.blockCount == |slots|)
    && (request.challengeCount == 0 ==> |ch.items| == draw(0, ch.blockCount))
    && (0 < request.challengeCount < ch.blockCount ==> |ch.items| == request.challengeCount)
    && (request.challengeCount >= ch.blockCount ==> |ch.items| == ch.blockCount)
    && (forall i, j :: 0 <= i < j < |ch.items| ==> ch.items[i].blockIndex != ch.items[j].blockIndex)
    && (forall j :: 0 <= j < |ch.items| ==>
          && 1 <= ch.items[j].blockIndex <= ch.blockCount && ch.items[j].blockIndex - 1 in slots
          && slots[ch.items[j].blockIndex - 1] == ch.items[j].metadata
          && exists t :: (if request.challengeCount == 0 then 1 else 0) <= t < to
                         && draw(t, ch.blockCount) == ch.items[j].blockIndex)
  }

  lemma BlockIsDrawn(ch: Challenges, draw: Distribution, start: nat, to: nat, j: nat)
    requires Blocks(ch.items) == DistinctDraws(draw, ch.blockCount, start, to) && j < |ch.items|
    ensures exists t :: start <= t < to && draw(t, ch.blockCount) == ch.items[j].blockIndex
  {
    assert Blocks(ch.items)[j] in DistinctDraws(draw, ch.blockCount, start, to);
    PickedAreDrawn(draw, ch.blockCount, start, to, ch.items[j].blockIndex);
  }

  lemma WellFormedItems(c: Curve, pub: PublicParams, slots: FileSlots, ch: Challenges)
    requires WellFormed(c, pub, slots, ch)
    ensures forall i, j :: 0 <= i < j < |ch.items| ==> ch.items[i].blockIndex != ch.items[j].blockIndex
    ensures forall j :: 0 <= j < |ch.items| ==>
              && 1 <= ch.items[j].blockIndex <= ch.blockCount && ch.items[j].blockIndex - 1 in slots
              && slots[ch.items[j].blockIndex - 1] == ch.items[j].metadata
  {
    forall i, j | 0 <= i < j < |ch.items| ensures ch.items[i].blockIndex != ch.items[j].blockIndex {
      assert Blocks(ch.items)[i] != Blocks(ch.items)[j];
    }
    forall j | 0 <= j < |ch.items|
      ensures ch.items[j].blockIndex - 1 in slots && slots[ch.items[j].blockIndex - 1] == ch.items[j].metadata
    {
      assert Lookup(slots, ch.items[j].blockIndex - 1) == Some(ch.items[j].metadata);
    }
  }

  lemma OutcomeAsRequested(c: Curve, pub: PublicParams, slots: FileSlots, request: ChallengeRequest, draw: Distribution,
                           bytes: Entropy, result: ChallengesResult, to: nat)
    requires BlockCountOf(request, slots) > 0 && Fair(c, draw, bytes)
    requires Outcome(c, pub, slots, request, BlockCountOf(request, slots), draw, bytes, result, to)
    ensures result.Issued? ==> AsRequested(request, slots, draw, result.challenges, to)
  {
    if result.Issued? {
      WellFormedItems(c, pub, slots, result.challenges);
      forall j | 0 <= j < |result.challenges.items|
        ensures exists t :: SamplingStart(request) <= t < to
                            && draw(t, result.challenges.blockCount) == result.challenges.items[j].blockIndex
      {
        BlockIsDrawn(result.challenges, draw, SamplingStart(request), to, j);
      }
    }
  }

  method GenerateChallenges(c: Curve, pub: PublicParams, store: DynamicHashTableStateStore, request: ChallengeRequest,
                            draw: Distribution, bytes: Entropy)
    returns (result: ChallengesResult, ghost to: nat)
    requires store.Valid() && Fair(c, draw, bytes)
    ensures result.NoChallenges? <==> request.fileId == []
    ensures result.EmptyChallenges? <==>
              && request.fileId != []
              && (request.fileId !in store.View() || BlockCountOf(request, store.View()[request.fileId]) == 0)
    ensures request.fileId != [] && request.fileId in store.View() ==>
              var slots := store.View()[request.fileId];
              var blockCount := BlockCountOf(request, slots);
              blockCount > 0 ==> Outcome(c, pub, slots, request, blockCount, draw, bytes, result, to)
    ensures result.Issued? ==> request.fileId in store.View() && BlockCountOf(request, store.View()[request.fileId]) > 0
    ensures request.fileId != [] && request.fileId in store.View() && |store.View()[request.fileId]| < TWO64 ==>
              (result.EmptyChallenges? <==> request.blockCount == 0 && |store.View()[request.fileId]| == 0)
    ensures result.Issued? ==>
              AsRequested(request, store.View()[request.fileId], draw, result.challenges, to)
  {
    to := 0;
    if request.fileId == [] {
      return NoChallenges, to;
    }
    if !store.HasFile(request.fileId) {
      return EmptyChallenges, to;
    }
    ghost var view := store.View();
    var blockCount := ResolveBlockCount(store, request, view);
    if blockCount == 0 {
      return EmptyChallenges, to;
    }
    result, to := IssueChallenges(c, pub, store, request, blockCount, draw, bytes, view);
    OutcomeAsRequested(c, pub, view[request.fileId], request, draw, bytes, result, to);
  }

  method ResolveBlockCount(store: DynamicHashTableStateStore, request: ChallengeRequest, ghost view: Snapshot)
    returns (blockCount: uint64)
    requires store.Valid() && store.View() == view && request.fileId in view
    ensures store.View() == view
    ensures blockCount == BlockCountOf(request, view[request.fileId])
  {
    EntriesCount(store, request.fileId);
    var out, stored := store.GetBlockCount(request.fileId);
    assert store.View() == view;
    blockCount := if request.blockCount != 0 then request.blockCount else stored % TWO64;
  }

  lemma EntriesCount(store: DynamicHashTableStateStore, fileId: ByteString)
    requires store.Valid() && fileId in store.files
    ensures |store.View()[fileId]| == |store.files[fileId].entries|
  {
    var entries := store.files[fileId].entries;
    assert ValuesOf(entries).Keys == entries.Keys;
  }
}
