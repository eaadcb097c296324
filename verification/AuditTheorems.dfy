/** When an audit accepts: exact conditions for arbitrary tags, blocks and challenges. */
module AuditTheorems {
  import opened Bytes
  import opened Curve
  import opened Encoding
  import opened Modular
  import opened Slots
  import opened Audit

  /** The exponent an honest signature of a block has before reduction. */
  function Signed(c: Curve, u: G1, a: int, h: G1, block: ByteString): int {
    a * (h + SegmentSum(block) * u)
  }

  /** The signature of (index, metadata, content) under a file identifier. */
  function Signature(c: Curve, u: G1, a: int, fileId: ByteString, blockIndex: uint64, m: Metadata, block: ByteString)
    : G1
  {
    Signed(c, u, a, HashToCurve(c, Preimage(fileId, blockIndex, m)), block) % c.n
  }

  /** The stored tag is the signature of the challenged index, metadata and content. */
  predicate Honest(c: Curve, pub: PublicParams, priv: PrivateParams, fileId: ByteString, tags: Tags,
                   blocks: BlockSource, item: ChallengeItem)
  {
    && item.blockIndex != 0
    && SlotOf(item.blockIndex) in tags
    && tags[SlotOf(item.blockIndex)] == Signature(c, pub.u, priv.a, fileId, item.blockIndex, item.metadata,
                                                  blocks.block(SlotOf(item.blockIndex)))
  }

  /** How far an item is from an honest contribution: the error of its tag, or for a
      skipped item the hash that only the verifier adds. */
  function ErrorTerm(c: Curve, pub: PublicParams, priv: PrivateParams, fileId: ByteString, tags: Tags,
                     blocks: BlockSource): ChallengeItem -> int
  {
    (item: ChallengeItem) =>
      if Present(c, pub, tags, item) then
        item.nu * (tags[SlotOf(item.blockIndex)]
                   - Signed(c, pub.u, priv.a, BlockHash(c, fileId, item), blocks.block(SlotOf(item.blockIndex))))
      else -priv.a * (item.nu * BlockHash(c, fileId, item))
  }

  lemma ItemError(c: Curve, pub: PublicParams, priv: PrivateParams, fileId: ByteString, tags: Tags,
                  blocks: BlockSource, item: ChallengeItem)
    ensures SigmaTerm(c, pub, tags)(item)
         == priv.a * (pub.u * BlockTerm(c, pub, tags, blocks)(item) + HashTerm(c, fileId)(item))
          + ErrorTerm(c, pub, priv, fileId, tags, blocks)(item)
  {
    if Present(c, pub, tags, item) {
      var nu, h, m := item.nu, BlockHash(c, fileId, item), SegmentSum(blocks.block(SlotOf(item.blockIndex)));
      Distribute(nu, tags[SlotOf(item.blockIndex)], priv.a, h, m, pub.u);
    }
  }

  lemma Distribute(nu: int, sigma: int, a: int, h: int, m: int, u: int)
    ensures nu * sigma == a * (u * (nu * m) + nu * h) + nu * (sigma - a * (h + m * u))
  {
    assert nu * (sigma - a * (h + m * u)) == nu * sigma - nu * (a * (h + m * u));
    assert nu * (a * (h + m * u)) == a * (nu * (h + m * u));
    assert nu * (h + m * u) == nu * h + u * (nu * m) by {
      assert nu * (h + m * u) == nu * h + nu * (m * u);
      assert nu * (m * u) == u * (nu * m);
    }
  }

  /** The prover's sums, the verifier's sum and the errors balance over any challenge set. */
  lemma {:induction false} SumsBalance(c: Curve, pub: PublicParams, priv: PrivateParams, fileId: ByteString,
                                       tags: Tags, blocks: BlockSource, items: seq<ChallengeItem>)
    ensures Sum(SigmaTerm(c, pub, tags), items)
         == priv.a * (pub.u * Sum(BlockTerm(c, pub, tags, blocks), items) + Sum(HashTerm(c, fileId), items))
          + Sum(ErrorTerm(c, pub, priv, fileId, tags, blocks), items)
  {
    if items == [] {
    } else {
      var k := |items| - 1;
      SumsBalance(c, pub, priv, fileId, tags, blocks, items[..k]);
      ItemError(c, pub, priv, fileId, tags, blocks, items[k]);
      BalanceStep(priv.a, pub.u,
                  Sum(SigmaTerm(c, pub, tags), items[..k]), SigmaTerm(c, pub, tags)(items[k]),
                  Sum(BlockTerm(c, pub, tags, blocks), items[..k]), BlockTerm(c, pub, tags, blocks)(items[k]),
                  Sum(HashTerm(c, fileId), items[..k]), HashTerm(c, fileId)(items[k]),
                  Sum(ErrorTerm(c, pub, priv, fileId, tags, blocks), items[..k]),
                  ErrorTerm(c, pub, priv, fileId, tags, blocks)(items[k]));
    }
  }

  lemma BalanceStep(a: int, u: int, x: int, x': int, m: int, m': int, h: int, h': int, e: int, e': int)
    requires x == a * (u * m + h) + e && x' == a * (u * m' + h') + e'
    ensures x + x' == a * (u * (m + m') + (h + h')) + (e + e')
  {
    Regroup(a, u, m, m', h, h');
  }

  lemma Regroup(a: int, u: int, x: int, y: int, s: int, t: int)
    ensures a * (u * (x + y) + (s + t)) == a * (u * x + s) + a * (u * y + t)
  {
    assert u * (x + y) + (s + t) == (u * x + s) + (u * y + t);
  }

  lemma EquationAlgebra(a: int, g: int, r: int, u: int, sigma: int, m: int, h: int, error: int)
    requires sigma == a * (u * m + h) + error
    ensures g * sigma * r - u * (r * (a * g)) * m - h * (r * (a * g)) == r * g * error
  {
    assert g * sigma * r == r * g * (a * (u * m + h)) + r * g * error;
    assert r * g * (a * (u * m + h)) == (r * (a * g)) * (u * m + h);
    assert (r * (a * g)) * (u * m + h) == u * (r * (a * g)) * m + h * (r * (a * g));
  }

  /** The verification equation is r·g times the total error, modulo n. */
  lemma EquationIsError(n: int, a: int, g: int, r: int, u: int, y: int, R: int, sigma: int, m: int, h: int, error: int)
    requires n > 0 && y == a * g % n && R == r * y % n
    requires sigma == a * (u * m + h) + error
    ensures (g * sigma % n * r - u * R * m % n - h % n * R) % n == r * g * error % n
  {
    var S := r * (a * g);
    assert R % n == S % n by {
      Reduced(a * g, n);
      MulResidues(r, y, r, a * g, n);
      Reduced(r * y, n);
    }
    Reduced(g * sigma, n);
    MulResidues(g * sigma % n, r, g * sigma, r, n);
    MulResidues(u, R, u, S, n);
    MulResidues(u * R, m, u * S, m, n);
    Reduced(u * R * m, n);
    Reduced(h, n);
    MulResidues(h % n, R, h, S, n);
    SubResidues(g * sigma % n * r, u * R * m % n, g * sigma * r, u * S * m, n);
    SubResidues(g * sigma % n * r - u * R * m % n, h % n * R, g * sigma * r - u * S * m, h * S, n);
    EquationAlgebra(a, g, r, u, sigma, m, h, error);
  }

  /** Exact acceptance, for arbitrary tags, content and items: the proof of the prover is
      accepted exactly when a blinding factor vanishes or the total error does. */
  lemma ExactAcceptance(c: Curve, pub: PublicParams, priv: PrivateParams, fileId: ByteString, ch: Challenges,
                        tags: Tags, blocks: BlockSource)
    requires KeyPair(c, pub, priv) && Blinded(c, pub, ch)
    requires Proof(c, pub, ch, tags, blocks).Some?
    ensures Accepts(c, pub, fileId, ch, Proof(c, pub, ch, tags, blocks).value)
       <==> && Checkable(c, pub, fileId, ch)
            && (AtInfinity(c, ch.r) || AtInfinity(c, pub.g)
                || Sum(ErrorTerm(c, pub, priv, fileId, tags, blocks), ch.items) % c.n == 0)
  {
    var sigma := Sum(SigmaTerm(c, pub, tags), ch.items);
    var m := Sum(BlockTerm(c, pub, tags, blocks), ch.items);
    var h := Sum(HashTerm(c, fileId), ch.items);
    var error := Sum(ErrorTerm(c, pub, priv, fileId, tags, blocks), ch.items);
    SumsBalance(c, pub, priv, fileId, tags, blocks, ch.items);
    EquationIsError(c.n, priv.a, pub.g, ch.r, pub.u, pub.y, ch.R, sigma, m, h, error);
    NoZeroDivisors(ch.r * pub.g, error, c.n);
    NoZeroDivisors(ch.r, pub.g, c.n);
  }

  lemma HonestItemHasNoError(c: Curve, pub: PublicParams, priv: PrivateParams, fileId: ByteString, tags: Tags,
                             blocks: BlockSource, item: ChallengeItem)
    requires Present(c, pub, tags, item) && Honest(c, pub, priv, fileId, tags, blocks, item)
    ensures ErrorTerm(c, pub, priv, fileId, tags, blocks)(item) % c.n == 0
  {
    var s := Signed(c, pub.u, priv.a, BlockHash(c, fileId, item), blocks.block(SlotOf(item.blockIndex)));
    Reduced(s, c.n);
    SameResidue(s % c.n, s, c.n);
    ZeroTimes(s % c.n - s, item.nu, c.n);
    assert item.nu * (s % c.n - s) == (s % c.n - s) * item.nu;
  }

  /** The hashes that only the verifier adds, because the prover skipped the item. */
  function MissingHashTerm(c: Curve, pub: PublicParams, fileId: ByteString, tags: Tags): ChallengeItem -> int {
    (item: ChallengeItem) => if Present(c, pub, tags, item) then 0 else item.nu * BlockHash(c, fileId, item)
  }

  lemma {:induction false} SumsCongruent(f: ChallengeItem -> int, k: int, g: ChallengeItem -> int,
                                         items: seq<ChallengeItem>, n: int)
    requires n > 0
    requires forall j :: 0 <= j < |items| ==> f(items[j]) % n == k * g(items[j]) % n
    ensures Sum(f, items) % n == k * Sum(g, items) % n
  {
    if items == [] {
    } else {
      var j := |items| - 1;
      SumsCongruent(f, k, g, items[..j], n);
      CongruentStep(Sum(f, items[..j]), f(items[j]), Sum(g, items[..j]), g(items[j]), k, n);
    }
  }

  lemma CongruentStep(s: int, x: int, t: int, y: int, k: int, n: int)
    requires n > 0 && s % n == k * t % n && x % n == k * y % n
    ensures (s + x) % n == k * (t + y) % n
  {
    AddResidues(s, x, k * t, k * y, n);
    Distributes(k, t, y);
  }

  lemma Distributes(k: int, x: int, y: int)
    ensures k * (x + y) == k * x + k * y
  {
  }

  lemma SkippedItemError(c: Curve, pub: PublicParams, priv: PrivateParams, fileId: ByteString, tags: Tags,
                         blocks: BlockSource, item: ChallengeItem)
    requires Present(c, pub, tags, item) ==> Honest(c, pub, priv, fileId, tags, blocks, item)
    ensures ErrorTerm(c, pub, priv, fileId, tags, blocks)(item) % c.n
         == -priv.a * MissingHashTerm(c, pub, fileId, tags)(item) % c.n
  {
    if Present(c, pub, tags, item) {
      HonestItemHasNoError(c, pub, priv, fileId, tags, blocks, item);
    }
  }

  lemma NegatedFactor(a: int, x: int, n: int)
    requires Prime(n)
    ensures -a * x % n == 0 <==> a % n == 0 || x % n == 0
  {
    NoZeroDivisors(-a, x, n);
    NegatedResidue(a, n);
  }

  /** Skipped items: when every tag the prover uses is honest, the full challenge is
      accepted exactly when the weighted hashes of the skipped items cancel out (or one of
      the secret factors vanishes). */
  lemma SkippedItems(c: Curve, pub: PublicParams, priv: PrivateParams, fileId: ByteString, ch: Challenges,
                     tags: Tags, blocks: BlockSource)
    requires KeyPair(c, pub, priv) && Blinded(c, pub, ch)
    requires Proof(c, pub, ch, tags, blocks).Some?
    requires forall j :: 0 <= j < |ch.items| && Present(c, pub, tags, ch.items[j])
               ==> Honest(c, pub, priv, fileId, tags, blocks, ch.items[j])
    ensures Accepts(c, pub, fileId, ch, Proof(c, pub, ch, tags, blocks).value)
       <==> && Checkable(c, pub, fileId, ch)
            && (AtInfinity(c, ch.r) || AtInfinity(c, pub.g) || AtInfinity(c, priv.a)
                || Sum(MissingHashTerm(c, pub, fileId, tags), ch.items) % c.n == 0)
  {
    var errors := ErrorTerm(c, pub, priv, fileId, tags, blocks);
    var missing := MissingHashTerm(c, pub, fileId, tags);
    forall j | 0 <= j < |ch.items|
      ensures errors(ch.items[j]) % c.n == -priv.a * missing(ch.items[j]) % c.n
    {
      SkippedItemError(c, pub, priv, fileId, tags, blocks, ch.items[j]);
    }
    SumsCongruent(errors, -priv.a, missing, ch.items, c.n);
    ExactAcceptance(c, pub, priv, fileId, ch, tags, blocks);
    NegatedFactor(priv.a, Sum(missing, ch.items), c.n);
  }

  lemma NegatedResidue(x: int, n: int)
    requires n > 0
    ensures -x % n == 0 <==> x % n == 0
  {
    SameResidue(0, x, n);
    SameResidue(x, 0, n);
  }

  predicate AllPresent(c: Curve, pub: PublicParams, tags: Tags, items: seq<ChallengeItem>) {
    forall j :: 0 <= j < |items| ==> Present(c, pub, tags, items[j])
  }

  predicate AllHonest(c: Curve, pub: PublicParams, priv: PrivateParams, fileId: ByteString, tags: Tags,
                      blocks: BlockSource, items: seq<ChallengeItem>)
  {
    forall j :: 0 <= j < |items| ==> Honest(c, pub, priv, fileId, tags, blocks, items[j])
  }

  /** Completeness: an honest audit whose signatures are finite points is accepted, for any
      number of items. What is left are the guards that do not look at the proof. */
  lemma Completeness(c: Curve, pub: PublicParams, priv: PrivateParams, fileId: ByteString, ch: Challenges,
                     tags: Tags, blocks: BlockSource)
    requires KeyPair(c, pub, priv) && Blinded(c, pub, ch) && ch.items != []
    requires AllPresent(c, pub, tags, ch.items)
    requires AllHonest(c, pub, priv, fileId, tags, blocks, ch.items)
    ensures Proof(c, pub, ch, tags, blocks).Some? <==> Pairs(c, pub.u, ch.R)
    ensures Pairs(c, pub.u, ch.R) ==>
              (Accepts(c, pub, fileId, ch, Proof(c, pub, ch, tags, blocks).value) <==> Checkable(c, pub, fileId, ch))
  {
    assert Present(c, pub, tags, ch.items[0]);
    if Pairs(c, pub.u, ch.R) {
      var errors := ErrorTerm(c, pub, priv, fileId, tags, blocks);
      forall j | 0 <= j < |ch.items| ensures errors(ch.items[j]) % c.n == 0 {
        HonestItemHasNoError(c, pub, priv, fileId, tags, blocks, ch.items[j]);
      }
      SumDivisible(errors, ch.items, c.n);
      ExactAcceptance(c, pub, priv, fileId, ch, tags, blocks);
    }
  }

  /** No point of an audit is at infinity: the public key, the challenged tags, and where the
      pairing refuses infinity also g, u, R and the hash point. */
  ghost predicate NoInfinity(c: Curve, pub: PublicParams, fileId: ByteString, tags: Tags, ch: Challenges) {
    && pub.pk % c.n != 0
    && (forall j :: 0 <= j < |ch.items| && ch.items[j].blockIndex - 1 in tags ==>
          tags[ch.items[j].blockIndex - 1] % c.n != 0)
    && (c.strict ==>
          && pub.g % c.n != 0 && pub.u % c.n != 0 && ch.R % c.n != 0
          && Sum(HashTerm(c, fileId), ch.items) % c.n != 0)
  }

  /** Then nothing is skipped and no guard refuses. */
  lemma NothingRefused(c: Curve, pub: PublicParams, fileId: ByteString, tags: Tags, ch: Challenges)
    requires NoInfinity(c, pub, fileId, tags, ch) && fileId != [] && ch.items != []
    requires forall j :: 0 <= j < |ch.items| ==> ch.items[j].blockIndex >= 1 && ch.items[j].blockIndex - 1 in tags
    ensures AllPresent(c, pub, tags, ch.items) && Pairs(c, pub.u, ch.R) && Checkable(c, pub, fileId, ch)
  {
    Reduced(Sum(HashTerm(c, fileId), ch.items), c.n);
  }

  /** The same without any notion of skipped items: every item names a block from 1 on whose
      tag is there, finite and the signature of index, metadata and content; the public key is
      finite, and where the pairing refuses infinity so are g, u, R and the hash point. Then
      the proof exists and is accepted. */
  lemma HonestAuditPasses(c: Curve, pub: PublicParams, priv: PrivateParams, fileId: ByteString, ch: Challenges,
                          tags: Tags, blocks: BlockSource)
    requires pub.y == priv.a * pub.g % c.n && ch.R == ch.r * pub.y % c.n
    requires fileId != [] && ch.items != [] && pub.pk % c.n != 0
    requires forall j :: 0 <= j < |ch.items| ==>
               && ch.items[j].blockIndex >= 1 && ch.items[j].blockIndex - 1 in tags
               && tags[ch.items[j].blockIndex - 1] % c.n != 0
               && tags[ch.items[j].blockIndex - 1]
                  == Signature(c, pub.u, priv.a, fileId, ch.items[j].blockIndex, ch.items[j].metadata,
                               blocks.block(ch.items[j].blockIndex - 1))
    requires c.strict ==>
               && pub.g % c.n != 0 && pub.u % c.n != 0 && ch.R % c.n != 0
               && Sum(HashTerm(c, fileId), ch.items) % c.n != 0
    ensures var proof := Proof(c, pub, ch, tags, blocks);
            proof.Some? && Accepts(c, pub, fileId, ch, proof.value)
  {
    NothingRefused(c, pub, fileId, tags, ch);
    Completeness(c, pub, priv, fileId, ch, tags, blocks);
  }

  /** One wrong tag among honest ones: rejected unless its error or its weight vanishes. */
  lemma SingleWrongTag(c: Curve, pub: PublicParams, priv: PrivateParams, fileId: ByteString, ch: Challenges,
                       tags: Tags, blocks: BlockSource, k: nat)
    requires KeyPair(c, pub, priv) && Blinded(c, pub, ch) && k < |ch.items|
    requires AllPresent(c, pub, tags, ch.items)
    requires forall j :: 0 <= j < |ch.items| && j != k ==> Honest(c, pub, priv, fileId, tags, blocks, ch.items[j])
    requires Pairs(c, pub.u, ch.R)
    ensures var item := ch.items[k];
            var honest := Signature(c, pub.u, priv.a, fileId, item.blockIndex, item.metadata,
                                    blocks.block(SlotOf(item.blockIndex)));
            Proof(c, pub, ch, tags, blocks).Some?
            && (Accepts(c, pub, fileId, ch, Proof(c, pub, ch, tags, blocks).value)
                <==> && Checkable(c, pub, fileId, ch)
                     && (AtInfinity(c, ch.r) || AtInfinity(c, pub.g) || AtInfinity(c, item.nu)
                         || tags[SlotOf(item.blockIndex)] % c.n == honest))
  {
    var item := ch.items[k];
    var tag := tags[SlotOf(item.blockIndex)];
    var s := Signed(c, pub.u, priv.a, BlockHash(c, fileId, item), blocks.block(SlotOf(item.blockIndex)));
    var errors := ErrorTerm(c, pub, priv, fileId, tags, blocks);
    forall j | 0 <= j < |ch.items| && j != k ensures errors(ch.items[j]) % c.n == 0 {
      HonestItemHasNoError(c, pub, priv, fileId, tags, blocks, ch.items[j]);
    }
    SumSingle(errors, ch.items, k, c.n);
    ExactAcceptance(c, pub, priv, fileId, ch, tags, blocks);
    assert errors(item) == item.nu * (tag - s);
    NoZeroDivisors(item.nu, tag - s, c.n);
    SameResidue(tag, s, c.n);
  }

  /** Altered content: all tags sign the original file, and one challenged block now has
      other content. The audit notices exactly when the segment sums differ modulo n. */
  lemma AlteredContent(c: Curve, pub: PublicParams, priv: PrivateParams, fileId: ByteString, ch: Challenges,
                       tags: Tags, original: BlockSource, altered: BlockSource, k: nat)
    requires KeyPair(c, pub, priv) && Blinded(c, pub, ch) && k < |ch.items|
    requires AllPresent(c, pub, tags, ch.items) && Pairs(c, pub.u, ch.R)
    requires AllHonest(c, pub, priv, fileId, tags, original, ch.items)
    requires forall j :: 0 <= j < |ch.items| && j != k ==>
               original.block(SlotOf(ch.items[j].blockIndex)) == altered.block(SlotOf(ch.items[j].blockIndex))
    ensures var slot := SlotOf(ch.items[k].blockIndex);
            Proof(c, pub, ch, tags, altered).Some?
            && (Accepts(c, pub, fileId, ch, Proof(c, pub, ch, tags, altered).value)
                <==> && Checkable(c, pub, fileId, ch)
                     && (AtInfinity(c, ch.r) || AtInfinity(c, pub.g) || AtInfinity(c, ch.items[k].nu)
                         || AtInfinity(c, priv.a) || AtInfinity(c, pub.u)
                         || SegmentSum(original.block(slot)) % c.n == SegmentSum(altered.block(slot)) % c.n))
  {
    var slot := SlotOf(ch.items[k].blockIndex);
    var h := BlockHash(c, fileId, ch.items[k]);
    forall j | 0 <= j < |ch.items| && j != k
      ensures Honest(c, pub, priv, fileId, tags, altered, ch.items[j])
    {
      assert Honest(c, pub, priv, fileId, tags, original, ch.items[j]);
    }
    assert Honest(c, pub, priv, fileId, tags, original, ch.items[k]);
    SingleWrongTag(c, pub, priv, fileId, ch, tags, altered, k);
    SameHashSignature(c, pub.u, priv.a, h, original.block(slot), altered.block(slot));
  }

  lemma SameHashSignature(c: Curve, u: G1, a: int, h: G1, block: ByteString, block': ByteString)
    ensures Signed(c, u, a, h, block) % c.n % c.n == Signed(c, u, a, h, block') % c.n
       <==> AtInfinity(c, a) || AtInfinity(c, u) || SegmentSum(block) % c.n == SegmentSum(block') % c.n
  {
    Reduced(Signed(c, u, a, h, block), c.n);
    CancelFactor(a, h + SegmentSum(block) * u, h + SegmentSum(block') * u, c.n);
    CancelHash(h, SegmentSum(block), SegmentSum(block'), u, c.n);
  }

  lemma CancelFactor(a: int, x: int, y: int, n: int)
    requires Prime(n)
    ensures a * x % n == a * y % n <==> a % n == 0 || x % n == y % n
  {
    SameResidue(a * x, a * y, n);
    NoZeroDivisors(a, x - y, n);
    SameResidue(x, y, n);
    assert a * (x - y) == a * x - a * y;
  }

  lemma CancelHash(h: int, m: int, m': int, u: int, n: int)
    requires Prime(n)
    ensures (h + m * u) % n == (h + m' * u) % n <==> u % n == 0 || m % n == m' % n
  {
    SameResidue(h + m * u, h + m' * u, n);
    SameResidue(u * m, u * m', n);
    CancelFactor(u, m, m', n);
    assert h + m * u - (h + m' * u) == u * m - u * m';
  }

  /** A stale tag: signed for the same block under older metadata or an older position.
      It passes for the current one exactly when the two block hashes are equal. */
  lemma StaleSignature(c: Curve, u: G1, a: int, fileId: ByteString, i: uint64, m: Metadata,
                       i': uint64, m': Metadata, block: ByteString)
    ensures Signature(c, u, a, fileId, i, m, block) == Signature(c, u, a, fileId, i', m', block)
       <==> AtInfinity(c, a)
            || HashToCurve(c, Preimage(fileId, i, m)) == HashToCurve(c, Preimage(fileId, i', m'))
    ensures Preimage(fileId, i, m) == Preimage(fileId, i', m') <==> i == i' && m == m'
  {
    var h, h' := HashToCurve(c, Preimage(fileId, i, m)), HashToCurve(c, Preimage(fileId, i', m'));
    var w := SegmentSum(block) * u;
    CancelFactor(a, h + w, h' + w, c.n);
    SameResidue(h + w, h' + w, c.n);
    SameResidue(h, h', c.n);
    Reduced(c.hash(Preimage(fileId, i, m)), c.n);
    Reduced(c.hash(Preimage(fileId, i', m')), c.n);
    PreimageInjective(fileId, i, m, fileId, i', m');
  }

  // ── Tags of an earlier state ──

  /** What a tag was made for. */
  datatype Origin = Origin(blockIndex: uint64, metadata: Metadata, block: ByteString)

  /** What a signature commits to, before the scalar multiplication. */
  function Commitment(c: Curve, u: G1, fileId: ByteString, o: Origin): int {
    HashToCurve(c, Preimage(fileId, o.blockIndex, o.metadata)) + SegmentSum(o.block) * u
  }

  /** What the verifier expects an item to be about. */
  function Expected(item: ChallengeItem, blocks: BlockSource): Origin {
    Origin(item.blockIndex, item.metadata, blocks.block(SlotOf(item.blockIndex)))
  }

  /** The old commitment less the expected one; of a skipped item only the hash counts. */
  function StaleTerm(c: Curve, pub: PublicParams, fileId: ByteString, tags: Tags, blocks: BlockSource,
                     origin: uint64 -> Origin): ChallengeItem -> int
  {
    (item: ChallengeItem) =>
      if Present(c, pub, tags, item) then
        item.nu * (Commitment(c, pub.u, fileId, origin(SlotOf(item.blockIndex)))
                   - Commitment(c, pub.u, fileId, Expected(item, blocks)))
      else -(item.nu * BlockHash(c, fileId, item))
  }

  lemma StaleResidue(nu: int, a: int, was: int, expected: int, n: int)
    requires n > 0
    ensures nu * (a * was % n - a * expected) % n == a * (nu * (was - expected)) % n
  {
    Reduced(a * was, n);
    SubResidues(a * was % n, a * expected, a * was, a * expected, n);
    MulResidues(nu, a * was % n - a * expected, nu, a * was - a * expected, n);
    assert nu * (a * was - a * expected) == a * (nu * (was - expected)) by {
      assert a * was - a * expected == a * (was - expected);
    }
  }

  lemma SignsCommitment(c: Curve, u: G1, a: int, fileId: ByteString, o: Origin)
    ensures Signature(c, u, a, fileId, o.blockIndex, o.metadata, o.block) == a * Commitment(c, u, fileId, o) % c.n
  {
  }

  lemma SkippedFactor(a: int, x: int)
    ensures -a * x == a * -x
  {
  }

  lemma StaleItemError(c: Curve, pub: PublicParams, priv: PrivateParams, fileId: ByteString, tags: Tags,
                       blocks: BlockSource, origin: uint64 -> Origin, item: ChallengeItem)
    requires Present(c, pub, tags, item) ==>
               var o := origin(SlotOf(item.blockIndex));
               tags[SlotOf(item.blockIndex)] == Signature(c, pub.u, priv.a, fileId, o.blockIndex, o.metadata, o.block)
    ensures ErrorTerm(c, pub, priv, fileId, tags, blocks)(item) % c.n
         == priv.a * StaleTerm(c, pub, fileId, tags, blocks, origin)(item) % c.n
  {
    var slot := SlotOf(item.blockIndex);
    if Present(c, pub, tags, item) {
      SignsCommitment(c, pub.u, priv.a, fileId, origin(slot));
      assert ErrorTerm(c, pub, priv, fileId, tags, blocks)(item)
          == item.nu * (tags[slot] - priv.a * Commitment(c, pub.u, fileId, Expected(item, blocks)));
      StaleResidue(item.nu, priv.a, Commitment(c, pub.u, fileId, origin(slot)),
                   Commitment(c, pub.u, fileId, Expected(item, blocks)), c.n);
    } else {
      SkippedFactor(priv.a, item.nu * BlockHash(c, fileId, item));
    }
  }

  /** Tags of any earlier state: each tag the prover uses is an honest signature, but of
      whatever index, metadata and content its block once had. The audit accepts exactly
      when the weighted differences to the expected commitments cancel out. */
  lemma StaleTags(c: Curve, pub: PublicParams, priv: PrivateParams, fileId: ByteString, ch: Challenges,
                  tags: Tags, blocks: BlockSource, origin: uint64 -> Origin)
    requires KeyPair(c, pub, priv) && Blinded(c, pub, ch)
    requires Proof(c, pub, ch, tags, blocks).Some?
    requires forall j :: 0 <= j < |ch.items| && Present(c, pub, tags, ch.items[j]) ==>
               var o := origin(SlotOf(ch.items[j].blockIndex));
               tags[SlotOf(ch.items[j].blockIndex)]
                 == Signature(c, pub.u, priv.a, fileId, o.blockIndex, o.metadata, o.block)
    ensures Accepts(c, pub, fileId, ch, Proof(c, pub, ch, tags, blocks).value)
       <==> && Checkable(c, pub, fileId, ch)
            && (AtInfinity(c, ch.r) || AtInfinity(c, pub.g) || AtInfinity(c, priv.a)
                || Sum(StaleTerm(c, pub, fileId, tags, blocks, origin), ch.items) % c.n == 0)
  {
    var errors := ErrorTerm(c, pub, priv, fileId, tags, blocks);
    var stale := StaleTerm(c, pub, fileId, tags, blocks, origin);
    forall j | 0 <= j < |ch.items|
      ensures errors(ch.items[j]) % c.n == priv.a * stale(ch.items[j]) % c.n
    {
      StaleItemError(c, pub, priv, fileId, tags, blocks, origin, ch.items[j]);
    }
    SumsCongruent(errors, priv.a, stale, ch.items, c.n);
    ExactAcceptance(c, pub, priv, fileId, ch, tags, blocks);
    NoZeroDivisors(priv.a, Sum(stale, ch.items), c.n);
  }

  // ── The challenge as a set ──

  /** Items come out of an unordered set: neither proof nor verdict depends on their order. */
  lemma OrderIndependence(c: Curve, pub: PublicParams, fileId: ByteString, ch: Challenges, ch': Challenges,
                          tags: Tags, blocks: BlockSource, p: Proves)
    requires ch' == ch.(items := ch'.items) && multiset(ch.items) == multiset(ch'.items)
    ensures Proof(c, pub, ch, tags, blocks) == Proof(c, pub, ch', tags, blocks)
    ensures Accepts(c, pub, fileId, ch, p) <==> Accepts(c, pub, fileId, ch', p)
  {
    SumPermutation(SigmaTerm(c, pub, tags), ch.items, ch'.items);
    SumPermutation(BlockTerm(c, pub, tags, blocks), ch.items, ch'.items);
    SumPermutation(HashTerm(c, fileId), ch.items, ch'.items);
    SomePresentEitherOrder(c, pub, tags, ch.items, ch'.items);
    SomePresentEitherOrder(c, pub, tags, ch'.items, ch.items);
    assert |ch.items| == |multiset(ch.items)| == |ch'.items|;
  }

  lemma SomePresentEitherOrder(c: Curve, pub: PublicParams, tags: Tags, xs: seq<ChallengeItem>, ys: seq<ChallengeItem>)
    requires multiset(xs) == multiset(ys)
    ensures SomePresent(c, pub, tags, xs) ==> SomePresent(c, pub, tags, ys)
  {
    if SomePresent(c, pub, tags, xs) {
      var j :| 0 <= j < |xs| && Present(c, pub, tags, xs[j]);
      assert xs[j] in multiset(ys);
      var k :| 0 <= k < |ys| && ys[k] == xs[j];
    }
  }

  /** The challenge without the items that the prover skips. */
  function PresentItems(c: Curve, pub: PublicParams, tags: Tags, items: seq<ChallengeItem>): seq<ChallengeItem> {
    if items == [] then []
    else
      var last := items[|items| - 1];
      PresentItems(c, pub, tags, items[..|items| - 1]) + (if Present(c, pub, tags, last) then [last] else [])
  }

  lemma {:induction false} SumOverPresent(c: Curve, pub: PublicParams, tags: Tags, f: ChallengeItem -> int,
                                          items: seq<ChallengeItem>)
    requires forall item :: !Present(c, pub, tags, item) ==> f(item) == 0
    ensures Sum(f, PresentItems(c, pub, tags, items)) == Sum(f, items)
  {
    if items == [] {
    } else {
      var front, last := items[..|items| - 1], items[|items| - 1];
      SumOverPresent(c, pub, tags, f, front);
      SumConcat(f, PresentItems(c, pub, tags, front), [last]);
      assert Sum(f, [last]) == f(last) by { assert [last][..0] == []; }
      assert PresentItems(c, pub, tags, front) + [] == PresentItems(c, pub, tags, front);
    }
  }

  lemma {:induction false} PresentItemsAre(c: Curve, pub: PublicParams, tags: Tags, items: seq<ChallengeItem>,
                                           item: ChallengeItem)
    ensures item in PresentItems(c, pub, tags, items) <==> item in items && Present(c, pub, tags, item)
  {
    if items == [] {
    } else {
      PresentItemsAre(c, pub, tags, items[..|items| - 1], item);
      assert items == items[..|items| - 1] + [items[|items| - 1]];
    }
  }

  /** An item of index 0, without a tag, with a tag at infinity or with a failing pairing adds
      nothing: the proof is the same with and without it. */
  lemma SkippedAddsNothing(c: Curve, pub: PublicParams, ch: Challenges, item: ChallengeItem, tags: Tags,
                           blocks: BlockSource)
    requires || item.blockIndex == 0 || item.blockIndex - 1 !in tags || tags[item.blockIndex - 1] % c.n == 0
             || (c.strict && pub.g % c.n == 0)
    ensures Proof(c, pub, ch.(items := ch.items + [item]), tags, blocks) == Proof(c, pub, ch, tags, blocks)
  {
    var longer := ch.items + [item];
    assert longer[..|ch.items|] == ch.items;
    assert !Present(c, pub, tags, item);
    if SomePresent(c, pub, tags, ch.items) {
      var j :| 0 <= j < |ch.items| && Present(c, pub, tags, ch.items[j]);
      assert longer[j] == ch.items[j];
    }
  }

  /** Any other item adds its weighted signature and its weighted segment sum. */
  lemma TaggedItemAdds(c: Curve, pub: PublicParams, ch: Challenges, item: ChallengeItem, tags: Tags,
                       blocks: BlockSource)
    requires item.blockIndex >= 1 && item.blockIndex - 1 in tags && tags[item.blockIndex - 1] % c.n != 0
    requires c.strict ==> pub.g % c.n != 0 && pub.u % c.n != 0 && ch.R % c.n != 0
    ensures var k := item.blockIndex - 1;
            var longer := Proof(c, pub, ch.(items := ch.items + [item]), tags, blocks);
            && longer.Some?
            && longer.value.theta
               == pub.g * (Sum(SigmaTerm(c, pub, tags), ch.items) + item.nu * tags[k]) % c.n
            && longer.value.lambda
               == pub.u * ch.R
                  * (Sum(BlockTerm(c, pub, tags, blocks), ch.items) + item.nu * SegmentSum(blocks.block(k))) % c.n
  {
    var longer := ch.items + [item];
    assert longer[..|ch.items|] == ch.items;
    assert Present(c, pub, tags, longer[|ch.items|]);
  }

  /** Missing tags leave no trace in the proof: it is the proof of the present items. */
  lemma ProofOfSublist(c: Curve, pub: PublicParams, ch: Challenges, tags: Tags, blocks: BlockSource)
    ensures Proof(c, pub, ch, tags, blocks)
         == Proof(c, pub, ch.(items := PresentItems(c, pub, tags, ch.items)), tags, blocks)
  {
    var present := PresentItems(c, pub, tags, ch.items);
    SumOverPresent(c, pub, tags, SigmaTerm(c, pub, tags), ch.items);
    SumOverPresent(c, pub, tags, BlockTerm(c, pub, tags, blocks), ch.items);
    forall item ensures item in present <==> item in ch.items && Present(c, pub, tags, item) {
      PresentItemsAre(c, pub, tags, ch.items, item);
    }
    assert SomePresent(c, pub, tags, present) <==> SomePresent(c, pub, tags, ch.items) by {
      if j :| 0 <= j < |ch.items| && Present(c, pub, tags, ch.items[j]) {
        assert ch.items[j] in present;
      }
      if j :| 0 <= j < |present| && Present(c, pub, tags, present[j]) {
        assert present[j] in ch.items;
      }
    }
  }
}
