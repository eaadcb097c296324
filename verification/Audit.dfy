/** Parameters, challenges, and proof generation and verification. */
module Audit {
  import opened Bytes
  import opened Curve
  import opened Encoding
  import opened Modular
  import opened Slots

  datatype PublicParams = PublicParams(pk: G2, g: G2, y: G2, u: G1)

  datatype PrivateParams = PrivateParams(sk: int, a: int)

  datatype ChallengeItem = ChallengeItem(blockIndex: uint64, nu: int, metadata: Metadata)

  datatype Challenges = Challenges(R: G2, r: int, items: seq<ChallengeItem>, blockCount: uint64)

  datatype Proves = Proves(theta: GT, lambda: GT)

  /** Signatures by 0-based global block index. */
  type Tags = map<uint64, G1>

  /** A window of a file: `block` is addressed from 0 inside the window. What a read past
      the window returns is left open. */
  datatype Window = Window(start: nat, count: nat, block: nat -> ByteString)

  /** The 1-based global index of every block of a source is a `size_t`. */
  type BlockSource = s: Window | s.start + s.count < TWO64 witness Window(0, 0, _ => [])

  datatype Verdict =
    | Accepted
    | EmptyFileId
    | NoItems
    | PublicKeyAtInfinity
    | PairingFailed
    | EquationFails

  ghost predicate KeyPair(c: Curve, pub: PublicParams, priv: PrivateParams) {
    pub.y == Mul(c, priv.a, pub.g)
  }

  ghost predicate Blinded(c: Curve, pub: PublicParams, ch: Challenges) {
    ch.R == Mul(c, ch.r, pub.y)
  }

  // ── Weighted sums over challenge items ──

  function Sum(f: ChallengeItem -> int, items: seq<ChallengeItem>): int {
    if items == [] then 0
    else Sum(f, items[..|items| - 1]) + f(items[|items| - 1])
  }

  lemma SumExtend(f: ChallengeItem -> int, items: seq<ChallengeItem>, j: nat)
    requires j < |items|
    ensures Sum(f, items[..j + 1]) == Sum(f, items[..j]) + f(items[j])
  {
    assert items[..j + 1][..j] == items[..j];
  }

  lemma {:induction false} SumConcat(f: ChallengeItem -> int, xs: seq<ChallengeItem>, ys: seq<ChallengeItem>)
    ensures Sum(f, xs + ys) == Sum(f, xs) + Sum(f, ys)
  {
    if ys == [] {
      assert xs + ys == xs;
    } else {
      assert (xs + ys)[..|xs + ys| - 1] == xs + ys[..|ys| - 1];
      SumConcat(f, xs, ys[..|ys| - 1]);
    }
  }

  lemma SumRemove(f: ChallengeItem -> int, items: seq<ChallengeItem>, k: nat)
    requires k < |items|
    ensures Sum(f, items) == Sum(f, items[..k] + items[k + 1..]) + f(items[k])
  {
    SumExtend(f, items, k);
    assert items == items[..k + 1] + items[k + 1..];
    SumConcat(f, items[..k + 1], items[k + 1..]);
    SumConcat(f, items[..k], items[k + 1..]);
  }

  lemma RemoveFromBoth(xs: seq<ChallengeItem>, ys: seq<ChallengeItem>, k: nat)
    requires xs != [] && k < |ys| && ys[k] == xs[|xs| - 1] && multiset(xs) == multiset(ys)
    ensures multiset(xs[..|xs| - 1]) == multiset(ys[..k] + ys[k + 1..])
  {
    var last := xs[|xs| - 1];
    assert xs == xs[..|xs| - 1] + [last];
    assert ys == ys[..k] + [last] + ys[k + 1..];
    assert multiset(xs[..|xs| - 1]) == multiset(ys) - multiset{last};
    assert multiset(ys) == multiset(ys[..k]) + multiset{last} + multiset(ys[k + 1..]);
  }

  lemma {:induction false} SumPermutation(f: ChallengeItem -> int, xs: seq<ChallengeItem>, ys: seq<ChallengeItem>)
    requires multiset(xs) == multiset(ys)
    ensures Sum(f, xs) == Sum(f, ys)
  {
    if xs == [] {
      assert |multiset(ys)| == |ys| == 0;
    } else {
      assert xs[|xs| - 1] in multiset(ys);
      var k :| 0 <= k < |ys| && ys[k] == xs[|xs| - 1];
      RemoveFromBoth(xs, ys, k);
      SumRemove(f, ys, k);
      SumPermutation(f, xs[..|xs| - 1], ys[..k] + ys[k + 1..]);
    }
  }

  lemma {:induction false} SumDivisible(f: ChallengeItem -> int, items: seq<ChallengeItem>, n: int)
    requires n > 0
    requires forall j :: 0 <= j < |items| ==> f(items[j]) % n == 0
    ensures Sum(f, items) % n == 0
  {
    if items != [] {
      var k := |items| - 1;
      SumDivisible(f, items[..k], n);
      ModAdd(Sum(f, items[..k]), f(items[k]), n);
    }
  }

  /** When all terms but one vanish modulo n the sum is that one term. */
  lemma SumSingle(f: ChallengeItem -> int, items: seq<ChallengeItem>, k: nat, n: int)
    requires n > 0 && k < |items|
    requires forall j :: 0 <= j < |items| && j != k ==> f(items[j]) % n == 0
    ensures Sum(f, items) % n == f(items[k]) % n
  {
    SumRemove(f, items, k);
    SumDivisible(f, items[..k] + items[k + 1..], n);
    ModAdd(Sum(f, items[..k] + items[k + 1..]), f(items[k]), n);
  }

  // ── What the prover and the verifier add up ──

  /** The items the prover does not skip. */
  predicate Present(c: Curve, pub: PublicParams, tags: Tags, item: ChallengeItem) {
    && item.blockIndex != 0
    && SlotOf(item.blockIndex) in tags
    && !AtInfinity(c, tags[SlotOf(item.blockIndex)])
    && Pairs(c, tags[SlotOf(item.blockIndex)], pub.g)
  }

  predicate SomePresent(c: Curve, pub: PublicParams, tags: Tags, items: seq<ChallengeItem>) {
    exists j :: 0 <= j < |items| && Present(c, pub, tags, items[j])
  }

  function BlockHash(c: Curve, fileId: ByteString, item: ChallengeItem): G1 {
    HashToCurve(c, Preimage(fileId, item.blockIndex, item.metadata))
  }

  function SigmaTerm(c: Curve, pub: PublicParams, tags: Tags): ChallengeItem -> int {
    (item: ChallengeItem) => if Present(c, pub, tags, item) then item.nu * tags[SlotOf(item.blockIndex)] else 0
  }

  function BlockTerm(c: Curve, pub: PublicParams, tags: Tags, blocks: BlockSource): ChallengeItem -> int {
    (item: ChallengeItem) =>
      if Present(c, pub, tags, item) then item.nu * SegmentSum(blocks.block(SlotOf(item.blockIndex))) else 0
  }

  function HashTerm(c: Curve, fileId: ByteString): ChallengeItem -> int {
    (item: ChallengeItem) => item.nu * BlockHash(c, fileId, item)
  }

  /** The proof in closed form: no item order, no running products. */
  function Proof(c: Curve, pub: PublicParams, ch: Challenges, tags: Tags, blocks: BlockSource): Option<Proves> {
    if SomePresent(c, pub, tags, ch.items) && Pairs(c, pub.u, ch.R) then
      Some(Proves(Mul(c, pub.g, Sum(SigmaTerm(c, pub, tags), ch.items)),
                  Mul(c, pub.u * ch.R, Sum(BlockTerm(c, pub, tags, blocks), ch.items))))
    else None
  }

  lemma FoldGT(c: Curve, s: int, sigma: G1, nu: int, g: G2)
    ensures Add(c, Mul(c, g, s), Mul(c, sigma * g % c.n, nu)) == Mul(c, g, s + nu * sigma)
  {
    ModMul(sigma * g, nu, c.n);
    ModAdd(g * s, sigma * g * nu % c.n, c.n);
    ModAdd(g * s, sigma * g * nu, c.n);
    assert g * (s + nu * sigma) == g * s + sigma * g * nu by {
      assert g * (nu * sigma) == sigma * g * nu;
    }
  }

  lemma FoldScalar(c: Curve, s: int, nu: int, m: int)
    ensures Add(c, s % c.n, Mul(c, nu, m % c.n)) == (s + nu * m) % c.n
  {
    ModMul(nu, m, c.n);
    ModAdd(s, nu * m % c.n, c.n);
    ModAdd(s, nu * m, c.n);
  }

  lemma FoldLambda(c: Curve, e: GT, m: int)
    ensures Mul(c, e % c.n, m % c.n) == Mul(c, e, m)
  {
    ModMul(e, m % c.n, c.n);
    ModMul(e, m, c.n);
  }

  /** A proof exists exactly when some item names a block, by an index from 1 on, whose tag is
      there and finite, and no pairing fails. */
  lemma ProofExists(c: Curve, pub: PublicParams, ch: Challenges, tags: Tags, blocks: BlockSource)
    ensures Proof(c, pub, ch, tags, blocks).Some? <==>
              && (exists j :: 0 <= j < |ch.items| && ch.items[j].blockIndex >= 1 && ch.items[j].blockIndex - 1 in tags
                              && tags[ch.items[j].blockIndex - 1] % c.n != 0 && (c.strict ==> pub.g % c.n != 0))
              && (c.strict ==> pub.u % c.n != 0 && ch.R % c.n != 0)
  {
    if SomePresent(c, pub, tags, ch.items) {
      var j :| 0 <= j < |ch.items| && Present(c, pub, tags, ch.items[j]);
      assert ch.items[j].blockIndex >= 1;
    }
    if j :| 0 <= j < |ch.items| && ch.items[j].blockIndex >= 1 && ch.items[j].blockIndex - 1 in tags
            && tags[ch.items[j].blockIndex - 1] % c.n != 0 && (c.strict ==> pub.g % c.n != 0) {
      assert Present(c, pub, tags, ch.items[j]);
    }
  }

  /** The loop over the items, with its skip branches and its running product and sum. */
  method AccumulateItems(c: Curve, pub: PublicParams, items: seq<ChallengeItem>, tags: Tags, blocks: BlockSource)
    returns (Theta: GT, M: int, accumulated: bool)
    ensures Theta == Mul(c, pub.g, Sum(SigmaTerm(c, pub, tags), items))
    ensures M == Sum(BlockTerm(c, pub, tags, blocks), items) % c.n
    ensures accumulated <==> SomePresent(c, pub, tags, items)
  {
    ghost var sigmas, ms := SigmaTerm(c, pub, tags), BlockTerm(c, pub, tags, blocks);
    Theta, M, accumulated := 0, 0, false;
    for j := 0 to |items|
      invariant Theta == Mul(c, pub.g, Sum(sigmas, items[..j]))
      invariant M == Sum(ms, items[..j]) % c.n
      invariant accumulated <==> exists k :: 0 <= k < j && Present(c, pub, tags, items[k])
    {
      var item := items[j];
      SumExtend(sigmas, items, j);
      SumExtend(ms, items, j);
      var idx := SlotOf(item.blockIndex);
      if item.blockIndex == 0 || idx !in tags {
        continue;
      }
      var sigma := tags[idx];
      if AtInfinity(c, sigma) {
        continue;
      }
      var theta := Pairing(c, sigma, pub.g);
      if theta == None {
        continue;
      }
      FoldGT(c, Sum(sigmas, items[..j]), sigma, item.nu, pub.g);
      Theta := Add(c, Theta, Mul(c, theta.value, item.nu));
      var blockScalar := AccumulateBlockSegmentsScalar(c, blocks.block(idx));
      FoldScalar(c, Sum(ms, items[..j]), item.nu, SegmentSum(blocks.block(idx)));
      M := Add(c, M, Mul(c, item.nu, blockScalar));
      accumulated := true;
    }
    assert items[..|items|] == items;
  }

  method GenerateProofs(c: Curve, pub: PublicParams, ch: Challenges, tags: Tags, blocks: BlockSource)
    returns (result: Option<Proves>)
    ensures result == Proof(c, pub, ch, tags, blocks)
    ensures result.Some? <==>
              && (exists j :: 0 <= j < |ch.items| && ch.items[j].blockIndex >= 1 && ch.items[j].blockIndex - 1 in tags
                              && tags[ch.items[j].blockIndex - 1] % c.n != 0 && (c.strict ==> pub.g % c.n != 0))
              && (c.strict ==> pub.u % c.n != 0 && ch.R % c.n != 0)
  {
    ProofExists(c, pub, ch, tags, blocks);
    if ch.items == [] {
      return None;
    }
    var Theta, M, accumulated := AccumulateItems(c, pub, ch.items, tags, blocks);
    if !accumulated {
      return None;
    }
    var Lambda := Pairing(c, pub.u, ch.R);
    if Lambda == None {
      return None;
    }
    FoldLambda(c, pub.u * ch.R, Sum(BlockTerm(c, pub, tags, blocks), ch.items));
    result := Some(Proves(Theta, Mul(c, Lambda.value, M)));
  }

  /** The aggregated hash point of the verifier. */
  function HashPoint(c: Curve, fileId: ByteString, items: seq<ChallengeItem>): G1 {
    Sum(HashTerm(c, fileId), items) % c.n
  }

  /** What verification demands before it looks at the equation. */
  predicate Checkable(c: Curve, pub: PublicParams, fileId: ByteString, ch: Challenges) {
    fileId != [] && ch.items != [] && !AtInfinity(c, pub.pk) && Pairs(c, HashPoint(c, fileId, ch.items), ch.R)
  }

  predicate Accepts(c: Curve, pub: PublicParams, fileId: ByteString, ch: Challenges, p: Proves) {
    && Checkable(c, pub, fileId, ch)
    && (p.theta * ch.r - p.lambda - HashPoint(c, fileId, ch.items) * ch.R) % c.n == 0
  }

  lemma HashPointStep(c: Curve, s: int, nu: int, h: G1)
    ensures Add(c, s % c.n, Mul(c, nu, h)) == (s + nu * h) % c.n
  {
    ModAdd(s, nu * h % c.n, c.n);
    ModAdd(s, nu * h, c.n);
  }

  /** Step 1 of verification: the weighted sum of the block hashes. */
  method AggregateHash(c: Curve, fileId: ByteString, items: seq<ChallengeItem>) returns (H: G1)
    ensures H == HashPoint(c, fileId, items)
  {
    ghost var hashes := HashTerm(c, fileId);
    H := 0;
    for j := 0 to |items|
      invariant H == Sum(hashes, items[..j]) % c.n
    {
      var item := items[j];
      var h := ComputeBlockHash(c, fileId, item.blockIndex, item.metadata);
      SumExtend(hashes, items, j);
      HashPointStep(c, Sum(hashes, items[..j]), item.nu, h);
      H := Add(c, H, Mul(c, item.nu, h));
    }
    assert items[..|items|] == items;
  }

  lemma EquationForm(c: Curve, theta: GT, r: int, folded: GT, H: G1, R: G2)
    ensures Mul(c, theta, r) == Add(c, folded, H * R % c.n) <==> (theta * r - folded - H * R) % c.n == 0
  {
    ModAdd(folded, H * R, c.n);
    SameResidue(theta * r, folded + H * R, c.n);
  }

  method VerifyProofs(c: Curve, pub: PublicParams, fileId: ByteString, ch: Challenges, p: Proves)
    returns (verdict: Verdict)
    ensures verdict.Accepted? <==> Accepts(c, pub, fileId, ch, p)
    ensures verdict.EquationFails? <==> Checkable(c, pub, fileId, ch) && !Accepts(c, pub, fileId, ch, p)
    ensures verdict.EmptyFileId? <==> fileId == []
    ensures verdict.NoItems? <==> fileId != [] && ch.items == []
    ensures verdict.PublicKeyAtInfinity? <==> fileId != [] && ch.items != [] && pub.pk % c.n == 0
    ensures verdict.PairingFailed? <==>
              && fileId != [] && ch.items != [] && pub.pk % c.n != 0
              && c.strict && (Sum(HashTerm(c, fileId), ch.items) % c.n == 0 || ch.R % c.n == 0)
    ensures verdict.Accepted? ==>
              (p.theta * ch.r - p.lambda - Sum(HashTerm(c, fileId), ch.items) % c.n * ch.R) % c.n == 0
    ensures verdict.EquationFails? ==>
              (p.theta * ch.r - p.lambda - Sum(HashTerm(c, fileId), ch.items) % c.n * ch.R) % c.n != 0
  {
    if fileId == [] {
      return EmptyFileId;
    }
    if ch.items == [] {
      return NoItems;
    }
    if AtInfinity(c, pub.pk) {
      return PublicKeyAtInfinity;
    }
    var H := AggregateHash(c, fileId, ch.items);
    Reduced(Sum(HashTerm(c, fileId), ch.items), c.n);
    var eHR := Pairing(c, H, ch.R);
    if eHR == None {
      return PairingFailed;
    }
    var thetaR := Mul(c, p.theta, ch.r);
    var rhs := Add(c, p.lambda, eHR.value);
    EquationForm(c, p.theta, ch.r, p.lambda, H, ch.R);
    verdict := if thetaR == rhs then Accepted else EquationFails;
  }
}
