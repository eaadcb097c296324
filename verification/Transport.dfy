/** A challenge set on its way from the auditor to the prover and the verifier. */
module Transport {
  import opened Bytes
  import opened Curve
  import opened Audit
  import opened AuditTheorems
  import opened Codec
  import opened Sampling
  import opened ChallengeGen
  import opened ChallengeTheorems
  import opened Agreement

  /** Scalars that fit their buffers, and a count that fits its field. */
  predicate Sendable(ch: Challenges) {
    && |ch.items| < TWO64 && 0 <= ch.r < Pow256(SCALAR_SIZE)
    && forall j :: 0 <= j < |ch.items| ==> 0 <= ch.items[j].nu < Pow256(SCALAR_SIZE)
  }

  /** The object that is serialized; toRaw lays out a G2 point. */
  function Packed(ch: Challenges, toRaw: G2 -> Point): Content
    requires Sendable(ch)
  {
    Content(toRaw(ch.R), ToLittleEndian(ch.r, SCALAR_SIZE), ch.blockCount,
            seq(|ch.items|, j requires 0 <= j < |ch.items| =>
              Item(ch.items[j].blockIndex, ToLittleEndian(ch.items[j].nu, SCALAR_SIZE), ch.items[j].metadata)))
  }

  function Unpacked(content: Content, fromRaw: Point -> G2): Challenges {
    Challenges(fromRaw(content.R), LittleEndian(content.r),
               seq(|content.items|, j requires 0 <= j < |content.items| =>
                 ChallengeItem(content.items[j].blockIndex, LittleEndian(content.items[j].nu),
                               content.items[j].metadata)),
               content.blockCount)
  }

  lemma UnpackedPacked(ch: Challenges, toRaw: G2 -> Point, fromRaw: Point -> G2)
    requires Sendable(ch) && fromRaw(toRaw(ch.R)) == ch.R
    ensures Unpacked(Packed(ch, toRaw), fromRaw) == ch
  {
    LittleEndianRoundTrip(ch.r, SCALAR_SIZE);
    var back := Unpacked(Packed(ch, toRaw), fromRaw);
    forall j | 0 <= j < |ch.items| ensures back.items[j] == ch.items[j] {
      LittleEndianRoundTrip(ch.items[j].nu, SCALAR_SIZE);
    }
  }

  /** Issued challenges can be sent: their scalars are answers of 32 bytes. */
  lemma IssuedIsSendable(c: Curve, ch: Challenges, draw: Distribution, bytes: Entropy, start: nat, to: nat)
    requires FairSums(c, bytes, |ch.items|) && DrawnFrom(c, ch, draw, bytes, start, to) && |ch.items| <= ch.blockCount
    ensures Sendable(ch)
  {
    var positions := NuPositions(c, bytes, |ch.items|);
    LittleEndianBound(bytes(BlindPosition(c, bytes, |ch.items|)));
    forall j | 0 <= j < |ch.items| ensures 0 <= ch.items[j].nu < Pow256(SCALAR_SIZE) {
      assert ScalarIs(bytes(positions[j]), ch.items[j].nu);
      LittleEndianBound(bytes(positions[j]));
    }
  }

  /** What arrives, whatever follows it in the stream, is the challenge that was sent. */
  lemma ReceivedIsSent(ch: Challenges, toRaw: G2 -> Point, fromRaw: Point -> G2, trailing: ByteString)
    requires Sendable(ch) && fromRaw(toRaw(ch.R)) == ch.R
    ensures var received := Decode(Encode(Packed(ch, toRaw)) + trailing);
            received.Some? && Unpacked(received.value.0, fromRaw) == ch && received.value.1 == trailing
  {
    RoundTrip(Packed(ch, toRaw), trailing);
    UnpackedPacked(ch, toRaw, fromRaw);
  }

  /** The audit over the wire: prover and verifier work on the challenge they deserialized,
      and an issued challenge on an agreeing state is accepted, barring infinity. */
  lemma ReceivedAuditPasses(o: Owner, s: State, ch: Challenges, draw: Distribution, bytes: Entropy, start: nat, to: nat,
                            toRaw: G2 -> Point, fromRaw: Point -> G2, trailing: ByteString)
    requires Agree(o, s) && WellFormed(o.c, o.pub, s.slots, ch) && |ch.items| <= ch.blockCount
    requires FairSums(o.c, bytes, |ch.items|) && DrawnFrom(o.c, ch, draw, bytes, start, to)
    requires fromRaw(toRaw(ch.R)) == ch.R
    requires KeyPair(o.c, o.pub, o.priv) && o.fileId != [] && NoInfinity(o.c, o.pub, o.fileId, s.tags, ch)
    ensures Sendable(ch)
    ensures var received := Decode(Encode(Packed(ch, toRaw)) + trailing);
            && received.Some?
            && var challenges := Unpacked(received.value.0, fromRaw);
               var proof := Proof(o.c, o.pub, challenges, s.tags, Source(s.contents));
               proof.Some? && Accepts(o.c, o.pub, o.fileId, challenges, proof.value)
  {
    IssuedIsSendable(o.c, ch, draw, bytes, start, to);
    ReceivedIsSent(ch, toRaw, fromRaw, trailing);
    IssuedAuditPasses(o, s, ch);
  }
}
