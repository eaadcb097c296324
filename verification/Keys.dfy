/** Key generation: the relations and the raw checks that the audit equation rests on. */
module Keys {
  import opened Bytes
  import opened Curve
  import opened Modular
  import opened Audit
  import opened Sampling

  /** The key pair of the file signature, which the SM9 library generates, or its failure. */
  datatype FileKey = FileKey(sk: int, pk: G2)

  datatype KeysResult =
    | FileKeyFailed
    | RandomFailed
    | Generated(pub: PublicParams, priv: PrivateParams)

  const GENERATOR: int := 1

  /** Where the three retry loops stop, one after the other, in the random source. */
  ghost function KeyPositions(bytes: Entropy): (nat, nat, nat)
    requires FairBytes(bytes)
  {
    var a := NextUsable(bytes, 0);
    var r := NextUsable(bytes, a + 1);
    (a, r, NextUsable(bytes, r + 1))
  }

  /** Three independent draws: the signing scalar, the exponent of g and the exponent of u. */
  method GenerateKeys(c: Curve, fileKey: Option<FileKey>, bytes: Entropy) returns (result: KeysResult)
    requires FairBytes(bytes)
    ensures result.FileKeyFailed? <==> fileKey.None?
    ensures var (i, j, k) := KeyPositions(bytes);
            && i < j < k
            && (result.Generated? <==>
                  fileKey.Some? && |bytes(i)| == SCALAR_SIZE && |bytes(j)| == SCALAR_SIZE && |bytes(k)| == SCALAR_SIZE)
            && (result.Generated? ==>
                  && result.priv == PrivateParams(fileKey.value.sk, LittleEndian(bytes(i)))
                  && result.pub.pk == fileKey.value.pk
                  && result.pub.g == LittleEndian(bytes(j)) % c.n && result.pub.u == LittleEndian(bytes(k)) % c.n)
    ensures result.Generated? ==> KeyPair(c, result.pub, result.priv) && result.priv.a > 0
  {
    if fileKey.None? {
      return FileKeyFailed;
    }
    var a, next := DrawScalar(bytes, 0);
    if a.None? {
      return RandomFailed;
    }
    var r;
    r, next := DrawScalar(bytes, next);
    if r.None? {
      return RandomFailed;
    }
    var g := Mul(c, r.value, GENERATOR);
    var y := Mul(c, a.value, g);
    var r';
    r', next := DrawScalar(bytes, next);
    if r'.None? {
      return RandomFailed;
    }
    var u := Mul(c, r'.value, GENERATOR);
    result := Generated(PublicParams(fileKey.value.pk, g, y, u), PrivateParams(fileKey.value.sk, a.value));
  }

  /** The commitment y is a finite point exactly when both factors are non-zero modulo the
      order, which the raw check of the loops does not ensure. */
  lemma CommitmentIsFinite(c: Curve, pub: PublicParams, priv: PrivateParams)
    requires KeyPair(c, pub, priv)
    ensures AtInfinity(c, pub.y) <==> AtInfinity(c, priv.a) || AtInfinity(c, pub.g)
  {
    Reduced(priv.a * pub.g, c.n);
    NoZeroDivisors(priv.a, pub.g, c.n);
  }

  /** The blinded commitment of a challenge degenerates only through its own factors. */
  lemma BlindedIsFinite(c: Curve, pub: PublicParams, priv: PrivateParams, ch: Challenges)
    requires KeyPair(c, pub, priv) && Blinded(c, pub, ch)
    ensures AtInfinity(c, ch.R) <==> AtInfinity(c, ch.r) || AtInfinity(c, priv.a) || AtInfinity(c, pub.g)
  {
    Reduced(ch.r * pub.y, c.n);
    NoZeroDivisors(ch.r, pub.y, c.n);
    CommitmentIsFinite(c, pub, priv);
  }
}
